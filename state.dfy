/**
  The invariant the routes of redis-backend/server.js keep over the store, stated
  on plain values so that what each kind of write preserves can be proved once:

  - Redis keeps no empty hash and no empty set;
  - a field holds JSON exactly when it is the assignedResident field of a user;
  - every stored certificate carries an identifier minted by the certificate
    counter, and every identifier in `user:<name>:certificates` names a stored
    certificate whose username field is <name>.
*/
module State {
  import opened Wrappers
  import opened Text
  import opened Ids
  import opened Redis

  const CertificatePrefix := "certificate:"

  predicate IsCertificateKey(k: string) {
    StartsWith(k, CertificatePrefix)
  }

  predicate IsJsonField(key: string, field: string) {
    StartsWith(key, "user:") && field == "assignedResident"
  }

  /** The values written at key respect the JSON placement. */
  predicate Fits(key: string, fields: Hash) {
    forall f :: f in fields ==> (fields[f].Json? <==> IsJsonField(key, f))
  }

  /** Plain strings fit every key outside the user accounts. */
  lemma StrsFit(key: string, m: map<string, string>)
    requires !StartsWith(key, "user:")
    ensures Fits(key, Strs(m))
  {
  }

  ghost predicate WellFormed(hs: Keyspace, sets: map<string, set<string>>) {
    && (forall k :: k in hs ==> hs[k] != map[] && Fits(k, hs[k]))
    && (forall k :: k in sets ==> sets[k] != {})
  }

  /** id is `<year>-<n>` for some year and some n the counter has reached. */
  ghost predicate Minted(id: string, counter: nat) {
    exists year: nat, n: nat :: 1 <= n <= counter && id == FormatId(year, n, CertificateWidth)
  }

  ghost predicate AllMinted(hs: Keyspace, counter: nat) {
    forall id :: CertificateKey(id) in hs ==> Minted(id, counter)
  }

  ghost predicate SetsIndexed(hs: Keyspace, sets: map<string, set<string>>) {
    forall u, id :: CertificateSetKey(u) in sets && id in sets[CertificateSetKey(u)] ==>
      CertificateKey(id) in hs && FieldText(hs[CertificateKey(id)], "username") == Some(u)
  }

  ghost predicate CertificatesIndexed(hs: Keyspace, sets: map<string, set<string>>, counter: nat) {
    AllMinted(hs, counter) && SetsIndexed(hs, sets)
  }

  ghost predicate ValidState(hs: Keyspace, sets: map<string, set<string>>, counter: nat) {
    WellFormed(hs, sets) && CertificatesIndexed(hs, sets, counter)
  }

  // ---------------------------------------------------------------------------
  // Keys

  lemma CertificateKeyShape(id: string)
    ensures IsCertificateKey(CertificateKey(id))
    ensures CertificateKey(id)[|CertificatePrefix|..] == id
  {
    assert CertificateKey(id)[..|CertificatePrefix|] == CertificatePrefix;
  }

  lemma CertificateKeyInjective(a: string, b: string)
    ensures CertificateKey(a) == CertificateKey(b) <==> a == b
  {
    CertificateKeyShape(a);
    CertificateKeyShape(b);
  }

  /** A key of another kind is no certificate's key. */
  lemma OtherKind(k: string)
    requires !IsCertificateKey(k)
    ensures forall id :: CertificateKey(id) != k
  {
    forall id ensures CertificateKey(id) != k {
      CertificateKeyShape(id);
    }
  }

  lemma RecordKeysAreNotCertificates(id: string)
    ensures !IsCertificateKey(ResidentKey(id)) && !IsCertificateKey(OfficialKey(id))
    ensures !IsCertificateKey(AnnouncementKey(id)) && !IsCertificateKey(StaffKey(id))
    ensures !IsCertificateKey(UserKey(id))
  {
    assert ResidentKey(id)[0] == 'r' && OfficialKey(id)[0] == 'o' && AnnouncementKey(id)[0] == 'a';
    assert StaffKey(id)[0] == 's' && UserKey(id)[0] == 'u';
  }

  // ---------------------------------------------------------------------------
  // What the writes preserve

  /** A minted identifier stays minted as the counter grows. */
  lemma MintedGrows(id: string, c: nat, d: nat)
    requires Minted(id, c) && c <= d
    ensures Minted(id, d)
  {
  }

  /** The identifier the next INCR of the certificate counter yields is in use nowhere:
      no stored certificate has it and no user's set lists it. */
  lemma NextCertificateIdIsFresh(hs: Keyspace, sets: map<string, set<string>>, c: nat, year: nat)
    requires CertificatesIndexed(hs, sets, c)
    ensures CertificateKey(FormatId(year, c + 1, CertificateWidth)) !in hs
    ensures forall u :: CertificateSetKey(u) in sets ==>
              FormatId(year, c + 1, CertificateWidth) !in sets[CertificateSetKey(u)]
    ensures Minted(FormatId(year, c + 1, CertificateWidth), c + 1)
  {
    var id := FormatId(year, c + 1, CertificateWidth);
    assert 1 <= c + 1 <= c + 1 && id == FormatId(year, c + 1, CertificateWidth);
    if CertificateKey(id) in hs {
      var y: nat, n: nat :| 1 <= n <= c && id == FormatId(y, n, CertificateWidth);
      FormatIdInjective(y, n, year, c + 1, CertificateWidth);
    }
  }

  /** Writing string fields, or a user's assignedResident, under a key that is not a
      certificate's keeps the invariant. */
  lemma WriteElsewhere(hs: Keyspace, sets: map<string, set<string>>, c: nat, key: string, fields: Hash)
    requires ValidState(hs, sets, c) && Fits(key, fields) && !IsCertificateKey(key)
    ensures ValidState(Merge(hs, key, fields), sets, c)
  {
    MergeWellFormed(hs, sets, key, fields);
    MintedKept(hs, Merge(hs, key, fields), c, key);
    WriteIndexed(hs, sets, key, fields);
  }

  /** An HSET whose fields fit their key keeps every hash non-empty and fitting. */
  lemma MergeWellFormed(hs: Keyspace, sets: map<string, set<string>>, key: string, fields: Hash)
    requires WellFormed(hs, sets) && Fits(key, fields)
    ensures WellFormed(Merge(hs, key, fields), sets)
    ensures Merge(hs, key, fields).Keys == hs.Keys + (if fields == map[] then {} else {key})
  {
    if fields != map[] {
      var h := HGetAll(hs, key) + fields;
      forall f | f in h ensures (h[f].Json? <==> IsJsonField(key, f)) {
        if f !in fields {
          assert key in hs && f in hs[key];
        }
      }
    }
  }

  /** A keyspace that gains at most one key, a stored one or no certificate's, keeps
      every certificate minted. */
  lemma MintedKept(hs: Keyspace, hs': Keyspace, c: nat, key: string)
    requires AllMinted(hs, c) && hs'.Keys <= hs.Keys + {key}
    requires key in hs || !IsCertificateKey(key)
    ensures AllMinted(hs', c)
  {
    forall i | CertificateKey(i) in hs' ensures Minted(i, c) {
      CertificateKeyShape(i);
    }
  }

  /** An HSET of a key that is no certificate's, or of a stored certificate without
      touching its username, keeps every listed certificate stored under its owner. */
  lemma WriteIndexed(hs: Keyspace, sets: map<string, set<string>>, key: string, fields: Hash)
    requires SetsIndexed(hs, sets)
    requires (key in hs && "username" !in fields) || !IsCertificateKey(key)
    ensures SetsIndexed(Merge(hs, key, fields), sets)
  {
    var hs' := Merge(hs, key, fields);
    forall v, i | CertificateSetKey(v) in sets && i in sets[CertificateSetKey(v)]
      ensures CertificateKey(i) in hs' && FieldText(hs'[CertificateKey(i)], "username") == Some(v)
    {
      CertificateKeyShape(i);
      MergeEffect(hs, key, fields, CertificateKey(i), "username");
    }
  }

  /** Writing fields other than username into a stored certificate keeps the invariant. */
  lemma WriteCertificate(hs: Keyspace, sets: map<string, set<string>>, c: nat, id: string, fields: Hash)
    requires ValidState(hs, sets, c) && Fits(CertificateKey(id), fields)
    requires CertificateKey(id) in hs && "username" !in fields
    ensures ValidState(Merge(hs, CertificateKey(id), fields), sets, c)
  {
    MergeWellFormed(hs, sets, CertificateKey(id), fields);
    MintedKept(hs, Merge(hs, CertificateKey(id), fields), c, CertificateKey(id));
    WriteIndexed(hs, sets, CertificateKey(id), fields);
  }

  /** Deleting a key that is not a certificate's drops the hash and the set of that name
      and keeps the invariant. */
  lemma DeleteElsewhere(hs: Keyspace, sets: map<string, set<string>>, c: nat, key: string)
    requires ValidState(hs, sets, c) && !IsCertificateKey(key)
    ensures ValidState(hs - {key}, sets - {key}, c)
  {
    MintedKept(hs, hs - {key}, c, key);
    var hs', sets' := hs - {key}, sets - {key};
    forall v, i | CertificateSetKey(v) in sets' && i in sets'[CertificateSetKey(v)]
      ensures CertificateKey(i) in hs' && FieldText(hs'[CertificateKey(i)], "username") == Some(v)
    {
      CertificateKeyShape(i);
      assert CertificateKey(i) in hs;
    }
  }

  /** SREM keeps the invariant; the set disappears with its last member. */
  lemma RemoveMember(hs: Keyspace, sets: map<string, set<string>>, c: nat, key: string, m: string)
    requires ValidState(hs, sets, c)
    ensures ValidState(hs, SRem(sets, key, m), c)
  {
  }

  /** Deleting a certificate and taking it out of its owner's set keeps the invariant. */
  lemma DropCertificate(hs: Keyspace, sets: map<string, set<string>>, c: nat, u: string, id: string)
    requires ValidState(hs, sets, c)
    requires CertificateSetKey(u) in sets && id in sets[CertificateSetKey(u)]
    ensures ValidState(hs - {CertificateKey(id)}, SRem(sets, CertificateSetKey(u), id), c)
  {
    MintedKept(hs, hs - {CertificateKey(id)}, c, CertificateKey(id));
    DropIndexed(hs, sets, u, id);
  }

  lemma DropIndexed(hs: Keyspace, sets: map<string, set<string>>, u: string, id: string)
    requires SetsIndexed(hs, sets)
    requires CertificateSetKey(u) in sets && id in sets[CertificateSetKey(u)]
    ensures SetsIndexed(hs - {CertificateKey(id)}, SRem(sets, CertificateSetKey(u), id))
  {
    var hs', sets' := hs - {CertificateKey(id)}, SRem(sets, CertificateSetKey(u), id);
    forall v, i | CertificateSetKey(v) in sets' && i in sets'[CertificateSetKey(v)]
      ensures CertificateKey(i) in hs' && FieldText(hs'[CertificateKey(i)], "username") == Some(v)
    {
      assert i in sets[CertificateSetKey(v)];
      assert FieldText(hs[CertificateKey(i)], "username") == Some(v);
      assert FieldText(hs[CertificateKey(id)], "username") == Some(u);
      CertificateSetKeyInjective(u, v);
      assert i != id;
      CertificateKeyInjective(i, id);
    }
  }

  /** Storing a certificate under a fresh identifier the counter one higher has minted,
      owned by u, and listing it in u's set keeps the invariant with that counter. */
  lemma AddCertificate(hs: Keyspace, sets: map<string, set<string>>, c: nat, u: string, id: string, fields: Hash)
    requires ValidState(hs, sets, c) && Minted(id, c + 1) && CertificateKey(id) !in hs
    requires "username" in fields && fields["username"] == Str(u) && Fits(CertificateKey(id), fields)
    ensures ValidState(Merge(hs, CertificateKey(id), fields), SAdd(sets, CertificateSetKey(u), id), c + 1)
  {
    MergeWellFormed(hs, sets, CertificateKey(id), fields);
    AddWellFormed(Merge(hs, CertificateKey(id), fields), sets, CertificateSetKey(u), id);
    AddMinted(hs, c, id, fields);
    AddIndexed(hs, sets, u, id, fields);
  }

  lemma AddWellFormed(hs: Keyspace, sets: map<string, set<string>>, key: string, m: string)
    requires WellFormed(hs, sets)
    ensures WellFormed(hs, SAdd(sets, key, m))
  {
    var sets' := SAdd(sets, key, m);
    forall k | k in sets' ensures sets'[k] != {} {
      if k == key {
        assert m in sets'[k];
      }
    }
  }

  lemma AddMinted(hs: Keyspace, c: nat, id: string, fields: Hash)
    requires AllMinted(hs, c) && Minted(id, c + 1)
    ensures AllMinted(Merge(hs, CertificateKey(id), fields), c + 1)
  {
    var hs' := Merge(hs, CertificateKey(id), fields);
    forall i | CertificateKey(i) in hs' ensures Minted(i, c + 1) {
      CertificateKeyInjective(i, id);
      if i != id {
        MintedGrows(i, c, c + 1);
      }
    }
  }

  lemma AddIndexed(hs: Keyspace, sets: map<string, set<string>>, u: string, id: string, fields: Hash)
    requires SetsIndexed(hs, sets) && CertificateKey(id) !in hs
    requires "username" in fields && fields["username"] == Str(u)
    ensures SetsIndexed(Merge(hs, CertificateKey(id), fields), SAdd(sets, CertificateSetKey(u), id))
  {
    var hs', sets' := Merge(hs, CertificateKey(id), fields), SAdd(sets, CertificateSetKey(u), id);
    assert hs'[CertificateKey(id)] == fields;
    forall v, i | CertificateSetKey(v) in sets' && i in sets'[CertificateSetKey(v)]
      ensures CertificateKey(i) in hs' && FieldText(hs'[CertificateKey(i)], "username") == Some(v)
    {
      CertificateSetKeyInjective(u, v);
      if !(v == u && i == id) {
        assert CertificateSetKey(v) in sets && i in sets[CertificateSetKey(v)];
        CertificateKeyInjective(i, id);
      }
    }
  }

  lemma CertificateSetKeyInjective(a: string, b: string)
    ensures CertificateSetKey(a) == CertificateSetKey(b) <==> a == b
  {
    if CertificateSetKey(a) == CertificateSetKey(b) {
      assert |a| == |b|;
      assert a == CertificateSetKey(a)[5..5 + |a|];
    }
  }

  /** Deleting a certificate, which DEL also drops from the sets, and taking it out of
      its owner's set keep the invariant, in either order. */
  lemma RemoveCertificate(hs: Keyspace, sets: map<string, set<string>>, c: nat, u: string, id: string)
    requires ValidState(hs, sets, c)
    requires CertificateSetKey(u) in sets && id in sets[CertificateSetKey(u)]
    ensures SRem(sets - {CertificateKey(id)}, CertificateSetKey(u), id) == SRem(sets, CertificateSetKey(u), id) - {CertificateKey(id)}
    ensures ValidState(hs - {CertificateKey(id)}, SRem(sets, CertificateSetKey(u), id) - {CertificateKey(id)}, c)
  {
    assert CertificateKey(id)[0] == 'c' && CertificateSetKey(u)[0] == 'u';
    DropCertificate(hs, sets, c, u, id);
    DropSet(hs - {CertificateKey(id)}, SRem(sets, CertificateSetKey(u), id), c, CertificateKey(id));
  }

  /** Deleting a set keeps the invariant. */
  lemma DropSet(hs: Keyspace, sets: map<string, set<string>>, c: nat, key: string)
    requires ValidState(hs, sets, c)
    ensures ValidState(hs, sets - {key}, c)
  {
  }
}
