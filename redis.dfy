/**
  The part of Redis the backend uses, as values: a hash is a map from field to
  value, the keyspace of hashes is a map from key to hash, and the key names the
  backend builds for its records.

  Every field holds a string, except the assignedResident field of a user, which
  holds JSON.stringify of a resident; the model keeps the copied resident map there
  (Json) in place of its JSON text.
*/
module Redis {
  import opened Wrappers
  import opened Text

  datatype Value = Str(text: string) | Json(fields: map<string, string>)

  type Hash = map<string, Value>

  type Keyspace = map<string, Hash>

  /** HGETALL: a key that does not exist reads as the empty hash. */
  function HGetAll(hs: Keyspace, key: string): Hash {
    if key in hs then hs[key] else map[]
  }

  /** HSET with the given field/value pairs. Redis never keeps an empty hash, so
      writing no field leaves the keyspace as it is. */
  function Merge(hs: Keyspace, key: string, fields: Hash): Keyspace {
    if fields == map[] then hs else hs[key := HGetAll(hs, key) + fields]
  }

  /** The field as an optional JavaScript value: None is undefined. */
  function Field(h: Hash, f: string): Option<Value> {
    if f in h then Some(h[f]) else None
  }

  /** A string field: None when the field is undefined (or, never in a well-formed
      store, holds JSON). */
  function FieldText(h: Hash, f: string): Option<string> {
    if f in h && h[f].Str? then Some(h[f].text) else None
  }

  /** A template literal or String() of the value: undefined renders "undefined". */
  function Render(v: Option<string>): string {
    match v
    case Some(s) => s
    case None => "undefined"
  }

  /** The truthiness of a string-or-undefined value. */
  predicate Truthy(v: Option<string>) {
    v.Some? && v.value != ""
  }

  /** A hash whose fields all hold strings, as the map of those strings. */
  function Texts(h: Hash): (m: map<string, string>)
    ensures forall f :: f in m <==> f in h && h[f].Str?
    ensures forall f :: f in m ==> FieldText(h, f) == Some(m[f])
  {
    map f | f in h && h[f].Str? :: h[f].text
  }

  /** Strings written as hash field values. */
  function Strs(m: map<string, string>): (h: Hash)
    ensures h.Keys == m.Keys
    ensures forall f :: f in m ==> h[f] == Str(m[f])
  {
    map f | f in m :: Str(m[f])
  }

  lemma TextsOfStrs(m: map<string, string>)
    ensures Texts(Strs(m)) == m
  {
  }

  /** The set after SREM. */
  function SRem(sets: map<string, set<string>>, key: string, m: string): (r: map<string, set<string>>)
    ensures key !in r ==> key !in sets || sets[key] <= {m}
    ensures key in r ==> key in sets && r[key] == sets[key] - {m}
    ensures forall k :: k != key ==> (k in r <==> k in sets) && (k in sets ==> r[k] == sets[k])
  {
    var rest := (if key in sets then sets[key] else {}) - {m};
    if rest == {} then sets - {key} else sets[key := rest]
  }

  /** The set after SADD. */
  function SAdd(sets: map<string, set<string>>, key: string, m: string): (r: map<string, set<string>>)
    ensures r.Keys == sets.Keys + {key}
    ensures r[key] == (if key in sets then sets[key] else {}) + {m}
    ensures forall k :: k in sets && k != key ==> r[k] == sets[k]
  {
    sets[key := (if key in sets then sets[key] else {}) + {m}]
  }

  /** Two HSETs of one key are one HSET of both field lists, the later winning. */
  lemma MergeTwice(hs: Keyspace, key: string, a: Hash, b: Hash)
    ensures Merge(Merge(hs, key, a), key, b) == Merge(hs, key, a + b)
  {
    if a == map[] {
      assert a + b == b;
    } else if b == map[] {
      assert a + b == a;
    } else {
      assert HGetAll(hs, key) + a + b == HGetAll(hs, key) + (a + b);
    }
  }

  /** HSET changes one key only, gives the written fields their new values and keeps
      every other field of that key. */
  lemma MergeEffect(hs: Keyspace, key: string, fields: Hash, k: string, f: string)
    ensures k != key ==> HGetAll(Merge(hs, key, fields), k) == HGetAll(hs, k)
    ensures f in fields ==> Field(HGetAll(Merge(hs, key, fields), key), f) == Some(fields[f])
    ensures f !in fields ==> Field(HGetAll(Merge(hs, key, fields), key), f) == Field(HGetAll(hs, key), f)
  {
  }

  /** Writing a hash under a key nobody holds stores exactly the written fields. */
  lemma MergeFresh(hs: Keyspace, key: string, a: Hash)
    requires key !in hs && a != map[]
    ensures Merge(hs, key, a) == hs[key := a]
  {
    assert map[] + a == a;
  }

  lemma StrsInsert(m: map<string, string>, f: string, v: string)
    ensures Strs(m[f := v]) == Strs(m) + map[f := Str(v)]
  {
  }

  // ---------------------------------------------------------------------------
  // Key names

  function UserKey(username: string): (k: string)
    ensures StartsWith(k, "user:")
  {
    assert ("user:" + username)[..5] == "user:";
    "user:" + username
  }
  function CertificateSetKey(username: string): string { "user:" + username + ":certificates" }
  function ResidentKey(id: string): string { "resident:" + id }
  function OfficialKey(id: string): string { "official:" + id }
  function AnnouncementKey(id: string): string { "announcement:" + id }
  function CertificateKey(id: string): string { "certificate:" + id }
  function StaffKey(id: string): string { "staff:" + id }

  const AdminUsername := "lrnblss"

  /** What `keys('user:*')` followed by `key.split(':').length === 2` keeps. */
  predicate IsAccountKey(k: string) {
    StartsWith(k, "user:") && |Split(k, ':')| == 2
  }

  /** The user name in an account key, `key.split(':')[1]`. */
  function KeyId(k: string): string {
    var parts := Split(k, ':');
    if |parts| >= 2 then parts[1] else ""
  }

  /** The part after the first ':' of a two-part key. */
  lemma KeyIdAfterPrefix(prefix: string, id: string)
    requires ':' !in prefix && ':' !in id
    ensures Split(prefix + ":" + id, ':') == [prefix, id]
    ensures KeyId(prefix + ":" + id) == id
  {
    assert prefix + ":" + id == prefix + [':'] + id;
    SplitAfterPrefix(prefix, ':', id);
    SplitWithoutSep(id, ':');
  }

  /** A user name without a colon makes an account key that the listing filter keeps,
      and the listing reads the same name back out of it. */
  lemma AccountKeyRoundTrip(username: string)
    requires ':' !in username
    ensures IsAccountKey(UserKey(username))
    ensures KeyId(UserKey(username)) == username
  {
    KeyIdAfterPrefix("user", username);
    assert UserKey(username) == "user" + ":" + username;
  }

  /** The key of a user's certificate set never passes the two-part filter, so the
      account listings see only user hashes. */
  lemma CertificateSetKeyIsNotAccount(username: string)
    ensures !IsAccountKey(CertificateSetKey(username))
  {
    var u := username + ":certificates";
    assert CertificateSetKey(username) == "user" + [':'] + u;
    SplitAfterPrefix("user", ':', u);
    assert ':' in u by { assert u[|username|] == ':'; }
    OccurrencesIn(u, ':');
    SplitCount(u, ':');
  }

  /** A character that occurs is counted. */
  lemma {:induction false} OccurrencesIn(s: string, c: char)
    requires c in s
    ensures Occurrences(s, c) >= 1
  {
    OccurrencesZero(s, c);
  }

  /** Keys of different kinds of record never coincide. */
  lemma KindsAreDisjoint(a: string, b: string)
    ensures UserKey(a) != ResidentKey(b) && UserKey(a) != OfficialKey(b)
    ensures UserKey(a) != AnnouncementKey(b) && UserKey(a) != CertificateKey(b)
    ensures UserKey(a) != StaffKey(b)
    ensures ResidentKey(a) != OfficialKey(b) && ResidentKey(a) != AnnouncementKey(b)
    ensures ResidentKey(a) != CertificateKey(b) && ResidentKey(a) != StaffKey(b)
    ensures OfficialKey(a) != AnnouncementKey(b) && OfficialKey(a) != CertificateKey(b)
    ensures OfficialKey(a) != StaffKey(b) && AnnouncementKey(a) != CertificateKey(b)
    ensures AnnouncementKey(a) != StaffKey(b) && CertificateKey(a) != StaffKey(b)
    ensures !StartsWith(ResidentKey(a), "user:") && !StartsWith(OfficialKey(a), "user:")
    ensures !StartsWith(AnnouncementKey(a), "user:") && !StartsWith(CertificateKey(a), "user:")
    ensures !StartsWith(StaffKey(a), "user:")
  {
    assert UserKey(a)[0] == 'u' && ResidentKey(b)[0] == 'r' && OfficialKey(b)[0] == 'o';
    assert AnnouncementKey(b)[0] == 'a' && CertificateKey(b)[0] == 'c' && StaffKey(b)[0] == 's';
    assert ResidentKey(a)[0] == 'r' && OfficialKey(a)[0] == 'o' && AnnouncementKey(a)[0] == 'a';
    assert CertificateKey(a)[0] == 'c' && StaffKey(a)[0] == 's';
  }
}
