/**
  The listing routes of redis-backend/server.js (GET /residents, /officials,
  /announcements, /staffs): each stored hash becomes a record tagged with a part
  of its key, and a truthy `search` keeps the records one of whose values
  contains the search term, ignoring case.
*/
module Listing {
  import opened Wrappers
  import opened Text
  import opened Redis
  import opened Seqs

  type Record = map<string, string>

  /** `{ [tag]: key.split(':')[1], ...data }`: the stored fields win over the tag. */
  function Tagged(tag: string, key: string, h: Hash): (r: Record)
    ensures r.Keys == Texts(h).Keys + {tag}
    ensures forall f :: f in Texts(h) ==> r[f] == Texts(h)[f]
    ensures tag !in Texts(h) ==> r[tag] == KeyId(key)
  {
    map[tag := KeyId(key)] + Texts(h)
  }

  /** `keys.map(key => ({ [tag]: key.split(':')[1], ...hGetAll(key) }))`. */
  function TagAll(tag: string, keys: seq<string>, hs: Keyspace): (r: seq<Record>)
    ensures |r| == |keys|
    ensures forall i :: 0 <= i < |keys| ==> r[i] == Tagged(tag, keys[i], HGetAll(hs, keys[i]))
  {
    if keys == [] then [] else [Tagged(tag, keys[0], HGetAll(hs, keys[0]))] + TagAll(tag, keys[1..], hs)
  }

  /** `Object.values(record).some(v => String(v).toLowerCase().includes(search.toLowerCase()))`. */
  predicate RecordHit(rec: Record, search: string) {
    exists f :: f in rec && ContainsIgnoringCase(rec[f], search)
  }

  /** `if (search) records = records.filter(…)`. */
  function SearchRecords(recs: seq<Record>, search: Option<string>): (r: seq<Record>)
    ensures !Truthy(search) ==> r == recs
    ensures Truthy(search) ==> forall x :: x in r <==> x in recs && RecordHit(x, search.value)
  {
    if Truthy(search) then
      var hit := x => RecordHit(x, search.value);
      KeepMembers(recs, hit);
      Keep(recs, hit)
    else recs
  }

  /** The announcement listing's record: the whole key as id, and the title and
      description, either of which may be undefined. */
  datatype AnnouncementEntry = AnnouncementEntry(id: string, title: Option<string>, description: Option<string>)

  /** `{ id: key, title: data.title, description: data.description }`. */
  function EntryOf(key: string, h: Hash): AnnouncementEntry {
    AnnouncementEntry(key, FieldText(h, "title"), FieldText(h, "description"))
  }

  /** `keys.map(key => ({ id: key, title: data.title, description: data.description }))`. */
  function AnnouncementEntries(keys: seq<string>, hs: Keyspace): (r: seq<AnnouncementEntry>)
    ensures |r| == |keys|
    ensures forall i :: 0 <= i < |keys| ==> r[i] == EntryOf(keys[i], HGetAll(hs, keys[i]))
  {
    if keys == [] then [] else [EntryOf(keys[0], HGetAll(hs, keys[0]))] + AnnouncementEntries(keys[1..], hs)
  }

  /** The same search over the announcement record, where an undefined value is
      searched as the text "undefined". */
  predicate AnnouncementHit(e: AnnouncementEntry, search: string) {
    || ContainsIgnoringCase(e.id, search)
    || ContainsIgnoringCase(Render(e.title), search)
    || ContainsIgnoringCase(Render(e.description), search)
  }

  function SearchAnnouncements(es: seq<AnnouncementEntry>, search: Option<string>): (r: seq<AnnouncementEntry>)
    ensures !Truthy(search) ==> r == es
    ensures Truthy(search) ==> forall x :: x in r <==> x in es && AnnouncementHit(x, search.value)
  {
    if Truthy(search) then
      var hit := x => AnnouncementHit(x, search.value);
      KeepMembers(es, hit);
      Keep(es, hit)
    else es
  }

  /** A record is found by any of its values, in whatever case the term is typed. */
  lemma HitByValue(rec: Record, f: string, search: string)
    requires f in rec && Contains(Lower(rec[f]), Lower(search))
    ensures RecordHit(rec, search)
    ensures RecordHit(rec, Lower(search))
  {
    LowerIdempotent(search);
  }

  /** The empty term is in every string, so a record with any field matches it; the
      listing does not filter on it anyway, since "" is falsy, and so also keeps the
      records without a field. */
  lemma EmptySearchKeepsAll(recs: seq<Record>)
    ensures SearchRecords(recs, Some("")) == recs
    ensures SearchRecords(recs, None) == recs
    ensures forall rec: Record :: rec != map[] ==> RecordHit(rec, "")
  {
    forall rec: Record | rec != map[] ensures RecordHit(rec, "") {
      var f :| f in rec;
      assert Lower("") == "";
      assert StartsWith(Lower(rec[f]), Lower(""));
      assert ContainsIgnoringCase(rec[f], "");
    }
  }

  /** An announcement without a title is found by searching for "undefined". */
  lemma UntitledAnnouncementMatchesUndefined(e: AnnouncementEntry)
    requires e.title.None?
    ensures AnnouncementHit(e, "undefined")
  {
    assert StartsWith(Lower("undefined"), Lower("undefined"));
  }

  /** The record of a resident or staff member whose stored id field equals the id in its
      key is exactly its stored fields. */
  lemma TaggedWithOwnId(prefix: string, id: string, h: Hash)
    requires ':' !in prefix && ':' !in id
    requires "id" in Texts(h) && Texts(h)["id"] == id
    ensures KeyId(prefix + ":" + id) == id
    ensures Tagged("id", prefix + ":" + id, h) == Texts(h)
  {
    KeyIdAfterPrefix(prefix, id);
  }

  /** The tagged records are exactly those of the listed keys. */
  lemma TagAllMembers(tag: string, keys: seq<string>, hs: Keyspace)
    ensures forall x :: x in TagAll(tag, keys, hs) <==> exists k :: k in keys && x == Tagged(tag, k, HGetAll(hs, k))
  {
    var r := TagAll(tag, keys, hs);
    forall x | x in r ensures exists k :: k in keys && x == Tagged(tag, k, HGetAll(hs, k)) {
      var i :| 0 <= i < |r| && r[i] == x;
      assert keys[i] in keys;
    }
    forall k | k in keys ensures Tagged(tag, k, HGetAll(hs, k)) in r {
      var i :| 0 <= i < |keys| && keys[i] == k;
      assert r[i] == Tagged(tag, k, HGetAll(hs, k));
    }
  }

  /** The announcement entries are exactly those of the listed keys. */
  lemma EntriesMembers(keys: seq<string>, hs: Keyspace)
    ensures forall e :: e in AnnouncementEntries(keys, hs) <==> exists k :: k in keys && e == EntryOf(k, HGetAll(hs, k))
  {
    var r := AnnouncementEntries(keys, hs);
    forall e | e in r ensures exists k :: k in keys && e == EntryOf(k, HGetAll(hs, k)) {
      var i :| 0 <= i < |r| && r[i] == e;
      assert keys[i] in keys;
    }
    forall k | k in keys ensures EntryOf(k, HGetAll(hs, k)) in r {
      var i :| 0 <= i < |keys| && keys[i] == k;
      assert r[i] == EntryOf(k, HGetAll(hs, k));
    }
  }
}
