/** The release storage: one record per release and revision, any call of which
    may fail. A ghost map remembers what every revision held when it was
    created, which is what later revisions of the same record are held against. */
module Storage {
  import opened Records

  datatype Lookup = Found(rel: Record) | NotFound | Unreadable

  class ReleaseStorage {
    var records: Store
    /** What each stored revision recorded when it was created. */
    ghost var created: map<Key, Payload>

    /** Records are filed under their own name and revision, which counts from one. */
    ghost predicate Valid()
      reads this
    {
      Filed(records)
    }

    /** No stored revision differs from what it recorded at creation. */
    ghost predicate Intact()
      reads this
    {
      Faithful(records, created)
    }

    constructor ()
      ensures records == map[] && Intact()
    {
      records, created := map[], map[];
    }

    /** Refuses an existing revision. */
    method Create(rel: Record) returns (ok: bool)
      requires Valid() && rel.revision >= 1
      modifies this
      ensures Valid()
      ensures ok ==> rel.At() !in old(records)
      ensures ok ==> records == old(records)[rel.At() := rel] && created == old(created)[rel.At() := rel.payload]
      ensures !ok ==> records == old(records) && created == old(created)
    {
      ok := *;
      if rel.At() in records {
        ok := false;
      }
      if ok {
        records := records[rel.At() := rel];
        created := created[rel.At() := rel.payload];
      }
    }

    /** Replaces an existing revision. */
    method Update(rel: Record) returns (ok: bool)
      requires Valid()
      modifies this`records
      ensures Valid()
      ensures ok ==> rel.At() in old(records) && records == old(records)[rel.At() := rel]
      ensures !ok ==> records == old(records)
    {
      ok := *;
      if rel.At() !in records {
        ok := false;
      }
      if ok {
        records := records[rel.At() := rel];
      }
    }

    /** Deleting a missing revision is no error. */
    method Delete(name: string, revision: int) returns (ok: bool)
      requires Valid()
      modifies this`records
      ensures Valid()
      ensures records == if ok then old(records) - {Key(name, revision)} else old(records)
    {
      ok := *;
      if ok {
        records := records - {Key(name, revision)};
      }
    }

    method Get(name: string, revision: int) returns (found: Lookup)
      requires Valid()
      ensures found.Found? ==> Key(name, revision) in records && found.rel == records[Key(name, revision)]
      ensures found.NotFound? ==> Key(name, revision) !in records
    {
      var readable: bool := *;
      if !readable {
        return Unreadable;
      }
      found := if Key(name, revision) in records then Found(records[Key(name, revision)]) else NotFound;
    }

    /** All revisions of a release, ascending. */
    method History(name: string) returns (ok: bool, history: seq<Record>)
      requires Valid()
      ensures ok ==> IsHistory(records, name, history)
    {
      ok := *;
      history := [];
      var left := set k | k in records && k.name == name;
      while left != {}
        invariant left <= records.Keys && Ascending(history)
        invariant forall k :: k in left ==> k.name == name
        invariant forall r :: r in history ==>
          r.name == name && r.At() in records && records[r.At()] == r && r.At() !in left
        invariant forall k {:trigger records[k]} :: k in records && k.name == name && k !in left ==>
          records[k] in history
        decreases |left|
      {
        var k :| k in left;
        history := Insert(records[k], history);
        left := left - {k};
      }
    }

    method Last(name: string) returns (found: Lookup)
      requires Valid()
      ensures found.Found? ==>
          found.rel.name == name && Newest(records, found.rel.At())
          && records[found.rel.At()] == found.rel
      ensures found.NotFound? ==> forall k :: k in records ==> k.name != name
    {
      var ok, history := History(name);
      if !ok {
        return Unreadable;
      }
      if |history| == 0 {
        return NotFound;
      }
      found := Found(history[|history| - 1]);
    }
  }

  /** Files a record by revision. */
  function Insert(r: Record, h: seq<Record>): (s: seq<Record>)
    requires Ascending(h) && forall x :: x in h ==> x.revision != r.revision
    ensures Ascending(s) && forall x :: x in s <==> x == r || x in h
  {
    if h == [] || r.revision < h[0].revision then [r] + h
    else
      var rest := Insert(r, h[1..]);
      assert forall x :: x in rest ==> h[0].revision < x.revision by {
        assert forall x :: x in h[1..] ==> h[0].revision < x.revision;
      }
      [h[0]] + rest
  }
}
