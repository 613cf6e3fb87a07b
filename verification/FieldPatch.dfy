/** The structural comparison read as a patch: applied in order it turns one
    value into the other, and undone it leads back. */
module FieldPatch {
  import opened Basics
  import opened Trees
  import opened StringOrder
  import opened FieldDiff

  /** The value under a key, a missing one being Null. */
  function Get(m: map<string, Tree>, k: string): Tree {
    if k in m then m[k] else Null
  }

  /** Writing Null removes the key, as the change lists mean it. */
  function Put(m: map<string, Tree>, k: string, v: Tree): map<string, Tree> {
    if v == Null then m - {k} else m[k := v]
  }

  /** Strict: the value found at the path must be the one recorded. */
  function PatchOne(t: Tree, path: Path, was: Tree, now: Tree): Option<Tree>
    decreases |path|
  {
    if path == [] then
      if t == was then Some(now) else None
    else if t.Map? && path[0].Key? then
      match PatchOne(Get(t.fields, path[0].name), path[1..], was, now)
      case None => None
      case Some(v) => Some(Map(Put(t.fields, path[0].name, v)))
    else if t.List? && path[0].Index? && path[0].at < |t.items| then
      match PatchOne(t.items[path[0].at], path[1..], was, now)
      case None => None
      case Some(v) => Some(List(t.items[path[0].at := v]))
    else None
  }

  function Patch(t: Tree, cs: seq<Change>): Option<Tree> {
    if cs == [] then Some(t)
    else
      match Patch(t, cs[..|cs| - 1])
      case None => None
      case Some(u) =>
        var c := cs[|cs| - 1];
        PatchOne(u, c.path, c.was, c.now)
  }

  function Then(t: Option<Tree>, cs: seq<Change>): Option<Tree> {
    match t
    case None => None
    case Some(u) => Patch(u, cs)
  }

  lemma {:induction false} PatchConcat(t: Tree, cs: seq<Change>, ds: seq<Change>)
    ensures Patch(t, cs + ds) == Then(Patch(t, cs), ds)
    decreases |ds|
  {
    if ds == [] {
      assert cs + ds == cs;
    } else {
      var n := |ds| - 1;
      assert (cs + ds)[..|cs + ds| - 1] == cs + ds[..n];
      assert (cs + ds)[|cs + ds| - 1] == ds[n];
      PatchConcat(t, cs, ds[..n]);
    }
  }

  function MapWith(m: map<string, Tree>, k: string, v: Option<Tree>): Option<Tree> {
    match v
    case None => None
    case Some(x) => Some(Map(Put(m, k, x)))
  }

  /** Changes under one key act on the value of that key alone. */
  lemma {:induction false} PatchUnderKey(m: map<string, Tree>, k: string, cs: seq<Change>)
    requires cs != []
    ensures Patch(Map(m), Under(Key(k), cs)) == MapWith(m, k, Patch(Get(m, k), cs))
    decreases |cs|
  {
    var n := |cs| - 1;
    var us := Under(Key(k), cs);
    assert us[..n] == Under(Key(k), cs[..n]);
    assert us[n].path == [Key(k)] + cs[n].path && us[n].path[1..] == cs[n].path;
    if n == 0 {
      assert us[..n] == [] && cs[..n] == [];
    } else {
      PatchUnderKey(m, k, cs[..n]);
      var inner := Patch(Get(m, k), cs[..n]);
      if inner.Some? {
        PutTwice(m, k, inner.value);
      }
    }
  }

  lemma PutTwice(m: map<string, Tree>, k: string, v: Tree)
    ensures Get(Put(m, k, v), k) == v
    ensures forall w :: Put(Put(m, k, v), k, w) == Put(m, k, w)
  {
  }

  function ListWith(items: seq<Tree>, i: nat, v: Option<Tree>): Option<Tree>
    requires i < |items|
  {
    match v
    case None => None
    case Some(x) => Some(List(items[i := x]))
  }

  lemma {:induction false} PatchUnderIndex(items: seq<Tree>, i: nat, cs: seq<Change>)
    requires i < |items|
    ensures Patch(List(items), Under(Index(i), cs)) == ListWith(items, i, Patch(items[i], cs))
    decreases |cs|
  {
    var us := Under(Index(i), cs);
    if cs == [] {
      assert us == [] && items[i := items[i]] == items;
    } else {
      var n := |cs| - 1;
      assert us[..n] == Under(Index(i), cs[..n]);
      assert us[n].path == [Index(i)] + cs[n].path && us[n].path[1..] == cs[n].path;
      PatchUnderIndex(items, i, cs[..n]);
      var inner := Patch(items[i], cs[..n]);
      var outer := Patch(items[i], cs);
      if inner.Some? && outer.Some? {
        assert items[i := inner.value][i := outer.value] == items[i := outer.value];
      }
    }
  }

  // ----- where the patch arrives -----

  /** A key that is null on the new side only cannot be told from a missing one. */
  predicate Expressible(a: Tree, b: Tree, k: string)
    requires a.Map? && b.Map? && k in b.fields
  {
    b.fields[k] != Null || (k in a.fields && a.fields[k] == Null)
  }

  function Arrival(a: Tree, b: Tree): Tree
    decreases b
  {
    if a == b then b
    else if a.Map? && b.Map? then
      Map(map k | k in b.fields && Expressible(a, b, k) :: if k in a.fields
          then Arrival(a.fields[k], b.fields[k]) else b.fields[k])
    else if a.List? && b.List? && |a.items| == |b.items| then
      List(seq(|b.items|, i requires 0 <= i < |b.items| => assert b.items[i] in b.items; Arrival(a.items[i],
          b.items[i])))
    else b
  }

  /** No key is null in b unless it already is in a, wherever maps are compared. */
  predicate NullsKept(a: Tree, b: Tree)
    decreases b
  {
    if a == b then true
    else if a.Map? && b.Map? then
      forall k :: k in b.fields ==> Expressible(a, b, k) && (k in a.fields ==> NullsKept(a.fields[k], b.fields[k]))
    else if a.List? && b.List? && |a.items| == |b.items| then
      forall i :: 0 <= i < |b.items| ==> b.items[i] in b.items && NullsKept(a.items[i], b.items[i])
    else true
  }

  predicate NullFree(t: Tree) {
    match t
    case Null => false
    case List(items) => forall i :: 0 <= i < |items| ==> NullFree(items[i])
    case Map(fields) => forall k :: k in fields ==> NullFree(fields[k])
    case _ => true
  }

  lemma {:induction false} NullFreeKept(a: Tree, b: Tree)
    requires NullFree(b)
    ensures NullsKept(a, b)
    decreases b
  {
    if a.Map? && b.Map? {
      forall k | k in b.fields && k in a.fields ensures NullsKept(a.fields[k], b.fields[k]) {
        NullFreeKept(a.fields[k], b.fields[k]);
      }
    }
    if a.List? && b.List? && |a.items| == |b.items| {
      forall i | 0 <= i < |b.items| ensures b.items[i] in b.items && NullsKept(a.items[i], b.items[i]) {
        assert b.items[i] in b.items;
        NullFreeKept(a.items[i], b.items[i]);
      }
    }
  }

  lemma {:induction false} ArrivesIffNullsKept(a: Tree, b: Tree)
    ensures Arrival(a, b) == b <==> NullsKept(a, b)
    decreases b
  {
    if a != b && a.Map? && b.Map? {
      var m := Arrival(a, b).fields;
      forall k | k in b.fields && k in a.fields
          ensures Arrival(a.fields[k], b.fields[k]) == b.fields[k] <==> NullsKept(a.fields[k], b.fields[k]) {
        ArrivesIffNullsKept(a.fields[k], b.fields[k]);
      }
      assert forall k :: k in b.fields ==> (k in m <==> Expressible(a, b, k));
      if NullsKept(a, b) {
        assert m == b.fields;
      } else {
        var k :| k in b.fields && !(Expressible(a, b, k) && (k in a.fields ==> NullsKept(a.fields[k], b.fields[k])));
        assert !(k in m && m[k] == b.fields[k]);
      }
    } else if a != b && a.List? && b.List? && |a.items| == |b.items| {
      forall i | 0 <= i < |b.items| ensures b.items[i] in b.items
          && (Arrival(a.items[i], b.items[i]) == b.items[i] <==> NullsKept(a.items[i], b.items[i])) {
        assert b.items[i] in b.items;
        ArrivesIffNullsKept(a.items[i], b.items[i]);
      }
      var items := Arrival(a, b).items;
      if NullsKept(a, b) {
        assert items == b.items;
      } else {
        var i :| 0 <= i < |b.items| && !NullsKept(a.items[i], b.items[i]);
        assert items[i] != b.items[i];
      }
    }
  }

  /** Once the keys in ks are patched: those are as b has them, the others still as a has them. */
  ghost predicate Halfway(a: Tree, b: Tree, ks: seq<string>, m: map<string, Tree>)
    requires a.Map? && b.Map?
  {
    && (forall k :: k !in ks ==> (k in m <==> k in a.fields) && (k in m ==> m[k] == a.fields[k]))
    && (forall k :: k in ks ==> (k in m <==> k in b.fields && Expressible(a, b, k)))
    && (forall k :: k in ks && k in m ==> m[k] == EntryArrival(a, b, k))
  }

  /** Main result: every change finds the value it records, and the last one
      leaves the new value, but for keys that only the new side has as null. */
  lemma {:induction false} PatchArrives(a: Tree, b: Tree)
    ensures Patch(a, Diff(a, b)) == Some(Arrival(a, b))
    decreases a, 1, 0
  {
    if a == b {
    } else if a.Map? && b.Map? {
      var ks := SortedKeys(a.fields.Keys + b.fields.Keys);
      KeysListed(a.fields.Keys + b.fields.Keys);
      var m := MapPatchArrives(a, b, ks);
      assert m == Arrival(a, b).fields by { HalfwayDone(a, b, ks, m); }
    } else if a.List? && b.List? && |a.items| == |b.items| {
      var items := ListPatchArrives(a, b, |a.items|);
      assert items == Arrival(a, b).items;
    } else {
      assert [Change([], a, b)][..0] == [];
    }
  }

  lemma HalfwayDone(a: Tree, b: Tree, ks: seq<string>, m: map<string, Tree>)
    requires a.Map? && b.Map? && a != b && Halfway(a, b, ks, m)
    requires forall k :: k in ks <==> k in a.fields.Keys + b.fields.Keys
    ensures m == Arrival(a, b).fields
  {
    var n := Arrival(a, b).fields;
    forall k: string ensures k in m <==> k in n {
      if k !in ks { assert k !in a.fields.Keys + b.fields.Keys; }
    }
    forall k | k in m ensures m[k] == n[k] {
      assert k in n;
    }
  }

  lemma HalfwayStart(a: Tree, b: Tree)
    requires a.Map? && b.Map?
    ensures Halfway(a, b, [], a.fields)
  {
  }

  lemma UnderNothing(s: Segment)
    ensures Under(s, []) == []
  {
  }

  lemma PatchNothing(t: Tree)
    ensures Patch(t, []) == Some(t)
  {
  }

  lemma {:induction false} MapPatchArrives(a: Tree, b: Tree, ks: seq<string>) returns (m: map<string, Tree>)
    requires a.Map? && b.Map? && Distinct(ks)
    ensures Patch(a, MapDiff(a, b, ks)) == Some(Map(m)) && Halfway(a, b, ks, m)
    decreases a, 0, |ks|
  {
    hide Patch, PatchOne, Arrival, Diff, Under, Halfway, EntryDiff, EntryArrival;
    if ks == [] {
      HalfwayStart(a, b);
      PatchNothing(a);
      return a.fields;
    }
    var k, rest := ks[|ks| - 1], ks[..|ks| - 1];
    var m0 := MapPatchArrives(a, b, rest);
    PatchConcat(a, MapDiff(a, b, rest), Under(Key(k), EntryDiff(a, b, k)));
    assert ks == rest + [k] && k !in rest;
    if k in a.fields && k in b.fields { PatchArrives(a.fields[k], b.fields[k]); }
    EntryArrives(a, b, k);
    EntryWaits(a, b, rest, k, m0);
    if EntryDiff(a, b, k) == [] {
      UnderNothing(Key(k));
      PatchNothing(Map(m0));
      EntrySilent(a, b, k);
      m := m0;
    } else {
      PatchUnderKey(m0, k, EntryDiff(a, b, k));
      m := Put(m0, k, EntryArrival(a, b, k));
    }
    EntryPlaced(a, b, rest, k, m0, m);
  }

  /** A key not yet patched still holds what a has for it. */
  lemma EntryWaits(a: Tree, b: Tree, ks: seq<string>, k: string, m: map<string, Tree>)
    requires a.Map? && b.Map? && Halfway(a, b, ks, m) && k !in ks
    ensures Get(m, k) == Get(a.fields, k)
  {
  }

  /** What ends up under a key, Null standing for nothing. */
  function EntryArrival(a: Tree, b: Tree, k: string): Tree
    requires a.Map? && b.Map?
  {
    if k !in b.fields then Null else if k in a.fields then Arrival(a.fields[k], b.fields[k]) else b.fields[k]
  }

  lemma EntryArrives(a: Tree, b: Tree, k: string)
    requires a.Map? && b.Map?
    requires k in a.fields && k in b.fields ==>
        Patch(a.fields[k], Diff(a.fields[k], b.fields[k])) == Some(Arrival(a.fields[k], b.fields[k]))
    ensures Patch(Get(a.fields, k), EntryDiff(a, b, k)) == Some(EntryArrival(a, b, k))
  {
    if !(k in a.fields && k in b.fields) {
      var was, now := Get(a.fields, k), Get(b.fields, k);
      assert [Change([], was, now)][..0] == [];
    }
  }

  lemma EntrySilent(a: Tree, b: Tree, k: string)
    requires a.Map? && b.Map? && EntryDiff(a, b, k) == []
    ensures k in a.fields <==> k in b.fields
    ensures k in a.fields ==> a.fields[k] == b.fields[k]
  {
    if k in a.fields && k in b.fields { SilentIffEqual(a.fields[k], b.fields[k]); }
  }

  lemma ArrivalIsNull(a: Tree, b: Tree)
    ensures Arrival(a, b) == Null <==> b == Null
  {
  }

  lemma EntryPlaced(a: Tree, b: Tree, rest: seq<string>, k: string, m0: map<string, Tree>, m: map<string, Tree>)
    requires a.Map? && b.Map? && k !in rest && Halfway(a, b, rest, m0)
    requires EntryDiff(a, b, k) == [] ==>
        m == m0 && (k in a.fields <==> k in b.fields) && (k in a.fields ==> a.fields[k] == b.fields[k])
    requires EntryDiff(a, b, k) != [] ==> m == Put(m0, k, EntryArrival(a, b, k))
    ensures Halfway(a, b, rest + [k], m)
  {
    hide Arrival, EntryDiff;
    if k in a.fields && k in b.fields {
      ArrivalIsNull(a.fields[k], b.fields[k]);
      SilentIsArrived(a.fields[k], b.fields[k]);
      DiffOfEqual(a, b, k);
    }
  }

  lemma SilentIsArrived(a: Tree, b: Tree)
    ensures a == b ==> Arrival(a, b) == b
  {
  }

  lemma DiffOfEqual(a: Tree, b: Tree, k: string)
    requires a.Map? && b.Map? && k in a.fields && k in b.fields
    ensures EntryDiff(a, b, k) != [] ==> a.fields[k] != b.fields[k]
  {
    SilentIffEqual(a.fields[k], b.fields[k]);
  }

  lemma {:induction false} ListPatchArrives(a: Tree, b: Tree, n: nat) returns (items: seq<Tree>)
    requires a.List? && b.List? && n <= |a.items| == |b.items|
    ensures Patch(a, ListDiff(a, b, n)) == Some(List(items)) && |items| == |a.items|
    ensures forall i :: 0 <= i < n ==> items[i] == Arrival(a.items[i], b.items[i])
    ensures forall i :: n <= i < |items| ==> items[i] == a.items[i]
    decreases a, 0, n
  {
    hide Patch, PatchOne, Arrival, Diff, Under;
    if n == 0 {
      PatchNothing(a);
      return a.items;
    }
    var items0 := ListPatchArrives(a, b, n - 1);
    var i := n - 1;
    assert a.items[i] in a.items;
    PatchArrives(a.items[i], b.items[i]);
    PatchConcat(a, ListDiff(a, b, i), Under(Index(i), Diff(a.items[i], b.items[i])));
    PatchUnderIndex(items0, i, Diff(a.items[i], b.items[i]));
    items := items0[i := Arrival(a.items[i], b.items[i])];
  }

  /** Main result: the changes are a patch exactly when the new value introduces no null under a key. */
  lemma PatchIffNullsKept(a: Tree, b: Tree)
    ensures Patch(a, Diff(a, b)) == Some(b) <==> NullsKept(a, b)
    ensures NullFree(b) ==> Patch(a, Diff(a, b)) == Some(b)
  {
    PatchArrives(a, b);
    ArrivesIffNullsKept(a, b);
    if NullFree(b) { NullFreeKept(a, b); }
  }

  lemma AddedNullIsLost()
    ensures var a, b := Map(map[]), Map(map["paused" := Null]);
            Diff(a, b) != [] && Patch(a, Diff(a, b)) == Some(a) && a != b
  {
    var a, b := Map(map[]), Map(map["paused" := Null]);
    assert "paused" in b.fields;
    SilentIffEqual(a, b);
    PatchArrives(a, b);
    assert Arrival(a, b).fields == map[];
  }

  // ----- reading the changes backwards -----

  function Swapped(cs: seq<Change>): seq<Change> {
    seq(|cs|, i requires 0 <= i < |cs| => Change(cs[i].path, cs[i].now, cs[i].was))
  }

  lemma SwappedParts(cs: seq<Change>, s: Segment, ds: seq<Change>)
    ensures Swapped(cs + Under(s, ds)) == Swapped(cs) + Under(s, Swapped(ds))
  {
  }

  /** Comparing the other way round gives the same paths with the sides swapped. */
  lemma {:induction false} DiffSwaps(a: Tree, b: Tree)
    ensures Diff(b, a) == Swapped(Diff(a, b))
    decreases a, 1, 0
  {
    if a != b && a.Map? && b.Map? {
      assert a.fields.Keys + b.fields.Keys == b.fields.Keys + a.fields.Keys;
      MapDiffSwaps(a, b, SortedKeys(a.fields.Keys + b.fields.Keys));
    } else if a != b && a.List? && b.List? && |a.items| == |b.items| {
      ListDiffSwaps(a, b, |a.items|);
    }
  }

  lemma {:induction false} MapDiffSwaps(a: Tree, b: Tree, ks: seq<string>)
    requires a.Map? && b.Map?
    ensures MapDiff(b, a, ks) == Swapped(MapDiff(a, b, ks))
    decreases a, 0, |ks|
  {
    if ks != [] {
      var k, rest := ks[|ks| - 1], ks[..|ks| - 1];
      MapDiffSwaps(a, b, rest);
      if k in a.fields && k in b.fields { DiffSwaps(a.fields[k], b.fields[k]); }
      SwappedParts(MapDiff(a, b, rest), Key(k), EntryDiff(a, b, k));
      assert EntryDiff(b, a, k) == Swapped(EntryDiff(a, b, k));
    }
  }

  lemma {:induction false} ListDiffSwaps(a: Tree, b: Tree, n: nat)
    requires a.List? && b.List? && n <= |a.items| == |b.items|
    ensures ListDiff(b, a, n) == Swapped(ListDiff(a, b, n))
    decreases a, 0, n
  {
    if n > 0 {
      assert a.items[n - 1] in a.items;
      ListDiffSwaps(a, b, n - 1);
      DiffSwaps(a.items[n - 1], b.items[n - 1]);
      SwappedParts(ListDiff(a, b, n - 1), Index(n - 1), Diff(a.items[n - 1], b.items[n - 1]));
    }
  }

  /** Main result: with the sides swapped the same changes lead from the new value back to the old. */
  lemma PatchBackIffNullsKept(a: Tree, b: Tree)
    ensures Patch(b, Swapped(Diff(a, b))) == Some(a) <==> NullsKept(b, a)
    ensures NullFree(a) ==> Patch(b, Swapped(Diff(a, b))) == Some(a)
  {
    DiffSwaps(a, b);
    PatchIffNullsKept(b, a);
  }

  // ----- no path lies inside another -----

  predicate Nested(p: Path, q: Path) {
    p <= q || q <= p
  }

  ghost predicate Apart(cs: seq<Change>) {
    forall i, j :: 0 <= i < j < |cs| ==> !Nested(cs[i].path, cs[j].path)
  }

  lemma ApartUnder(s: Segment, cs: seq<Change>)
    requires Apart(cs)
    ensures Apart(Under(s, cs))
  {
    var us := Under(s, cs);
    forall i, j | 0 <= i < j < |us| ensures !Nested(us[i].path, us[j].path) {
      StripSegment(s, cs[i].path, cs[j].path);
    }
  }

  lemma StripSegment(s: Segment, p: Path, q: Path)
    ensures Nested([s] + p, [s] + q) <==> Nested(p, q)
  {
    assert ([s] + p)[1..] == p && ([s] + q)[1..] == q;
    if p <= q { assert [s] + p <= [s] + q; }
    if q <= p { assert [s] + q <= [s] + p; }
    if [s] + p <= [s] + q {
      forall i | 0 <= i < |p| ensures p[i] == q[i] { assert ([s] + p)[i + 1] == ([s] + q)[i + 1]; }
    }
    if [s] + q <= [s] + p {
      forall i | 0 <= i < |q| ensures p[i] == q[i] { assert ([s] + p)[i + 1] == ([s] + q)[i + 1]; }
    }
  }

  ghost predicate Starts(cs: seq<Change>, heads: set<Segment>) {
    forall i :: 0 <= i < |cs| ==> cs[i].path != [] && cs[i].path[0] in heads
  }

  lemma ApartTogether(cs: seq<Change>, heads: set<Segment>, s: Segment, ds: seq<Change>)
    requires Apart(cs) && Apart(ds) && Starts(cs, heads) && s !in heads
    ensures Apart(cs + Under(s, ds)) && Starts(cs + Under(s, ds), heads + {s})
  {
    ApartUnder(s, ds);
    var us := Under(s, ds);
    var all := cs + us;
    forall i, j | 0 <= i < j < |all| ensures !Nested(all[i].path, all[j].path) {
      if i < |cs| <= j {
        assert all[i].path[0] in heads && all[j].path[0] == s;
      } else if j >= |cs| {
        assert all[i] == us[i - |cs|] && all[j] == us[j - |cs|];
      }
    }
  }

  /** Main result: no change touches a part of what another one touches. */
  lemma {:induction false} PathsApart(a: Tree, b: Tree)
    ensures Apart(Diff(a, b))
    decreases a, 1, 0
  {
    if a != b && a.Map? && b.Map? {
      KeysListed(a.fields.Keys + b.fields.Keys);
      MapPathsApart(a, b, SortedKeys(a.fields.Keys + b.fields.Keys));
    } else if a != b && a.List? && b.List? && |a.items| == |b.items| {
      ListPathsApart(a, b, |a.items|);
    }
  }

  ghost function KeySegments(ks: seq<string>): set<Segment> {
    set k | k in ks :: Key(k)
  }

  lemma {:induction false} MapPathsApart(a: Tree, b: Tree, ks: seq<string>)
    requires a.Map? && b.Map? && Distinct(ks)
    ensures Apart(MapDiff(a, b, ks)) && Starts(MapDiff(a, b, ks), KeySegments(ks))
    decreases a, 0, |ks|
  {
    if ks != [] {
      var k, rest := ks[|ks| - 1], ks[..|ks| - 1];
      assert ks == rest + [k];
      MapPathsApart(a, b, rest);
      if k in a.fields && k in b.fields { PathsApart(a.fields[k], b.fields[k]); }
      assert k !in rest;
      ApartTogether(MapDiff(a, b, rest), KeySegments(rest), Key(k), EntryDiff(a, b, k));
      assert KeySegments(ks) == KeySegments(rest) + {Key(k)};
    }
  }

  ghost function IndexSegments(n: nat): set<Segment> {
    set i | 0 <= i < n :: Index(i)
  }

  lemma {:induction false} ListPathsApart(a: Tree, b: Tree, n: nat)
    requires a.List? && b.List? && n <= |a.items| == |b.items|
    ensures Apart(ListDiff(a, b, n)) && Starts(ListDiff(a, b, n), IndexSegments(n))
    decreases a, 0, n
  {
    if n > 0 {
      assert a.items[n - 1] in a.items;
      ListPathsApart(a, b, n - 1);
      PathsApart(a.items[n - 1], b.items[n - 1]);
      ApartTogether(ListDiff(a, b, n - 1), IndexSegments(n - 1), Index(n - 1), Diff(a.items[n - 1], b.items[n - 1]));
      assert IndexSegments(n) == IndexSegments(n - 1) + {Index(n - 1)};
    }
  }
}
