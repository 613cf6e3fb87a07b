/** Factoring the values most packages share into a base layer. Paths are lists
    of keys, taken to be free of separators. */
module Scan {
  import opened Basics
  import opened Trees

  type Path = seq<string>

  /** The value a path leads to, when that is no map. */
  function LeafAt(t: Tree, p: Path): Option<Tree>
    decreases |p|
  {
    if p == [] then (if t.Map? then None else Some(t))
    else if t.Map? && p[0] in t.fields then LeafAt(t.fields[p[0]], p[1..])
    else None
  }

  datatype Leaf = Leaf(path: Path, value: Tree)

  predicate Has(t: Tree, e: Leaf) {
    LeafAt(t, e.path) == Some(e.value)
  }

  lemma {:induction false} LeavesAreApart(t: Tree, p: Path, q: Path)
    requires LeafAt(t, p).Some? && LeafAt(t, q).Some? && p <= q
    ensures p == q
    decreases |p|
  {
    if p == [] {
    } else {
      LeavesAreApart(t.fields[p[0]], p[1..], q[1..]);
      assert p == [p[0]] + p[1..] && q == [q[0]] + q[1..];
    }
  }

  // ----- flattening -----

  /** The leaves found so far below prefix, for the keys already visited. */
  ghost predicate Flat(prefix: Path, t: Tree, keys: set<string>, flat: map<Path, Tree>)
    requires t.Map?
  {
    forall p {:trigger p in flat} ::
      && (p in flat <==> prefix < p && p[|prefix|] in keys && LeafAt(t, p[|prefix|..]).Some?)
      && (p in flat ==> LeafAt(t, p[|prefix|..]) == Some(flat[p]))
  }

  method FlattenValues(prefix: Path, t: Tree) returns (flat: map<Path, Tree>)
    requires t.Map?
    ensures Flat(prefix, t, t.fields.Keys, flat)
    decreases t
  {
    hide Flat;
    var left := t.fields.Keys;
    flat := map[];
    FlatNothing(prefix, t);
    while left != {}
      invariant left <= t.fields.Keys && Flat(prefix, t, t.fields.Keys - left, flat)
      decreases |left|
    {
      var k :| k in left;
      ghost var seen := t.fields.Keys - left;
      if t.fields[k].Map? {
        var nested := FlattenValues(prefix + [k], t.fields[k]);
        FlatBelow(prefix, t, seen, k, flat, nested);
        flat := flat + nested;
      } else {
        FlatHere(prefix, t, seen, k, flat);
        flat := flat[prefix + [k] := t.fields[k]];
      }
      left := left - {k};
      assert t.fields.Keys - left == seen + {k};
    }
    assert t.fields.Keys - {} == t.fields.Keys;
  }

  lemma FlatNothing(prefix: Path, t: Tree)
    requires t.Map?
    ensures Flat(prefix, t, t.fields.Keys - t.fields.Keys, map[])
  {
  }

  lemma SplitPath(prefix: Path, k: string, p: Path)
    requires prefix < p && p[|prefix|] == k
    ensures prefix + [k] <= p && p[|prefix|..][0] == k && p[|prefix|..][1..] == p[|prefix + [k]|..]
  {
  }

  lemma FlatHere(prefix: Path, t: Tree, seen: set<string>, k: string, flat: map<Path, Tree>)
    requires t.Map? && k in t.fields && !t.fields[k].Map? && k !in seen && Flat(prefix, t, seen, flat)
    ensures Flat(prefix, t, seen + {k}, flat[prefix + [k] := t.fields[k]])
  {
    var here := prefix + [k];
    assert here[|prefix|..] == [k];
    forall p | prefix < p && p[|prefix|] == k
        ensures LeafAt(t, p[|prefix|..]) == if p == here then Some(t.fields[k]) else None {
      SplitPath(prefix, k, p);
      if |p| == |here| { assert p == here; }
    }
  }

  lemma FlatBelow(prefix: Path, t: Tree, seen: set<string>, k: string, flat: map<Path, Tree>, nested: map<Path, Tree>)
    requires t.Map? && k in t.fields && t.fields[k].Map? && k !in seen && Flat(prefix, t, seen, flat)
    requires Flat(prefix + [k], t.fields[k], t.fields[k].fields.Keys, nested)
    ensures Flat(prefix, t, seen + {k}, flat + nested)
  {
    var here := prefix + [k];
    forall p | prefix < p && p[|prefix|] == k
      ensures p in nested <==> LeafAt(t, p[|prefix|..]).Some?
      ensures p in nested ==> LeafAt(t, p[|prefix|..]) == Some(nested[p])
    {
      SplitPath(prefix, k, p);
      assert LeafAt(t, p[|prefix|..]) == LeafAt(t.fields[k], p[|here|..]);
      if p != here { assert here < p && p[|here|..][0] == p[|here|]; }
    }
    forall p | p in nested ensures prefix < p && p[|prefix|] == k {
      assert here < p && p[|prefix|] == here[|prefix|];
    }
  }

  // ----- counting -----

  function Count(pkgs: seq<Tree>, e: Leaf): nat {
    if pkgs == [] then 0 else Count(pkgs[..|pkgs| - 1], e) + if Has(pkgs[|pkgs| - 1], e) then 1 else 0
  }

  /** In more packages than the threshold, or in all of them. */
  predicate Common(pkgs: seq<Tree>, threshold: nat, e: Leaf) {
    Count(pkgs, e) > 0 && !(Count(pkgs, e) <= threshold && Count(pkgs, e) < |pkgs|)
  }

  lemma {:induction false} MajoritiesMeet(pkgs: seq<Tree>, e: Leaf, f: Leaf)
    requires Count(pkgs, e) + Count(pkgs, f) > |pkgs|
    ensures exists i :: 0 <= i < |pkgs| && Has(pkgs[i], e) && Has(pkgs[i], f)
    decreases |pkgs|
  {
    if pkgs != [] {
      var k := |pkgs| - 1;
      if !(Has(pkgs[k], e) && Has(pkgs[k], f)) {
        MajoritiesMeet(pkgs[..k], e, f);
        var i :| 0 <= i < k && Has(pkgs[..k][i], e) && Has(pkgs[..k][i], f);
        assert pkgs[i] == pkgs[..k][i];
      }
    }
  }

  lemma {:induction false} CountedSomewhere(pkgs: seq<Tree>, e: Leaf)
    requires Count(pkgs, e) > 0
    ensures exists i :: 0 <= i < |pkgs| && Has(pkgs[i], e)
    decreases |pkgs|
  {
    var k := |pkgs| - 1;
    if !Has(pkgs[k], e) {
      CountedSomewhere(pkgs[..k], e);
      var i :| 0 <= i < k && Has(pkgs[..k][i], e);
      assert pkgs[i] == pkgs[..k][i];
    }
  }

  /** Main result: two leaves that most packages share never get in each other's way. */
  lemma CommonLeavesAgree(pkgs: seq<Tree>, threshold: nat, e: Leaf, f: Leaf)
    requires 2 * threshold >= |pkgs| - 1 && |pkgs| > 1
    requires Common(pkgs, threshold, e) && Common(pkgs, threshold, f) && e.path <= f.path
    ensures e == f
  {
    MajoritiesMeet(pkgs, e, f);
    var i :| 0 <= i < |pkgs| && Has(pkgs[i], e) && Has(pkgs[i], f);
    LeavesAreApart(pkgs[i], e.path, f.path);
  }

  /** How often each leaf occurs in the packages, and in part of one more. */
  ghost predicate Tallied(pkgs: seq<Tree>, flat: map<Path, Tree>, seen: set<Path>, frequency: map<Leaf, nat>) {
    forall e {:trigger e in frequency} ::
      var n := Count(pkgs, e) + if e.path in seen && e.path in flat && flat[e.path] == e.value then 1 else 0;
      (e in frequency <==> n > 0) && (e in frequency ==> frequency[e] == n)
  }

  lemma TallyNext(pkgs: seq<Tree>, flat: map<Path, Tree>, seen: set<Path>, frequency: map<Leaf, nat>, p: Path)
    requires Tallied(pkgs, flat, seen, frequency) && p in flat && p !in seen
    ensures var e := Leaf(p, flat[p]);
            Tallied(pkgs, flat, seen + {p}, frequency[e := (if e in frequency then frequency[e] else 0) + 1])
  {
  }

  lemma TallyDone(pkgs: seq<Tree>, i: nat, flat: map<Path, Tree>, frequency: map<Leaf, nat>)
    requires i < |pkgs| && pkgs[i].Map? && Flat([], pkgs[i], pkgs[i].fields.Keys, flat)
    requires Tallied(pkgs[..i], flat, flat.Keys, frequency)
    ensures Tallied(pkgs[..i + 1], map[], {}, frequency)
  {
    forall e: Leaf ensures Has(pkgs[i], e) <==> e.path in flat && flat[e.path] == e.value {
      FlatIsLeaves(pkgs[i], flat, e.path);
    }
    forall e: Leaf ensures Count(pkgs[..i + 1], e) == Count(pkgs[..i], e) + if Has(pkgs[i], e) then 1 else 0 {
      assert pkgs[..i + 1][..i] == pkgs[..i];
    }
  }

  lemma FlatIsLeaves(t: Tree, flat: map<Path, Tree>, p: Path)
    requires t.Map? && Flat([], t, t.fields.Keys, flat)
    ensures p in flat <==> LeafAt(t, p).Some?
    ensures p in flat ==> LeafAt(t, p) == Some(flat[p])
  {
    assert p[0..] == p;
    assert p in flat <==> [] < p && p[0] in t.fields.Keys && LeafAt(t, p[0..]).Some?;
  }

  lemma TallyStart(pkgs: seq<Tree>, flat: map<Path, Tree>, frequency: map<Leaf, nat>)
    requires Tallied(pkgs, map[], {}, frequency)
    ensures Tallied(pkgs, flat, {}, frequency)
  {
  }

  method CountLeaves(pkgs: seq<Tree>) returns (frequency: map<Leaf, nat>)
    requires forall i :: 0 <= i < |pkgs| ==> pkgs[i].Map?
    ensures Tallied(pkgs, map[], {}, frequency)
  {
    hide Tallied, Flat;
    frequency := map[];
    NothingTallied();
    assert pkgs[..0] == [];
    for i := 0 to |pkgs|
      invariant Tallied(pkgs[..i], map[], {}, frequency)
    {
      var flat := FlattenValues([], pkgs[i]);
      TallyStart(pkgs[..i], flat, frequency);
      var left := flat.Keys;
      assert flat.Keys - left == {};
      while left != {}
        invariant left <= flat.Keys && Tallied(pkgs[..i], flat, flat.Keys - left, frequency)
        decreases |left|
      {
        var p :| p in left;
        ghost var seen := flat.Keys - left;
        var e := Leaf(p, flat[p]);
        TallyNext(pkgs[..i], flat, seen, frequency, p);
        frequency := frequency[e := (if e in frequency then frequency[e] else 0) + 1];
        left := left - {p};
        assert flat.Keys - left == seen + {p};
      }
      assert flat.Keys - {} == flat.Keys;
      TallyDone(pkgs, i, flat, frequency);
    }
    assert pkgs[..|pkgs|] == pkgs;
  }

  lemma NothingTallied()
    ensures Tallied([], map[], {}, map[])
  {
  }

  // ----- building the common tree -----

  /** Writes a value at a path, making maps on the way and replacing what is no map. */
  function SetNested(t: Tree, path: Path, v: Tree): Tree
    requires t.Map? && path != []
    decreases |path|
  {
    if |path| == 1 then Map(t.fields[path[0] := v])
    else
      var child := if path[0] in t.fields && t.fields[path[0]].Map? then t.fields[path[0]] else Map(map[]);
      Map(t.fields[path[0] := SetNested(child, path[1..], v)])
  }

  lemma {:induction false} SetNestedLeaves(t: Tree, path: Path, v: Tree, q: Path)
    requires t.Map? && path != [] && !v.Map?
    ensures SetNested(t, path, v).Map?
    ensures LeafAt(SetNested(t, path, v), q) ==
            if q == path then Some(v) else if q <= path || path <= q then None else LeafAt(t, q)
    decreases |path|
  {
    var next := SetNested(t, path, v);
    if q != [] && q[0] == path[0] {
      assert q == [q[0]] + q[1..] && path == [path[0]] + path[1..];
      if |path| == 1 {
        assert path <= q;
        assert q == path <==> q[1..] == [];
      } else {
        var child := if path[0] in t.fields && t.fields[path[0]].Map? then t.fields[path[0]] else Map(map[]);
        SetNestedLeaves(child, path[1..], v, q[1..]);
        TailsCompare(path, q);
      }
    }
  }

  lemma TailsCompare(p: Path, q: Path)
    requires p != [] && q != [] && p[0] == q[0]
    ensures p == q <==> p[1..] == q[1..]
    ensures p <= q <==> p[1..] <= q[1..]
    ensures q <= p <==> q[1..] <= p[1..]
  {
    assert p == [p[0]] + p[1..] && q == [q[0]] + q[1..];
  }

  ghost predicate Holds(common: Tree, entries: set<Leaf>) {
    common.Map? && forall e :: Has(common, e) <==> e in entries
  }

  lemma HoldsMore(common: Tree, entries: set<Leaf>, e: Leaf)
    requires Holds(common, entries) && e.path != [] && !e.value.Map?
    requires forall f :: f in entries && (f.path <= e.path || e.path <= f.path) ==> f == e
    ensures Holds(SetNested(common, e.path, e.value), entries + {e})
  {
    var next := SetNested(common, e.path, e.value);
    SetNestedLeaves(common, e.path, e.value, e.path);
    forall f ensures Has(next, f) <==> f in entries + {e} {
      SetNestedLeaves(common, e.path, e.value, f.path);
      assert Has(common, f) <==> f in entries;
      if f.path == e.path && f in entries { assert f == e; }
    }
  }

  lemma {:induction false} LeafIsNoMap(t: Tree, p: Path)
    requires LeafAt(t, p).Some?
    ensures !LeafAt(t, p).value.Map?
    decreases |p|
  {
    if p != [] { LeafIsNoMap(t.fields[p[0]], p[1..]); }
  }

  lemma CommonIsLeaf(pkgs: seq<Tree>, threshold: nat, e: Leaf)
    requires Common(pkgs, threshold, e) && forall i :: 0 <= i < |pkgs| ==> pkgs[i].Map?
    ensures e.path != [] && !e.value.Map?
  {
    CountedSomewhere(pkgs, e);
    var i :| 0 <= i < |pkgs| && Has(pkgs[i], e);
    LeafIsNoMap(pkgs[i], e.path);
  }

  /** Main result: in whatever order the counted leaves are visited, the common
      tree has exactly those that pass the threshold. */
  method FindCommonValues(pkgs: seq<Tree>) returns (common: Tree)
    requires |pkgs| >= 2 && forall i :: 0 <= i < |pkgs| ==> pkgs[i].Map?
    ensures common.Map? && forall e :: Has(common, e) <==> Common(pkgs, |pkgs| / 2, e)
  {
    hide Tallied, Holds, Common;
    var threshold := |pkgs| / 2;
    var frequency := CountLeaves(pkgs);
    common := Map(map[]);
    ghost var entries: set<Leaf> := {};
    EmptyHolds();
    var left := frequency.Keys;
    while left != {}
      invariant left <= frequency.Keys && Holds(common, entries)
      invariant forall e :: e in entries <==> e in frequency && e !in left && Common(pkgs, threshold, e)
      decreases |left|
    {
      var e :| e in left;
      left := left - {e};
      CommonByCount(pkgs, threshold, frequency, e);
      if frequency[e] <= threshold && frequency[e] < |pkgs| {
        continue;
      }
      CommonIsLeaf(pkgs, threshold, e);
      forall f | f in entries && (f.path <= e.path || e.path <= f.path) ensures f == e {
        if f.path <= e.path { CommonLeavesAgree(pkgs, threshold, f, e); }
            else { CommonLeavesAgree(pkgs, threshold, e, f); }
      }
      HoldsMore(common, entries, e);
      HoldsMap(common, entries);
      common := SetNested(common, e.path, e.value);
      entries := entries + {e};
    }
    AllFound(pkgs, threshold, frequency, common, entries);
  }

  lemma EmptyHolds()
    ensures Holds(Map(map[]), {})
  {
  }

  lemma HoldsMap(common: Tree, entries: set<Leaf>)
    requires Holds(common, entries)
    ensures common.Map?
  {
  }

  lemma CommonByCount(pkgs: seq<Tree>, threshold: nat, frequency: map<Leaf, nat>, e: Leaf)
    requires Tallied(pkgs, map[], {}, frequency)
    ensures e in frequency ==> (Common(pkgs, threshold, e) <==> !(frequency[e] <= threshold && frequency[e] < |pkgs|))
    ensures e !in frequency ==> !Common(pkgs, threshold, e)
  {
  }

  lemma AllFound(pkgs: seq<Tree>, threshold: nat, frequency: map<Leaf, nat>, common: Tree, entries: set<Leaf>)
    requires Tallied(pkgs, map[], {}, frequency) && Holds(common, entries)
    requires forall e :: e in entries <==> e in frequency && Common(pkgs, threshold, e)
    ensures common.Map? && forall e :: Has(common, e) <==> Common(pkgs, threshold, e)
  {
    hide Tallied, Common;
    forall e ensures Has(common, e) <==> Common(pkgs, threshold, e) {
      CommonByCount(pkgs, threshold, frequency, e);
    }
  }

  // ----- taking the common values out, and merging them back -----

  predicate BothMaps(a: Tree, b: Tree) {
    a.Map? && b.Map?
  }

  /** The entries of values the base layer does not already give. */
  function Reduced(values: Tree, common: Tree): (r: Tree)
    requires values.Map? && common.Map?
    ensures r.Map?
    decreases values
  {
    Map(map k | k in values.fields && Stays(values, common, k) ::
      if k in common.fields && BothMaps(values.fields[k], common.fields[k])
          then Reduced(values.fields[k], common.fields[k]) else values.fields[k])
  }

  predicate Stays(values: Tree, common: Tree, k: string)
    requires values.Map? && common.Map? && k in values.fields
    decreases values, 0
  {
    if k !in common.fields then true
    else if BothMaps(values.fields[k], common.fields[k]) then Reduced(values.fields[k], common.fields[k]) != Map(map[])
    else values.fields[k] != common.fields[k]
  }

  method RemoveCommonValues(values: Tree, common: Tree) returns (result: Tree)
    requires values.Map? && common.Map?
    ensures result == Reduced(values, common)
    decreases values
  {
    var left := values.fields.Keys;
    var kept: map<string, Tree> := map[];
    while left != {}
      invariant left <= values.fields.Keys
      invariant forall k :: k in kept <==> k in values.fields && k !in left && Stays(values, common, k)
      invariant forall k :: k in kept ==> kept[k] == Reduced(values, common).fields[k]
      decreases |left|
    {
      var k :| k in left;
      left := left - {k};
      if k !in common.fields {
        kept := kept[k := values.fields[k]];
        continue;
      }
      if BothMaps(values.fields[k], common.fields[k]) {
        var remaining := RemoveCommonValues(values.fields[k], common.fields[k]);
        if |remaining.fields| > 0 {
          kept := kept[k := remaining];
        } else {
          assert remaining == Map(map[]);
        }
        continue;
      }
      if values.fields[k] == common.fields[k] {
        continue;
      }
      kept := kept[k := values.fields[k]];
    }
    assert kept == Reduced(values, common).fields;
    result := Map(kept);
  }

  /** The layer merge: maps are merged, everything else is replaced by the upper layer. */
  function DeepMerge(lower: Tree, upper: Tree): (r: Tree)
    requires lower.Map? && upper.Map?
    ensures r.Map?
    decreases lower
  {
    Map(map k | k in lower.fields.Keys + upper.fields.Keys ::
      if k !in upper.fields then lower.fields[k]
      else if k in lower.fields && BothMaps(lower.fields[k], upper.fields[k])
          then DeepMerge(lower.fields[k], upper.fields[k])
      else upper.fields[k])
  }

  /** The values settle what is at p: something is there, or something that is no map is on the way. */
  predicate Covered(values: Tree, p: Path)
    requires values.Map?
    decreases |p|
  {
    p != [] && p[0] in values.fields && (|p| == 1 || !values.fields[p[0]].Map? || Covered(values.fields[p[0]], p[1..]))
  }

  lemma MergeNothing(t: Tree)
    requires t.Map?
    ensures DeepMerge(t, Map(map[])) == t
  {
    assert DeepMerge(t, Map(map[])).fields == t.fields;
  }

  /** Main result: merging the reduced values over the base gives, path by path,
      the package's own leaf, nothing where the package has something else, and
      the base's leaf where the package is silent. */
  lemma {:induction false} MergedLeaf(values: Tree, common: Tree, p: Path)
    requires values.Map? && common.Map? && p != []
    ensures LeafAt(DeepMerge(common, Reduced(values, common)), p) ==
            if LeafAt(values, p).Some? then LeafAt(values, p) else if Covered(values, p)
                then None else LeafAt(common, p)
    decreases |p|
  {
    var k, rest := p[0], p[1..];
    var reduced := Reduced(values, common);
    if k in values.fields && k in common.fields && BothMaps(values.fields[k], common.fields[k]) {
      var v, c := values.fields[k], common.fields[k];
      if rest != [] { MergedLeaf(v, c, rest); }
      MergeNothing(c);
      assert Stays(values, common, k) <==> Reduced(v, c) != Map(map[]);
      assert k in reduced.fields <==> Stays(values, common, k);
      if k in reduced.fields { assert reduced.fields[k] == Reduced(v, c); } else { assert Reduced(v, c) == Map(map[]); }
      assert DeepMerge(common, reduced).fields[k] == DeepMerge(c, Reduced(v, c));
    }
  }

  /** Main result: no leaf of a package is lost or changed by moving the common
      values into the base layer. */
  lemma FactoringKeepsLeaves(values: Tree, common: Tree, p: Path)
    requires values.Map? && common.Map? && LeafAt(values, p).Some?
    ensures LeafAt(DeepMerge(common, Reduced(values, common)), p) == LeafAt(values, p)
  {
    MergedLeaf(values, common, p);
  }

  ghost predicate SameLeaves(a: Tree, b: Tree) {
    forall p :: LeafAt(a, p) == LeafAt(b, p)
  }

  ghost predicate SettlesAll(values: Tree, common: Tree)
    requires values.Map?
  {
    forall p :: LeafAt(common, p).Some? ==> Covered(values, p)
  }

  /** Main result: the leaves are the same ones exactly when the package settles every path the base has a leaf at. */
  lemma FactoringIsExactIff(values: Tree, common: Tree)
    requires values.Map? && common.Map?
    ensures SameLeaves(DeepMerge(common, Reduced(values, common)), values) <==> SettlesAll(values, common)
  {
    hide LeafAt, Covered, DeepMerge, Reduced;
    var merged := DeepMerge(common, Reduced(values, common));
    if SameLeaves(merged, values) {
      forall p | LeafAt(common, p).Some? ensures Covered(values, p) {
        assert LeafAt(merged, p) == LeafAt(values, p);
        ExactAt(values, common, p);
      }
    }
    if SettlesAll(values, common) {
      forall p ensures LeafAt(merged, p) == LeafAt(values, p) {
        ExactAt(values, common, p);
      }
    }
  }

  lemma ExactAt(values: Tree, common: Tree, p: Path)
    requires values.Map? && common.Map?
    ensures LeafAt(DeepMerge(common, Reduced(values, common)), p) == LeafAt(values, p) <==>
        (LeafAt(common, p).Some? ==> Covered(values, p))
  {
    if p != [] {
      MergedLeaf(values, common, p);
      LeafIsCovered(values, p);
    }
  }

  lemma {:induction false} LeafIsCovered(values: Tree, p: Path)
    requires values.Map?
    ensures LeafAt(values, p).Some? ==> Covered(values, p)
    decreases |p|
  {
    if p != [] && p[0] in values.fields && values.fields[p[0]].Map? {
      LeafIsCovered(values.fields[p[0]], p[1..]);
    }
  }
}
