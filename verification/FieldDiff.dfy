/** The structural comparison of two manifests: a list of changes by path. */
module FieldDiff {
  import opened Basics
  import opened Trees
  import opened StringOrder

  datatype Segment = Key(name: string) | Index(at: nat)

  type Path = seq<Segment>

  /** A missing side is recorded as Null. */
  datatype Change = Change(path: Path, was: Tree, now: Tree)

  // ----- the changes, relative to the compared values -----

  function Under(s: Segment, cs: seq<Change>): seq<Change> {
    seq(|cs|, i requires 0 <= i < |cs| => cs[i].(path := [s] + cs[i].path))
  }

  function Prefixed(prefix: Path, cs: seq<Change>): seq<Change> {
    seq(|cs|, i requires 0 <= i < |cs| => cs[i].(path := prefix + cs[i].path))
  }

  ghost function Diff(a: Tree, b: Tree): seq<Change>
    decreases a, 3, 0
  {
    if a == b then []
    else if a.Map? && b.Map? then MapDiff(a, b, SortedKeys(a.fields.Keys + b.fields.Keys))
    else if a.List? && b.List? && |a.items| == |b.items| then ListDiff(a, b, |a.items|)
    else [Change([], a, b)]
  }

  ghost function MapDiff(a: Tree, b: Tree, ks: seq<string>): seq<Change>
    requires a.Map? && b.Map?
    decreases a, 2, |ks|
  {
    if ks == [] then []
    else
      var k := ks[|ks| - 1];
      MapDiff(a, b, ks[..|ks| - 1]) + Under(Key(k), EntryDiff(a, b, k))
  }

  ghost function EntryDiff(a: Tree, b: Tree, k: string): seq<Change>
    requires a.Map? && b.Map?
    decreases a, 1, 0
  {
    if k in a.fields && k in b.fields then Diff(a.fields[k], b.fields[k])
    else if k in b.fields then [Change([], Null, b.fields[k])]
    else if k in a.fields then [Change([], a.fields[k], Null)]
    else []
  }

  ghost function ListDiff(a: Tree, b: Tree, n: nat): seq<Change>
    requires a.List? && b.List? && n <= |a.items| == |b.items|
    decreases a, 2, n
  {
    if n == 0 then [] else ListDiff(a, b, n - 1) + Under(Index(n - 1), Diff(a.items[n - 1], b.items[n - 1]))
  }

  // ----- the recursive comparison as coded, with its prefix argument -----

  lemma WholeChange(prefix: Path, was: Tree, now: Tree)
    ensures Prefixed(prefix, [Change([], was, now)]) == [Change(prefix, was, now)]
  {
    assert prefix + [] == prefix;
  }

  method ComputeFieldChanges(prefix: Path, a: Tree, b: Tree) returns (out: seq<Change>)
    ensures out == Prefixed(prefix, Diff(a, b))
    decreases a, 1
  {
    WholeChange(prefix, a, b);
    if a == b {
      return [];
    }
    match (a, b) {
      case (Map(_), Map(_)) =>
        out := ComputeMapDiff(prefix, a, b);
      case (List(av), List(bv)) =>
        if |av| != |bv| {
          return [Change(prefix, a, b)];
        }
        out := [];
        for i := 0 to |av|
          invariant out == Prefixed(prefix, ListDiff(a, b, i))
        {
          assert av[i] in av;
          var changes := ComputeFieldChanges(prefix + [Index(i)], av[i], bv[i]);
          PrefixedSplits(prefix, Index(i), ListDiff(a, b, i), Diff(av[i], bv[i]));
          out := out + changes;
        }
      case _ =>
        out := [Change(prefix, a, b)];
    }
  }

  lemma EntryChange(path: Path, a: Tree, b: Tree, k: string)
    requires a.Map? && b.Map?
    ensures k !in a.fields && k in b.fields ==> Prefixed(path, EntryDiff(a, b, k)) == [Change(path, Null, b.fields[k])]
    ensures k in a.fields && k !in b.fields ==> Prefixed(path, EntryDiff(a, b, k)) == [Change(path, a.fields[k], Null)]
    ensures k in a.fields && k in b.fields ==> EntryDiff(a, b, k) == Diff(a.fields[k], b.fields[k])
  {
    if k in a.fields { WholeChange(path, a.fields[k], Null); }
    if k in b.fields { WholeChange(path, Null, b.fields[k]); }
  }

  lemma NoEntries(prefix: Path, a: Tree, b: Tree)
    requires a.Map? && b.Map?
    ensures Prefixed(prefix, MapDiff(a, b, [])) == []
  {
  }

  lemma MapDiffSnoc(a: Tree, b: Tree, keys: seq<string>, i: nat)
    requires a.Map? && b.Map? && i < |keys|
    ensures MapDiff(a, b, keys[..i + 1]) == MapDiff(a, b, keys[..i]) + Under(Key(keys[i]), EntryDiff(a, b, keys[i]))
  {
    assert keys[..i + 1][..i] == keys[..i];
  }

  method ComputeMapDiff(prefix: Path, a: Tree, b: Tree) returns (out: seq<Change>)
    requires a.Map? && b.Map?
    ensures out == Prefixed(prefix, MapDiff(a, b, SortedKeys(a.fields.Keys + b.fields.Keys)))
    decreases a, 0
  {
    hide MapDiff, EntryDiff, Prefixed, Under, SortedKeys, Diff;
    var keys := ListKeys(a.fields.Keys + b.fields.Keys);
    out := [];
    NoEntries(prefix, a, b);
    assert keys[..0] == [];
    for i := 0 to |keys|
      invariant out == Prefixed(prefix, MapDiff(a, b, keys[..i]))
    {
      var k := keys[i];
      MapDiffSnoc(a, b, keys, i);
      PrefixedSplits(prefix, Key(k), MapDiff(a, b, keys[..i]), EntryDiff(a, b, k));
      assert k in Elements(keys);
      EntryChange(prefix + [Key(k)], a, b, k);
      if k !in a.fields {
        out := out + [Change(prefix + [Key(k)], Null, b.fields[k])];
      } else if k !in b.fields {
        out := out + [Change(prefix + [Key(k)], a.fields[k], Null)];
      } else {
        var changes := ComputeFieldChanges(prefix + [Key(k)], a.fields[k], b.fields[k]);
        out := out + changes;
      }
    }
    assert keys[..|keys|] == keys;
  }

  lemma PrefixedSplits(prefix: Path, s: Segment, cs: seq<Change>, ds: seq<Change>)
    ensures Prefixed(prefix, cs + Under(s, ds)) == Prefixed(prefix, cs) + Prefixed(prefix + [s], ds)
  {
    var l, r := Prefixed(prefix, cs + Under(s, ds)), Prefixed(prefix, cs) + Prefixed(prefix + [s], ds);
    forall i | 0 <= i < |l| ensures l[i] == r[i] {
      if i >= |cs| {
        assert prefix + ([s] + ds[i - |cs|].path) == prefix + [s] + ds[i - |cs|].path;
      }
    }
  }

  // ----- no change exactly when nothing differs -----

  /** Main result: the comparison is silent exactly on equal values. */
  lemma {:induction false} SilentIffEqual(a: Tree, b: Tree)
    ensures Diff(a, b) == [] <==> a == b
    decreases a
  {
    if a != b && a.Map? && b.Map? {
      var keys := a.fields.Keys + b.fields.Keys;
      KeysListed(keys);
      DifferentEntry(a.fields, b.fields);
      var k :| k in keys && !(k in a.fields && k in b.fields && a.fields[k] == b.fields[k]);
      if k in a.fields && k in b.fields { SilentIffEqual(a.fields[k], b.fields[k]); }
      assert k in SortedKeys(keys);
      MapDiffHas(a, b, SortedKeys(keys), k);
    } else if a != b && a.List? && b.List? && |a.items| == |b.items| {
      var i :| 0 <= i < |a.items| && a.items[i] != b.items[i];
      assert a.items[i] in a.items;
      SilentIffEqual(a.items[i], b.items[i]);
      ListDiffHas(a, b, |a.items|, i);
    }
  }

  lemma DifferentEntry(m: map<string, Tree>, n: map<string, Tree>)
    requires m != n
    ensures exists k :: k in m.Keys + n.Keys && !(k in m && k in n && m[k] == n[k])
  {
    assert m.Keys == n.Keys ==> exists k :: k in m && m[k] != n[k];
    assert m.Keys != n.Keys ==> exists k :: k in m.Keys + n.Keys && !(k in m && k in n);
  }

  lemma {:induction false} MapDiffHas(a: Tree, b: Tree, ks: seq<string>, k: string)
    requires a.Map? && b.Map? && k in ks && EntryDiff(a, b, k) != []
    ensures MapDiff(a, b, ks) != []
    decreases |ks|
  {
    if ks[|ks| - 1] != k { MapDiffHas(a, b, ks[..|ks| - 1], k); }
  }

  lemma {:induction false} ListDiffHas(a: Tree, b: Tree, n: nat, i: nat)
    requires a.List? && b.List? && i < n <= |a.items| == |b.items| && Diff(a.items[i], b.items[i]) != []
    ensures ListDiff(a, b, n) != []
    decreases n
  {
    if i < n - 1 { ListDiffHas(a, b, n - 1, i); }
  }
}
