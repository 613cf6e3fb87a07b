/** Workspace runs over computed levels: dependencies are respected by every interleaving. */
module Orchestration {
  import opened Basics
  import opened Trees
  import opened StringOrder
  import opened ReleaseGraph
  import opened Levels
  import W = Workspace

  function LevelLists(levels: seq<seq<Entry>>): seq<seq<string>> {
    seq(|levels|, l requires 0 <= l < |levels| => NamesInOrder(levels[l]))
  }

  /** An uninstall runs the levels from the most dependent down. */
  function RunOrder(levels: seq<seq<Entry>>, uninstall: bool): seq<seq<string>> {
    if uninstall then Reversed(LevelLists(levels)) else LevelLists(levels)
  }

  lemma {:induction false} LevelNamesHas(levels: seq<seq<Entry>>, n: string)
    ensures n in LevelNames(levels) <==>
        exists k, i :: 0 <= k < |levels| && 0 <= i < |levels[k]| && levels[k][i].name == n
  {
    if levels != [] {
      var rest := levels[..|levels| - 1];
      LevelNamesHas(rest, n);
      if k, i :| 0 <= k < |rest| && 0 <= i < |rest[k]| && rest[k][i].name == n {
        assert levels[k][i].name == n;
      }
      if k, i :| 0 <= k < |levels| && 0 <= i < |levels[k]| && levels[k][i].name == n {
        if k < |rest| { assert rest[k][i].name == n; }
      }
    }
  }

  lemma MemberIsReady(input: seq<Entry>, levels: seq<seq<Entry>>, l: nat, j: nat)
    requires ByDepth(input, levels) && l < |levels| && j < |levels[l]|
    ensures levels[l][j].name in ReadyNames(input, LevelNames(levels[..l]))
    ensures Distinct(NamesInOrder(levels[l]))
  {
    var ready := ReadyNames(input, LevelNames(levels[..l]));
    KeysListed(ready);
    assert NamesInOrder(levels[l])[j] in SortedKeys(ready);
  }

  /** A dependency is a member of an earlier level. */
  lemma DependencyIsEarlier(input: seq<Entry>, levels: seq<seq<Entry>>, l: nat, j: nat, d: string)
      returns (k: nat, i: nat)
    requires ByDepth(input, levels) && l < |levels| && j < |levels[l]| && d in Deps(input, levels[l][j].name)
    ensures k < l && i < |levels[k]| && levels[k][i].name == d
  {
    MemberIsReady(input, levels, l, j);
    LevelNamesHas(levels[..l], d);
    k, i :| 0 <= k < |levels[..l]| && 0 <= i < |levels[..l][k]| && levels[..l][k][i].name == d;
  }

  /** A member is in no earlier level. */
  lemma NotEarlier(input: seq<Entry>, levels: seq<seq<Entry>>, l: nat, j: nat, k: nat, i: nat)
    requires ByDepth(input, levels) && k < l < |levels| && j < |levels[l]| && i < |levels[k]|
    ensures levels[l][j].name != levels[k][i].name
  {
    MemberIsReady(input, levels, l, j);
    LevelNamesHas(levels[..l], levels[k][i].name);
    assert levels[..l][k][i].name == levels[k][i].name;
  }

  lemma SamePlace(input: seq<Entry>, levels: seq<seq<Entry>>, l: nat, j: nat, k: nat, i: nat)
    requires ByDepth(input, levels) && l < |levels| && j < |levels[l]| && k < |levels| && i < |levels[k]|
    requires levels[l][j].name == levels[k][i].name
    ensures l == k && j == i
  {
    if k < l { NotEarlier(input, levels, l, j, k, i); }
    if l < k { NotEarlier(input, levels, k, i, l, j); }
    MemberIsReady(input, levels, l, j);
    if l == k {
      var names := NamesInOrder(levels[l]);
      assert names[j] == names[i];
    }
  }

  /** The place of a level in the run. */
  function Place(c: W.Config, l: int): int {
    if c.uninstall then |c.levels| - 1 - l else l
  }

  ghost predicate Runs(c: W.Config, levels: seq<seq<Entry>>) {
    c.levels == RunOrder(levels, c.uninstall)
  }

  lemma PlaceHolds(c: W.Config, levels: seq<seq<Entry>>, p: nat)
    requires Runs(c, levels) && p < |c.levels|
    ensures |c.levels| == |levels| && c.levels[p] == NamesInOrder(levels[Place(c, p)])
  {
    LevelCount(c, levels);
  }

  lemma LevelCount(c: W.Config, levels: seq<seq<Entry>>)
    requires Runs(c, levels)
    ensures |c.levels| == |levels|
  {
  }

  lemma RunMembersAreDistinct(input: seq<Entry>, levels: seq<seq<Entry>>, c: W.Config)
    requires ByDepth(input, levels) && Runs(c, levels)
    ensures W.DistinctMembers(c)
  {
    forall l, j, k, i | 0 <= l < |c.levels| && 0 <= j < |c.levels[l]| && 0 <= k < |c.levels| && 0 <= i < |c.levels[k]|
        && c.levels[l][j] == c.levels[k][i]
      ensures l == k && j == i
    {
      PlaceHolds(c, levels, l);
      PlaceHolds(c, levels, k);
      SamePlace(input, levels, Place(c, l), j, Place(c, k), i);
    }
  }

  ghost predicate Succeeded(s: W.State, m: string) {
    forall i :: 0 <= i < |s.completed| && s.completed[i].member == m ==> s.completed[i].ok
  }

  /** A recorded result in an earlier level of the run, a success unless errors are continued past. */
  lemma EarlierIsRecorded(c: W.Config, s: W.State, p: nat, i: nat)
    requires W.DistinctMembers(c) && W.Invariant(c, s) && W.Enabled(c, s, W.Start)
    requires p < s.level && p < |c.levels| && i < |c.levels[p]|
    ensures W.IsRecorded(s.completed, c.levels[p][i])
    ensures !c.continueOnError ==> Succeeded(s, c.levels[p][i])
  {
    W.LevelBarrier(c, s);
  }

  /** Main result: in every interleaving of an install or upgrade a member
      starts after the results of all it depends on are recorded, and without
      continue-on-error they all succeeded. */
  lemma DependenciesComeFirst(input: seq<Entry>, levels: seq<seq<Entry>>, c: W.Config, run: seq<W.State>,
      steps: seq<W.Step>, t: nat, d: string)
    requires ByDepth(input, levels) && Runs(c, levels) && !c.uninstall
    requires W.IsRun(c, run, steps) && t < |steps| && steps[t] == W.Start && W.Enabled(c, run[t], W.Start)
    requires d in Deps(input, W.Current(c, run[t])[|run[t].phases|])
    ensures W.IsRecorded(run[t].completed, d)
    ensures !c.continueOnError ==> Succeeded(run[t], d)
  {
    hide W.Invariant, W.Taken, W.DistinctMembers, ByDepth, Runs, Succeeded, Deps;
    RunMembersAreDistinct(input, levels, c);
    W.RunKeepsInvariant(c, run, steps, t);
    var s := run[t];
    PlaceHolds(c, levels, s.level);
    var k, i := DependencyIsEarlier(input, levels, s.level, |s.phases|, d);
    PlaceHolds(c, levels, k);
    EarlierIsRecorded(c, s, k, i);
  }

  /** Main result: an uninstall takes a member off after all that depend on it. */
  lemma DependentsGoFirst(input: seq<Entry>, levels: seq<seq<Entry>>, c: W.Config, run: seq<W.State>,
      steps: seq<W.Step>, t: nat, m: string)
    requires ByDepth(input, levels) && LevelNames(levels) == Names(input) && Runs(c, levels) && c.uninstall
    requires W.IsRun(c, run, steps) && t < |steps| && steps[t] == W.Start && W.Enabled(c, run[t], W.Start)
    requires m in Names(input) && W.Current(c, run[t])[|run[t].phases|] in Deps(input, m)
    ensures W.IsRecorded(run[t].completed, m)
    ensures !c.continueOnError ==> Succeeded(run[t], m)
  {
    hide W.Invariant, W.Taken, W.DistinctMembers, ByDepth, Runs, Succeeded, LevelNames, Deps, Names;
    RunMembersAreDistinct(input, levels, c);
    W.RunKeepsInvariant(c, run, steps, t);
    var s := run[t];
    PlaceHolds(c, levels, s.level);
    LevelNamesHas(levels, m);
    var k, i :| 0 <= k < |levels| && 0 <= i < |levels[k]| && levels[k][i].name == m;
    var k', i' := DependencyIsEarlier(input, levels, k, i, W.Current(c, s)[|s.phases|]);
    SamePlace(input, levels, Place(c, s.level), |s.phases|, k', i');
    var p := Place(c, k);
    PlaceHolds(c, levels, p);
    EarlierIsRecorded(c, s, p, i);
  }
}
