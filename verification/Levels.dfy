/** The levels of a workspace: members grouped so that a level depends on
    earlier ones only. The counting is that of the release sort, but the names a
    level frees are collected apart and start together, as the next level. */
module Levels {
  import opened StringOrder
  import opened ReleaseGraph
  import T = TopoSort

  datatype Outcome =
    | Layered(levels: seq<seq<Entry>>)
    | UnknownDependency(name: string, dep: string)
    | Cycle(stuck: seq<string>)

  /** The names outside `done` all of whose dependencies are in it. */
  ghost function ReadyNames(input: seq<Entry>, done: set<string>): set<string> {
    set n | n in Names(input) && n !in done && Deps(input, n) <= done
  }

  function LevelNames(levels: seq<seq<Entry>>): set<string> {
    if levels == [] then {} else LevelNames(levels[..|levels| - 1]) + Names(levels[|levels| - 1])
  }

  /** Every level lists, in name order, exactly what the levels before it have made ready. */
  ghost predicate ByDepth(input: seq<Entry>, levels: seq<seq<Entry>>) {
    && (forall l, e :: 0 <= l < |levels| && e in levels[l] ==> e in input)
    && (forall l :: 0 <= l < |levels| ==>
          levels[l] != [] && NamesInOrder(levels[l]) == SortedKeys(ReadyNames(input, LevelNames(levels[..l]))))
  }

  ghost predicate Correct(input: seq<Entry>, r: Outcome) {
    match r
    case Layered(levels) => !HasCycle(input) && ByDepth(input, levels) && LevelNames(levels) == Names(input)
    case Cycle(stuck) =>
      && HasCycle(input)
      && Sorted(stuck) && Distinct(stuck)
      && forall n :: n in stuck <==> n in Names(input) && ReachesCycle(input, n)
    case UnknownDependency(_, _) => false
  }

  // ----- between levels -----

  /** `released` have told their dependents; counts and the next level are up to date. */
  ghost predicate Counted(input: seq<Entry>, released: set<string>, indeg: map<string, int>) {
    indeg.Keys == Names(input) && forall n {:trigger indeg[n]} :: n in indeg ==> indeg[n] == |Deps(input, n) - released|
  }

  /** next lists what is ready after `released`, apart from the names already started. */
  ghost predicate NextIs(input: seq<Entry>, started: set<string>, released: set<string>, next: seq<string>) {
    Distinct(next) && forall n :: n in next <==> n in Names(input) && n !in started && Deps(input, n) <= released
  }

  lemma NoneNew(input: seq<Entry>, done: set<string>)
    ensures NextIs(input, done + ReadyNames(input, done), done, [])
  {
  }

  lemma NextLevel(input: seq<Entry>, done: set<string>, next: seq<string>)
    requires NextIs(input, done, done, next)
    ensures Elements(next) == ReadyNames(input, done) && Distinct(next)
  {
  }

  // ----- telling the dependents of one name -----

  ghost predicate Scanning(input: seq<Entry>, started: set<string>, released: set<string>, name: string,
      scanned: set<string>,
                           indeg: map<string, int>, next: seq<string>) {
    && indeg.Keys == Names(input)
    && (forall n {:trigger indeg[n]} :: n in indeg ==> indeg[n] == |Waits(input, released, name, scanned, n)|)
    && Distinct(next)
    && (forall n :: n in next <==> n in Names(input) && n !in started && Waits(input, released, name, scanned, n) == {})
  }

  lemma SubsetIff(a: set<string>, b: set<string>)
    ensures a - b == {} <==> a <= b
  {
    assert a <= b + (a - b);
  }

  lemma ScanStarts(input: seq<Entry>, started: set<string>, released: set<string>, name: string,
      indeg: map<string, int>, next: seq<string>)
    requires Counted(input, released, indeg) && NextIs(input, started, released, next)
    ensures Scanning(input, started, released, name, {}, indeg, next)
  {
    hide Deps, Names, Distinct;
    forall n ensures Waits(input, released, name, {}, n) == Deps(input, n) - released {}
    forall n ensures Deps(input, n) - released == {} <==> Deps(input, n) <= released {
      SubsetIff(Deps(input, n), released);
    }
  }

  lemma ScanEnds(input: seq<Entry>, started: set<string>, released: set<string>, name: string, indeg: map<string, int>,
      next: seq<string>)
    requires Scanning(input, started, released, name, Names(input), indeg, next)
    ensures Counted(input, released + {name}, indeg) && NextIs(input, started, released + {name}, next)
  {
    hide Deps, Names, Distinct;
    forall n | n in Names(input) ensures Waits(input, released, name, Names(input), n)
        == Deps(input, n) - (released + {name}) {}
    forall n ensures Deps(input, n) - (released + {name}) == {} <==> Deps(input, n) <= released + {name} {
      SubsetIff(Deps(input, n), released + {name});
    }
  }

  lemma SkippedWaits(input: seq<Entry>, released: set<string>, name: string, scanned: set<string>, n: string, k: string)
    requires name !in Deps(input, n)
    ensures Waits(input, released, name, scanned + {n}, k) == Waits(input, released, name, scanned, k)
  {
    hide Deps;
  }

  lemma ScanSkips(input: seq<Entry>, started: set<string>, released: set<string>, name: string, scanned: set<string>,
      n: string,
                  indeg: map<string, int>, next: seq<string>)
    requires Scanning(input, started, released, name, scanned, indeg, next) && name !in Deps(input, n)
    ensures Scanning(input, started, released, name, scanned + {n}, indeg, next)
  {
    hide Deps, Names, Distinct, Waits;
    forall k ensures Waits(input, released, name, scanned + {n}, k) == Waits(input, released, name, scanned, k) {
      SkippedWaits(input, released, name, scanned, n, k);
    }
  }

  /** A dependent waits for one name less; when that was the last one it joins the next level. */
  lemma ScanReleases(input: seq<Entry>, started: set<string>, released: set<string>, name: string, scanned: set<string>,
      n: string,
                     indeg: map<string, int>, next: seq<string>)
    requires Scanning(input, started, released, name, scanned, indeg, next) && name in Deps(input, n)
    requires n in indeg && n !in scanned && n !in started && name !in released
    ensures indeg[n] > 0
    ensures Scanning(input, started, released, name, scanned + {n}, indeg[n := indeg[n] - 1], if indeg[n] == 1
        then next + [n] else next)
  {
    hide Deps, Names, Distinct, Waits;
    var waits := Waits(input, released, name, scanned, n);
    IsWaiting(input, released, name, scanned, n);
    T.NotEmpty(waits, name);
    forall k ensures Waits(input, released, name, scanned + {n}, k) == if k == n
        then waits - {name} else Waits(input, released, name, scanned, k) {
      WaitsAfter(input, released, name, scanned, n, k);
    }
    if indeg[n] == 1 {
      Joins(next, n);
    }
  }

  lemma IsWaiting(input: seq<Entry>, released: set<string>, name: string, scanned: set<string>, n: string)
    requires name in Deps(input, n) && n !in scanned && name !in released
    ensures name in Waits(input, released, name, scanned, n)
  {
  }

  lemma Joins(next: seq<string>, n: string)
    requires Distinct(next) && n !in next
    ensures Distinct(next + [n])
  {
  }

  /** Names that depend on a ready name are not ready themselves. */
  lemma DependentNotStarted(input: seq<Entry>, done: set<string>, name: string, n: string)
    requires name in ReadyNames(input, done) && name in Deps(input, n)
    requires forall m :: m in done ==> Deps(input, m) <= done
    ensures n !in done + ReadyNames(input, done)
  {
  }

  method Release(input: seq<Entry>, ghost done: set<string>, ghost released: set<string>, ghost seen: seq<string>,
      name: string, indeg: map<string, int>, next: seq<string>)
    returns (indeg': map<string, int>, next': seq<string>)
    requires indeg.Keys == Names(input) && Elements(next) <= Names(input)
    requires WellFormed(input) ==> Scanning(input, done + ReadyNames(input, done), released, name, {}, indeg, next)
    requires WellFormed(input) ==> name in ReadyNames(input, done) && name !in released && forall m :: m in done ==>
        Deps(input, m) <= done
    requires T.Pending(input, seen, next, indeg)
    ensures T.Pending(input, seen, next', indeg')
    ensures indeg'.Keys == Names(input) && Elements(next') <= Names(input)
    ensures |T.Positive(indeg')| + |next'| <= |T.Positive(indeg)| + |next|
    ensures WellFormed(input) ==> Scanning(input, done + ReadyNames(input, done), released, name, Names(input), indeg',
        next')
  {
    hide Scanning, ReadyNames, Deps, Names, T.Positive, T.Pending;
    indeg', next' := indeg, next;
    NoNames(input);
    for i := 0 to |input|
      invariant T.Pending(input, seen, next', indeg')
      invariant indeg'.Keys == Names(input) && Elements(next') <= Names(input)
      invariant |T.Positive(indeg')| + |next'| <= |T.Positive(indeg)| + |next|
      invariant WellFormed(input) ==>
        Scanning(input, done + ReadyNames(input, done), released, name, Names(input[..i]), indeg', next')
    {
      var n := input[i].name;
      T.NamesSnoc(input, i);
      NameThere(input, i);
      if WellFormed(input) {
        T.NextName(input, i);
        EntryDeps(input, input[i]);
        if name in input[i].dependsOn {
          DependentNotStarted(input, done, name, n);
          ScanReleases(input, done + ReadyNames(input, done), released, name, Names(input[..i]), n, indeg', next');
        } else {
          ScanSkips(input, done + ReadyNames(input, done), released, name, Names(input[..i]), n, indeg', next');
        }
      }
      if name in input[i].dependsOn {
        T.PositiveShrinks(indeg', n);
        T.StaysPendingUnsorted(input, seen, next', indeg', n);
        indeg' := indeg'[n := indeg'[n] - 1];
        if indeg'[n] == 0 {
          next' := next' + [n];
        }
      }
    }
    assert input[..|input|] == input;
  }

  lemma NoNames(input: seq<Entry>)
    ensures Names(input[..0]) == {}
  {
  }

  lemma NameThere(input: seq<Entry>, i: nat)
    requires i < |input|
    ensures input[i].name in Names(input)
  {
  }

  // ----- one level -----

  method ReleaseLevel(input: seq<Entry>, ghost done: set<string>, ghost seen: seq<string>, current: seq<string>,
      indeg: map<string, int>)
    returns (indeg': map<string, int>, next: seq<string>)
    requires indeg.Keys == Names(input) && Elements(current) <= Names(input)
    requires WellFormed(input) ==>
        Counted(input, done, indeg) && Elements(current) == ReadyNames(input, done)
        && Distinct(current)
    requires WellFormed(input) ==> done !! Elements(current) && forall m :: m in done ==> Deps(input, m) <= done
    requires T.Pending(input, seen, [], indeg)
    ensures T.Pending(input, seen, next, indeg')
    ensures indeg'.Keys == Names(input) && Elements(next) <= Names(input)
    ensures |T.Positive(indeg')| + |next| <= |T.Positive(indeg)|
    ensures WellFormed(input) ==> Counted(input, done + Elements(current), indeg')
    ensures WellFormed(input) ==> NextIs(input, done + Elements(current), done + Elements(current), next)
  {
    hide Scanning, Counted, NextIs, ReadyNames, Deps, Names, T.Positive, T.Pending, WellFormed, Distinct, Elements;
    indeg', next := indeg, [];
    NoneNew(input, done);
    NoElementsYet(current, done);
    for i := 0 to |current|
      invariant T.Pending(input, seen, next, indeg')
      invariant indeg'.Keys == Names(input) && Elements(next) <= Names(input)
      invariant |T.Positive(indeg')| + |next| <= |T.Positive(indeg)|
      invariant WellFormed(input) ==> Counted(input, done + Elements(current[..i]), indeg')
      invariant WellFormed(input) ==> NextIs(input, done + Elements(current), done + Elements(current[..i]), next)
    {
      ghost var released := done + Elements(current[..i]);
      if WellFormed(input) {
        ScanStarts(input, done + Elements(current), released, current[i], indeg', next);
        StillToRelease(current, i, done);
      }
      indeg', next := Release(input, done, released, seen, current[i], indeg', next);
      if WellFormed(input) {
        ScanEnds(input, done + Elements(current), released, current[i], indeg', next);
      }
    }
    assert current[..|current|] == current;
  }

  lemma NoElementsYet(current: seq<string>, done: set<string>)
    ensures done + Elements(current[..0]) == done && Elements([]) == {}
  {
  }

  lemma StillToRelease(current: seq<string>, i: nat, done: set<string>)
    requires i < |current| && Distinct(current) && done !! Elements(current)
    ensures current[i] in Elements(current) && current[i] !in done + Elements(current[..i])
    ensures done + Elements(current[..i]) + {current[i]} == done + Elements(current[..i + 1])
  {
  }

  // ----- the orderly list behind the levels -----

  lemma {:induction false} LevelIsOrderly(input: seq<Entry>, done: seq<string>, names: seq<string>)
    requires Orderly(input, done) && Distinct(names) && Elements(names) <= ReadyNames(input, Elements(done))
    ensures Orderly(input, done + names)
  {
    var all := done + names;
    forall k | 0 <= k < |all| ensures Ready(input, all[..k], all[k]) {
      if k < |done| {
        assert all[..k] == done[..k];
      } else {
        var i := k - |done|;
        assert names[i] in Elements(names);
        assert all[..k] == done + names[..i];
        assert Elements(done) <= Elements(all[..k]);
      }
    }
  }

  lemma OrderlyDepsInside(input: seq<Entry>, done: seq<string>)
    requires Orderly(input, done)
    ensures forall m :: m in Elements(done) ==> Deps(input, m) <= Elements(done)
  {
    forall m | m in Elements(done) ensures Deps(input, m) <= Elements(done) {
      var k :| 0 <= k < |done| && done[k] == m;
      assert Ready(input, done[..k], done[k]);
      assert Elements(done[..k]) <= Elements(done);
    }
  }

  /** At the top of the level loop. */
  ghost predicate AtLevel(input: seq<Entry>, levels: seq<seq<Entry>>, done: seq<string>, indeg: map<string, int>,
      current: seq<string>) {
    && Orderly(input, done) && Elements(done) == LevelNames(levels)
    && ByDepth(input, levels)
    && Counted(input, Elements(done), indeg)
    && Distinct(current) && Elements(current) == ReadyNames(input, Elements(done))
  }

  lemma LevelFacts(input: seq<Entry>, levels: seq<seq<Entry>>, done: seq<string>, indeg: map<string, int>,
      current: seq<string>)
    requires AtLevel(input, levels, done, indeg, current)
    ensures Distinct(Sort(current)) && Elements(Sort(current)) == Elements(current) && |Sort(current)| == |current|
    ensures Elements(Sort(current)) == ReadyNames(input, Elements(done)) && Counted(input, Elements(done), indeg)
    ensures Elements(done) !! Elements(Sort(current))
    ensures forall m :: m in Elements(done) ==> Deps(input, m) <= Elements(done)
  {
    SortKeeps(current);
    OrderlyDepsInside(input, done);
  }

  lemma LevelAdded(input: seq<Entry>, levels: seq<seq<Entry>>, done: seq<string>, indeg: map<string, int>,
      current: seq<string>,
                   level: seq<Entry>, indeg': map<string, int>, next: seq<string>)
    requires AtLevel(input, levels, done, indeg, current) && current != []
    requires NamesInOrder(level) == Sort(current) && forall e :: e in level ==> e in input
    requires Counted(input, Elements(done) + Elements(Sort(current)), indeg')
    requires NextIs(input, Elements(done) + Elements(Sort(current)), Elements(done) + Elements(Sort(current)), next)
    ensures AtLevel(input, levels + [level], done + Sort(current), indeg', next)
  {
    hide Orderly, Counted, NextIs, Sort, Deps, Names, ReadyNames, SortedKeys;
    var names := Sort(current);
    SortKeeps(current);
    LevelIsOrderly(input, done, names);
    assert Elements(done + names) == Elements(done) + Elements(names);
    NextLevel(input, Elements(done) + Elements(names), next);
    NamesAre(level);
    assert (levels + [level])[..|levels|] == levels;
    SortedList(ReadyNames(input, Elements(done)), current);
    assert |names| == |current|;
    DepthGrows(input, levels, level);
  }

  lemma NamesAre(level: seq<Entry>)
    ensures Names(level) == Elements(NamesInOrder(level))
  {
    T.NamesAsElements(level);
  }

  lemma DepthGrows(input: seq<Entry>, levels: seq<seq<Entry>>, level: seq<Entry>)
    requires ByDepth(input, levels) && level != [] && forall e :: e in level ==> e in input
    requires NamesInOrder(level) == SortedKeys(ReadyNames(input, LevelNames(levels)))
    ensures ByDepth(input, levels + [level])
  {
    hide SortedKeys, ReadyNames, LevelNames;
    var all := levels + [level];
    forall l | 0 <= l < |all|
      ensures all[l] != [] && NamesInOrder(all[l]) == SortedKeys(ReadyNames(input, LevelNames(all[..l])))
    {
      if l < |levels| { assert all[..l] == levels[..l]; } else { assert all[..l] == levels; }
    }
  }

  method PickLevel(input: seq<Entry>, byName: map<string, Entry>, current: seq<string>) returns (level: seq<Entry>)
    requires byName.Keys == Names(input) && Elements(current) <= Names(input)
    requires forall n {:trigger byName[n]} :: n in byName ==>
        IsEntryOf(input, byName[n], n) && IsLastOf(input, byName[n])
    ensures NamesInOrder(level) == current && forall e :: e in level ==> e in input && IsLastOf(input, e)
  {
    hide IsLastOf;
    level := [];
    for i := 0 to |current|
      invariant |level| == i && (forall j :: 0 <= j < i ==> level[j].name == current[j])
      invariant forall e :: e in level ==> e in input && IsLastOf(input, e)
    {
      assert current[i] in Elements(current);
      level := level + [byName[current[i]]];
    }
    assert NamesInOrder(level) == current;
  }

  /** The members nobody has to wait for, in declared order. */
  method FirstLevel(input: seq<Entry>, indeg: map<string, int>) returns (current: seq<string>)
    requires indeg.Keys == Names(input)
    ensures Elements(current) <= Names(input) && T.Pending(input, [], current, indeg)
    ensures WellFormed(input) && (forall n {:trigger indeg[n]} :: n in indeg ==> indeg[n] == |Deps(input, n)|) ==>
      AtLevel(input, [], [], indeg, current)
  {
    hide T.FirstUp, T.Pending, Sparing, AtLevel, Deps;
    current := [];
    T.NoneUp(input, indeg);
    for i := 0 to |input|
      invariant Elements(current) <= Names(input) && T.FirstUp(input, i, current, indeg)
      invariant WellFormed(input) ==> Distinct(current) && forall n :: n in current <==>
        n in Names(input[..i]) && n in indeg && indeg[n] == 0
    {
      T.NamesSnoc(input, i);
      T.FirstUpNext(input, i, current, indeg);
      if WellFormed(input) { T.NextName(input, i); }
      NameThere(input, i);
      if indeg[input[i].name] == 0 {
        current := current + [input[i].name];
      }
    }
    assert input[..|input|] == input;
    T.FirstUpSpares(input, current, indeg);
    T.SortedPending(input, current, indeg);
    if WellFormed(input) && forall n {:trigger indeg[n]} :: n in indeg ==> indeg[n] == |Deps(input, n)| {
      FirstIsReady(input, indeg, current);
    }
  }

  lemma FirstIsReady(input: seq<Entry>, indeg: map<string, int>, current: seq<string>)
    requires indeg.Keys == Names(input) && forall n {:trigger indeg[n]} :: n in indeg ==> indeg[n] == |Deps(input, n)|
    requires Distinct(current) && forall n :: n in current <==> n in Names(input) && n in indeg && indeg[n] == 0
    ensures AtLevel(input, [], [], indeg, current)
  {
    hide Deps, Names, ReadyNames, Distinct;
    assert Elements([]) == {};
    forall n ensures Deps(input, n) - {} == Deps(input, n) {}
    assert Counted(input, {}, indeg);
    FirstAreReady(input, current, indeg);
  }

  lemma FirstAreReady(input: seq<Entry>, current: seq<string>, indeg: map<string, int>)
    requires indeg.Keys == Names(input) && forall n {:trigger indeg[n]} :: n in indeg ==> indeg[n] == |Deps(input, n)|
    requires forall n :: n in current <==> n in Names(input) && n in indeg && indeg[n] == 0
    ensures Elements(current) == ReadyNames(input, {})
  {
    hide Deps, Names;
    forall n | n in Names(input) ensures n in current <==> n in ReadyNames(input, {}) {
      assert indeg[n] == |Deps(input, n)|;
    }
  }

  /** Of members that share a name only the last is in a level. */
  ghost predicate AllLast(input: seq<Entry>, levels: seq<seq<Entry>>) {
    forall l, e :: 0 <= l < |levels| && e in levels[l] ==> IsLastOf(input, e)
  }

  /** All entries, level by level. */
  function Flattened(levels: seq<seq<Entry>>): seq<Entry> {
    if levels == [] then [] else Flattened(levels[..|levels| - 1]) + levels[|levels| - 1]
  }

  lemma FlattenedSnoc(levels: seq<seq<Entry>>, level: seq<Entry>)
    ensures Flattened(levels + [level]) == Flattened(levels) + level
    ensures NamesInOrder(Flattened(levels + [level])) == NamesInOrder(Flattened(levels)) + NamesInOrder(level)
  {
    assert (levels + [level])[..|levels|] == levels;
  }

  lemma NothingFlattened()
    ensures NamesInOrder(Flattened([])) == []
  {
  }

  lemma {:induction false} FlattenedLast(input: seq<Entry>, levels: seq<seq<Entry>>)
    requires AllLast(input, levels)
    ensures forall e :: e in Flattened(levels) ==> IsLastOf(input, e)
    decreases |levels|
  {
    hide IsLastOf;
    if levels != [] {
      var front := levels[..|levels| - 1];
      forall l | 0 <= l < |front| ensures front[l] == levels[l] {}
      FlattenedLast(input, front);
    }
  }

  method Layer(input: seq<Entry>, byName: map<string, Entry>, indeg0: map<string, int>, first: seq<string>)
    returns (levels: seq<seq<Entry>>, processed: nat, indeg: map<string, int>, ghost done: seq<string>)
    requires indeg0.Keys == byName.Keys == Names(input) && Elements(first) <= Names(input)
    requires forall n {:trigger byName[n]} :: n in byName ==>
        IsEntryOf(input, byName[n], n) && IsLastOf(input, byName[n])
    requires T.Pending(input, [], first, indeg0)
    requires WellFormed(input) ==> AtLevel(input, [], [], indeg0, first)
    ensures WellFormed(input) ==> AtLevel(input, levels, done, indeg, [])
    ensures processed == |done| && NamesInOrder(Flattened(levels)) == done && T.Pending(input, done, [], indeg)
    ensures AllLast(input, levels)
  {
    hide IsLastOf, T.Pending, Flattened, AtLevel, Counted, NextIs, ReadyNames, Names, Deps, WellFormed, Sort, Elements;
    indeg, levels, processed, done := indeg0, [], 0, [];
    NothingFlattened();
    var current := first;
    while |current| > 0
      invariant indeg.Keys == Names(input) && Elements(current) <= Names(input) && processed == |done|
      invariant WellFormed(input) ==> AtLevel(input, levels, done, indeg, current)
      invariant AllLast(input, levels)
      invariant T.Pending(input, done, current, indeg) && NamesInOrder(Flattened(levels)) == done
      decreases |T.Positive(indeg)| + |current|
    {
      ghost var was, indegWas := current, indeg;
      SortKeeps(current);
      current := Sort(current);
      var level := PickLevel(input, byName, current);
      if WellFormed(input) { LevelFacts(input, levels, done, indeg, was); }
      var next;
      T.TakenPending(input, done, was, indeg);
      indeg, next := ReleaseLevel(input, Elements(done), done + current, current, indeg);
      FlattenedSnoc(levels, level);
      if WellFormed(input) { LevelAdded(input, levels, done, indegWas, was, level, indeg, next); }
      levels := levels + [level];
      processed := processed + |current|;
      done := done + current;
      current := next;
    }
    assert current == [];
  }

  lemma LevelsAreCorrect(input: seq<Entry>, levels: seq<seq<Entry>>, done: seq<string>, indeg: map<string, int>)
    requires WellFormed(input) && AtLevel(input, levels, done, indeg, [])
    ensures |done| == |input| ==> Correct(input, Layered(levels))
    ensures |done| != |input| ==> HasCycle(input)
    ensures forall n :: n in Names(input) && n !in done <==> n in Names(input) && ReachesCycle(input, n)
    ensures T.Positive(indeg) == Names(input) - Elements(done)
  {
    hide ByDepth, Deps;
    NothingReady(input, done);
    forall n ensures n in Names(input) && n !in done <==> n in Names(input) && ReachesCycle(input, n) {
      LeftOverIffReachesCycle(input, done, n);
    }
    CycleIffReached(input);
    OrderlyIsDistinct(input, done);
    if |done| == |input| {
      T.AllDone(input, done);
      NoCycleWhenDone(input, done);
    } else {
      T.SomeoneLeft(input, done);
      var n :| n in Names(input) && n !in done;
      assert ReachesCycle(input, n);
    }
    PositiveIsLeft(input, done, indeg);
  }

  lemma NoCycleWhenDone(input: seq<Entry>, done: seq<string>)
    requires Orderly(input, done) && Elements(done) == Names(input)
    ensures !HasCycle(input)
  {
    if HasCycle(input) {
      var p :| IsCycle(input, p);
      CycleIsReached(input, p);
      DoneReachesNoCycle(input, done, p[0]);
    }
  }

  lemma NothingReady(input: seq<Entry>, done: seq<string>)
    requires Elements([]) == ReadyNames(input, Elements(done))
    ensures Exhausted(input, done)
  {
    forall n ensures !Ready(input, done, n) {
      assert n !in ReadyNames(input, Elements(done));
    }
  }

  lemma PositiveIsLeft(input: seq<Entry>, done: seq<string>, indeg: map<string, int>)
    requires Orderly(input, done) && Counted(input, Elements(done), indeg) && ReadyNames(input, Elements(done)) == {}
    ensures T.Positive(indeg) == Names(input) - Elements(done)
  {
    OrderlyDepsInside(input, done);
    forall n | n in Names(input) ensures n in T.Positive(indeg) <==> n !in done {
      assert indeg[n] == |Deps(input, n) - Elements(done)|;
      assert n !in ReadyNames(input, Elements(done));
      if n in done {
        assert Deps(input, n) - Elements(done) == {};
      } else {
        assert !(Deps(input, n) <= Elements(done));
        var d :| d in Deps(input, n) && d !in Elements(done);
        T.NotEmpty(Deps(input, n) - Elements(done), d);
      }
    }
  }

  /** Main result: distinct members split into levels by depth, or the error
      names exactly the members that reach a cycle. Every declared name is
      there as often as it is declared, as the last member of that name, so nobody
      is lost exactly when different members have different names. */
  method LevelsOf(input: seq<Entry>) returns (r: Outcome)
    requires NamesPresent(input)
    ensures r.UnknownDependency? <==> !DepsKnown(input)
    ensures r.UnknownDependency? ==>
        r.dep !in Names(input) && exists e :: IsEntryOf(input, e, r.name) && r.dep in e.dependsOn
    ensures r.Layered? ==> AllLast(input, r.levels)
    ensures r.Layered? ==>
      && multiset(NamesInOrder(Flattened(r.levels))) == multiset(NamesInOrder(input))
      && ((forall e :: e in input ==> e in Flattened(r.levels)) <==> NamesTellApart(input))
    ensures WellFormed(input) ==> Correct(input, r)
  {
    hide AllLast, IsLastOf, T.Pending, Sparing, NamesTellApart, Flattened, Deps, Names, AtLevel, Correct, DepsKnown,
        Distinct, Sorted, Elements, T.Positive;
    var complete, byName := T.IndexByName(input);
    var unknown, indeg := T.CountAll(input);
    if unknown != [] {
      T.UnknownIsUnknown(input, unknown[0], unknown[1]);
      return UnknownDependency(unknown[0], unknown[1]);
    }
    var first := FirstLevel(input, indeg);
    var levels, processed;
    ghost var done;
    levels, processed, indeg, done := Layer(input, byName, indeg, first);
    if WellFormed(input) { LevelsAreCorrect(input, levels, done, indeg); }
    if processed != |input| {
      var stuck := T.Stuck(indeg);
      if WellFormed(input) { StuckIsCorrect(input, done, indeg, stuck); }
      return Cycle(stuck);
    }
    NothingLost(input, levels, done, indeg);
    r := Layered(levels);
  }

  lemma NothingLost(input: seq<Entry>, levels: seq<seq<Entry>>, done: seq<string>, indeg: map<string, int>)
    requires AllLast(input, levels) && NamesInOrder(Flattened(levels)) == done && |done| == |input|
    requires T.Pending(input, done, [], indeg)
    ensures multiset(NamesInOrder(Flattened(levels))) == multiset(NamesInOrder(input))
    ensures (forall e :: e in input ==> e in Flattened(levels)) <==> NamesTellApart(input)
  {
    hide IsLastOf, T.Pending, Sparing, NamesTellApart, Flattened, AllLast;
    T.PendingEnds(input, done, [], indeg);
    T.AllComeUp(input, Flattened(levels), indeg);
    FlattenedLast(input, levels);
    NothingLostIff(input, Flattened(levels));
  }

  lemma StuckIsCorrect(input: seq<Entry>, done: seq<string>, indeg: map<string, int>, stuck: seq<string>)
    requires HasCycle(input) && Sorted(stuck) && Distinct(stuck) && Elements(stuck) == T.Positive(indeg)
    requires forall n :: n in Names(input) && n !in done <==> n in Names(input) && ReachesCycle(input, n)
    requires T.Positive(indeg) == Names(input) - Elements(done)
    ensures Correct(input, Cycle(stuck))
  {
    hide Sorted, Distinct, T.Positive, Names, ReachesCycle, HasCycle;
    forall n ensures n in stuck <==> n in Names(input) && ReachesCycle(input, n) {
      assert n in stuck <==> n in Elements(stuck);
      assert n in done <==> n in Elements(done);
    }
  }
}
