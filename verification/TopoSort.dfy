/** The release sort: Kahn's algorithm over a queue that is kept in name order. */
module TopoSort {
  import opened StringOrder
  import opened ReleaseGraph

  datatype Outcome =
    | Ordered(order: seq<Entry>)
    | MissingName
    | UnknownDependency(name: string, dep: string)
    | Cycle(stuck: seq<string>)

  function Positive(indeg: map<string, int>): set<string> {
    set n | n in indeg && indeg[n] > 0
  }

  /** Between two rounds: who is done, how many dependencies each name still
      waits for, and a queue holding exactly the ready names in order. */
  ghost predicate Invariant(input: seq<Entry>, done: seq<string>, indeg: map<string, int>, queue: seq<string>) {
    && LeastFirst(input, done)
    && indeg.Keys == Names(input)
    && (forall n {:trigger indeg[n]} :: n in indeg ==> indeg[n] == |Deps(input, n) - Elements(done)|)
    && Sorted(queue) && Distinct(queue)
    && (forall n :: n in queue <==> Ready(input, done, n))
  }

  ghost predicate Scanning(input: seq<Entry>, done: seq<string>, name: string, scanned: set<string>,
      indeg: map<string, int>, queue: seq<string>) {
    && indeg.Keys == Names(input)
    && (forall n {:trigger indeg[n]} :: n in indeg ==> indeg[n] == |Waits(input, Elements(done), name, scanned, n)|)
    && Sorted(queue) && Distinct(queue)
    && (forall n :: n in queue <==>
        n in indeg && n !in done && n != name && Waits(input, Elements(done), name, scanned, n) == {})
  }

  lemma LeastFirstGrows(input: seq<Entry>, done: seq<string>, name: string)
    requires LeastFirst(input, done) && Ready(input, done, name)
    requires forall m :: Ready(input, done, m) ==> LessEq(name, m)
    ensures LeastFirst(input, done + [name])
  {
    hide Ready, LessEq;
    var done' := done + [name];
    assert done'[..|done|] == done;
    forall k | 0 <= k < |done| ensures done'[..k] == done[..k] && done'[k] == done[k] {}
  }

  lemma HeadIsLeast(input: seq<Entry>, done: seq<string>, queue: seq<string>)
    requires Sorted(queue) && queue != [] && forall n :: n in queue <==> Ready(input, done, n)
    ensures forall m :: Ready(input, done, m) ==> LessEq(queue[0], m)
  {
    hide Ready;
    forall m | Ready(input, done, m) ensures LessEq(queue[0], m) {
      var i :| 0 <= i < |queue| && queue[i] == m;
      if i == 0 { Reflexive(m); }
    }
  }

  lemma ReadyIffNoWaits(input: seq<Entry>, done: seq<string>, n: string)
    ensures Ready(input, done, n) <==> n in Names(input) && n !in done && Deps(input, n) - Elements(done) == {}
  {
    hide Deps, Names, Elements;
    var deps, finished := Deps(input, n), Elements(done);
    assert deps <= finished <==> deps - finished == {} by {
      assert deps <= finished + (deps - finished);
    }
  }

  lemma WaitsUnscanned(input: seq<Entry>, done: seq<string>, name: string, n: string)
    ensures Waits(input, Elements(done), name, {}, n) == Deps(input, n) - Elements(done)
  {
    hide Deps, Elements;
  }

  lemma WaitsScanned(input: seq<Entry>, done: seq<string>, name: string, scanned: set<string>, n: string)
    requires n in scanned
    ensures Waits(input, Elements(done), name, scanned, n) == Deps(input, n) - Elements(done + [name])
  {
    hide Deps;
    assert Elements(done + [name]) == Elements(done) + {name};
  }

  lemma ScanStarts(input: seq<Entry>, done: seq<string>, indeg: map<string, int>, queue: seq<string>)
    requires Invariant(input, done, indeg, queue) && queue != []
    ensures Scanning(input, done, queue[0], {}, indeg, queue[1..])
    ensures LeastFirst(input, done) && Ready(input, done, queue[0]) && LeastFirst(input, done + [queue[0]])
  {
    hide Deps, Names, LessEq, Elements, Ready, Waits, LeastFirst;
    var name := queue[0];
    assert queue == [name] + queue[1..];
    HeadIsLeast(input, done, queue);
    LeastFirstGrows(input, done, name);
    forall n ensures Waits(input, Elements(done), name, {}, n) == Deps(input, n) - Elements(done) {
      WaitsUnscanned(input, done, name, n);
    }
    forall n ensures n in queue[1..] <==>
        n in indeg && n !in done && n != name && Waits(input, Elements(done), name, {}, n) == {} {
      ReadyIffNoWaits(input, done, n);
      WaitsUnscanned(input, done, name, n);
      assert n in queue <==> n in queue[1..] || n == name;
    }
  }

  lemma ScanEnds(input: seq<Entry>, done: seq<string>, name: string, indeg: map<string, int>, queue: seq<string>)
    requires Scanning(input, done, name, Names(input), indeg, queue) && LeastFirst(input, done + [name])
    ensures Invariant(input, done + [name], indeg, queue)
  {
    hide Deps, Names, LessEq, LeastFirst, Elements, Ready, Waits;
    var done' := done + [name];
    forall n | n in Names(input) ensures Waits(input, Elements(done), name, Names(input), n)
        == Deps(input, n) - Elements(done') {
      WaitsScanned(input, done, name, Names(input), n);
    }
    forall n ensures n in queue <==> Ready(input, done', n) {
      ReadyIffNoWaits(input, done', n);
    }
  }

  lemma NotEmpty(waits: set<string>, name: string)
    requires name in waits
    ensures |waits - {name}| == |waits| - 1
    ensures |waits| == 1 <==> waits - {name} == {}
  {
    assert waits == {name} + (waits - {name});
  }

  lemma DependentWaits(input: seq<Entry>, done: seq<string>, name: string, scanned: set<string>, n: string)
    requires LeastFirst(input, done) && Ready(input, done, name) && name in Deps(input, n) && n !in scanned
    ensures n != name && n !in done && name in Waits(input, Elements(done), name, scanned, n)
  {
    forall k | 0 <= k < |done| ensures done[k] != n {
      assert Ready(input, done[..k], done[k]);
    }
  }

  /** An entry that does not depend on `name` waits for the same as before. */
  lemma ScanSkips(input: seq<Entry>, done: seq<string>, name: string, scanned: set<string>, n: string,
      indeg: map<string, int>, queue: seq<string>)
    requires Scanning(input, done, name, scanned, indeg, queue) && name !in Deps(input, n)
    ensures Scanning(input, done, name, scanned + {n}, indeg, queue)
  {
    hide Deps, Names, Sorted, Distinct, Elements;
    forall k ensures Waits(input, Elements(done), name, scanned + {n}, k)
        == Waits(input, Elements(done), name, scanned, k) {}
  }

  /** An entry that depends on `name` waits for one name less, and joins the
      queue when that was the last one. */
  lemma ScanReleases(input: seq<Entry>, done: seq<string>, name: string, scanned: set<string>, n: string,
      indeg: map<string, int>, queue: seq<string>)
    requires Scanning(input, done, name, scanned, indeg, queue) && name in Deps(input, n)
    requires LeastFirst(input, done) && Ready(input, done, name) && n in indeg && n !in scanned
    ensures indeg[n] > 0
    ensures Scanning(input, done, name, scanned + {n}, indeg[n := indeg[n] - 1], if indeg[n] == 1
        then Sort(queue + [n]) else queue)
  {
    hide Deps, Names, Sorted, Distinct, LeastFirst, Elements, Ready, Waits, Sort;
    var waits := Waits(input, Elements(done), name, scanned, n);
    DependentWaits(input, done, name, scanned, n);
    NotEmpty(waits, name);
    forall k ensures Waits(input, Elements(done), name, scanned + {n}, k) == if k == n
        then waits - {name} else Waits(input, Elements(done), name, scanned, k) {
      WaitsAfter(input, Elements(done), name, scanned, n, k);
    }
    if indeg[n] == 1 {
      JoinQueue(queue, n);
    }
  }

  lemma JoinQueue(queue: seq<string>, n: string)
    requires Sorted(queue) && Distinct(queue) && n !in queue
    ensures Sorted(Sort(queue + [n])) && Distinct(Sort(queue + [n]))
    ensures forall k :: k in Sort(queue + [n]) <==> k in queue || k == n
  {
    SortKeeps(queue + [n]);
    forall k ensures k in Sort(queue + [n]) <==> k in queue || k == n {
      assert k in Elements(Sort(queue + [n])) <==> k in Elements(queue + [n]);
    }
  }

  // ----- the method -----

  /** Counts the distinct dependencies of one entry, or finds an unknown one. */
  method CountDeps(e: Entry, names: set<string>) returns (unknown: seq<string>, count: nat)
    ensures unknown == [] ==> Elements(e.dependsOn) <= names && count == |Elements(e.dependsOn)|
    ensures unknown != [] ==> |unknown| == 1 && unknown[0] in e.dependsOn && unknown[0] !in names
  {
    count := 0;
    var seen: set<string> := {};
    for i := 0 to |e.dependsOn|
      invariant seen == Elements(e.dependsOn[..i]) && seen <= names && count == |seen|
    {
      var d := e.dependsOn[i];
      assert Elements(e.dependsOn[..i + 1]) == Elements(e.dependsOn[..i]) + {d};
      if d !in names {
        return [d], 0;
      }
      if d !in seen {
        seen := seen + {d};
        count := count + 1;
      }
    }
    assert e.dependsOn[..|e.dependsOn|] == e.dependsOn;
    unknown := [];
  }

  /** The in-degrees add up over entries that share a name. */
  method CountAll(input: seq<Entry>) returns (unknown: seq<string>, indeg: map<string, int>)
    requires NamesPresent(input)
    ensures unknown == [] ==> DepsKnown(input) && indeg.Keys == Names(input)
    ensures unknown == [] && WellFormed(input) ==>
      forall n {:trigger indeg[n]} :: n in indeg ==> indeg[n] == |Deps(input, n)|
    ensures unknown != [] ==>
        && |unknown| == 2 && unknown[1] !in Names(input)
        && exists e :: IsEntryOf(input, e, unknown[0]) && unknown[1] in e.dependsOn
  {
    indeg := map n | n in Names(input) :: 0;
    for i := 0 to |input|
      invariant indeg.Keys == Names(input)
      invariant forall j, d :: 0 <= j < i && d in input[j].dependsOn ==> d in Names(input)
      invariant WellFormed(input) ==> forall n {:trigger indeg[n]} :: n in indeg ==>
        indeg[n] == if n in Names(input[..i]) then |Deps(input, n)| else 0
    {
      var e := input[i];
      var bad, count := CountDeps(e, Names(input));
      if bad != [] {
        assert IsEntryOf(input, e, e.name);
        return [e.name, bad[0]], indeg;
      }
      if WellFormed(input) {
        NextName(input, i);
        EntryDeps(input, e);
      }
      forall d | d in e.dependsOn ensures d in Names(input) { assert d in Elements(e.dependsOn); }
      indeg := indeg[e.name := indeg[e.name] + count];
    }
    assert input[..|input|] == input;
    unknown := [];
  }

  lemma NextName(input: seq<Entry>, m: nat)
    requires WellFormed(input) && m < |input|
    ensures input[m].name !in Names(input[..m]) && Names(input[..m + 1]) == Names(input[..m]) + {input[m].name}
  {
    var names := NamesInOrder(input);
    forall i | 0 <= i < m ensures input[..m][i].name != input[m].name {
      assert names[i] != names[m];
    }
    NamesSnoc(input, m);
  }

  lemma NamesSnoc(input: seq<Entry>, m: nat)
    requires m < |input|
    ensures Names(input[..m + 1]) == Names(input[..m]) + {input[m].name}
  {
    forall x | x in Names(input[..m]) ensures x in Names(input[..m + 1]) {
      var i :| 0 <= i < m && input[..m][i].name == x;
      assert input[..m + 1][i].name == x;
    }
    assert input[..m + 1][m].name == input[m].name;
    forall x | x in Names(input[..m + 1]) ensures x in Names(input[..m]) + {input[m].name} {
      var i :| 0 <= i < m + 1 && input[..m + 1][i].name == x;
      if i < m { assert input[..m][i].name == x; }
    }
  }

  /** The names queued so far are declared as often and wait for nothing. */
  ghost predicate FirstUp(input: seq<Entry>, i: nat, queue: seq<string>, indeg: map<string, int>)
    requires i <= |input|
  {
    && multiset(queue) <= multiset(NamesInOrder(input[..i]))
    && forall n :: n in queue ==> n in indeg && indeg[n] == 0
  }

  lemma NoneUp(input: seq<Entry>, indeg: map<string, int>)
    ensures FirstUp(input, 0, [], indeg)
  {
  }

  lemma FirstUpNext(input: seq<Entry>, i: nat, queue: seq<string>, indeg: map<string, int>)
    requires i < |input| && FirstUp(input, i, queue, indeg)
    ensures FirstUp(input, i + 1, queue, indeg)
    ensures input[i].name in indeg && indeg[input[i].name] == 0 ==>
        FirstUp(input, i + 1, queue + [input[i].name], indeg)
  {
    assert NamesInOrder(input[..i + 1]) == NamesInOrder(input[..i]) + [input[i].name];
  }

  lemma FirstUpSpares(input: seq<Entry>, queue: seq<string>, indeg: map<string, int>)
    requires FirstUp(input, |input|, queue, indeg)
    ensures Sparing(input, multiset(Sort(queue)), indeg)
  {
    assert input[..|input|] == input;
  }

  lemma SortSame(ss: seq<string>)
    ensures forall n :: n in Sort(ss) <==> n in ss
  {
    hide Sort;
    forall n ensures n in Sort(ss) <==> n in ss {
      assert n in multiset(Sort(ss)) <==> n in multiset(ss);
    }
  }

  lemma ReadyFirst(input: seq<Entry>, n: string)
    ensures Ready(input, [], n) <==> n in Names(input) && |Deps(input, n)| == 0
    ensures Deps(input, n) - Elements([]) == Deps(input, n)
  {
    hide Deps, Names;
    assert Elements([]) == {};
  }

  lemma QueueStarts(input: seq<Entry>, indeg: map<string, int>, queue: seq<string>)
    requires indeg.Keys == Names(input) && Distinct(queue)
    requires forall n {:trigger indeg[n]} :: n in indeg ==> indeg[n] == |Deps(input, n)|
    requires forall n :: n in queue <==> n in Names(input) && n in indeg && indeg[n] == 0
    ensures Invariant(input, [], indeg, Sort(queue))
  {
    hide Deps, Names, Ready, Sort, Elements, LessEq;
    SortKeeps(queue);
    SortSame(queue);
    forall n ensures Deps(input, n) - Elements([]) == Deps(input, n) && (n in Sort(queue) <==> Ready(input, [], n)) {
      ReadyFirst(input, n);
      assert n in indeg ==> indeg[n] == |Deps(input, n)|;
    }
  }

  /** The names nobody has to wait for, in name order. */
  method InitialQueue(input: seq<Entry>, indeg: map<string, int>) returns (queue: seq<string>)
    requires indeg.Keys == Names(input)
    ensures Elements(queue) <= Names(input) && Sparing(input, multiset(queue), indeg)
    ensures WellFormed(input) && (forall n {:trigger indeg[n]} :: n in indeg ==> indeg[n] == |Deps(input, n)|) ==>
      Invariant(input, [], indeg, queue)
  {
    hide FirstUp, Sparing, Invariant, Sort, Deps;
    queue := [];
    NoneUp(input, indeg);
    for i := 0 to |input|
      invariant Elements(queue) <= Names(input)
      invariant FirstUp(input, i, queue, indeg)
      invariant WellFormed(input) ==> Distinct(queue) && forall n :: n in queue <==>
        n in Names(input[..i]) && n in indeg && indeg[n] == 0
    {
      NamesSnoc(input, i);
      FirstUpNext(input, i, queue, indeg);
      if WellFormed(input) { NextName(input, i); }
      assert input[i].name in Names(input);
      if indeg[input[i].name] == 0 {
        queue := queue + [input[i].name];
      }
    }
    SortKeeps(queue);
    FirstUpSpares(input, queue, indeg);
    assert input[..|input|] == input;
    if WellFormed(input) && forall n {:trigger indeg[n]} :: n in indeg ==> indeg[n] == |Deps(input, n)| {
      QueueStarts(input, indeg, queue);
    }
    queue := Sort(queue);
  }

  lemma PositiveShrinks(indeg: map<string, int>, n: string)
    requires n in indeg
    ensures Positive(indeg[n := indeg[n] - 1]) == if indeg[n] == 1 then Positive(indeg) - {n} else Positive(indeg)
    ensures indeg[n] == 1 ==> |Positive(indeg[n := indeg[n] - 1])| == |Positive(indeg)| - 1
  {
    if indeg[n] == 1 { NotEmpty(Positive(indeg), n); }
  }

  ghost predicate Pending(input: seq<Entry>, done: seq<string>, queue: seq<string>, indeg: map<string, int>) {
    Sparing(input, multiset(done) + multiset(queue), indeg)
  }

  lemma StaysPending(input: seq<Entry>, done: seq<string>, queue: seq<string>, indeg: map<string, int>, n: string)
    requires Pending(input, done, queue, indeg) && n in indeg && n in Names(input)
    ensures Pending(input, done, if indeg[n] == 1 then Sort(queue + [n]) else queue, indeg[n := indeg[n] - 1])
  {
    hide Sparing;
    StaysSparing(input, multiset(done) + multiset(queue), indeg, n);
    assert multiset(done) + multiset(Sort(queue + [n])) == multiset(done) + multiset(queue) + multiset{n};
  }

  lemma StaysPendingUnsorted(input: seq<Entry>, done: seq<string>, queue: seq<string>, indeg: map<string, int>,
      n: string)
    requires Pending(input, done, queue, indeg) && n in indeg && n in Names(input)
    ensures Pending(input, done, if indeg[n] == 1 then queue + [n] else queue, indeg[n := indeg[n] - 1])
  {
    StaysPending(input, done, queue, indeg, n);
    assert multiset(Sort(queue + [n])) == multiset(queue + [n]);
  }

  lemma SortedPending(input: seq<Entry>, queue: seq<string>, indeg: map<string, int>)
    requires Sparing(input, multiset(Sort(queue)), indeg)
    ensures Pending(input, [], queue, indeg)
  {
    hide Sparing, Sort;
    assert multiset([]) + multiset(queue) == multiset(Sort(queue));
  }

  /** What is queued may be sorted, and taken off all at once. */
  lemma TakenPending(input: seq<Entry>, done: seq<string>, queue: seq<string>, indeg: map<string, int>)
    requires Pending(input, done, queue, indeg)
    ensures Pending(input, done + Sort(queue), [], indeg)
  {
    hide Sparing, Sort;
    assert multiset(Sort(queue)) == multiset(queue);
    assert multiset(done + Sort(queue)) + multiset([]) == multiset(done) + multiset(queue);
  }

  lemma NextPending(input: seq<Entry>, done: seq<string>, queue: seq<string>, indeg: map<string, int>)
    requires queue != [] && Pending(input, done, queue, indeg)
    ensures Pending(input, done + [queue[0]], queue[1..], indeg)
  {
    hide Sparing;
    assert queue == [queue[0]] + queue[1..];
    assert multiset(done) + multiset(queue) == multiset(done + [queue[0]]) + multiset(queue[1..]);
  }

  lemma PendingEnds(input: seq<Entry>, done: seq<string>, queue: seq<string>, indeg: map<string, int>)
    ensures Pending(input, [], queue, indeg) <==> Sparing(input, multiset(queue), indeg)
    ensures Pending(input, done, [], indeg) <==> Sparing(input, multiset(done), indeg)
  {
    assert multiset([]) + multiset(queue) == multiset(queue);
    assert multiset(done) + multiset([]) == multiset(done);
  }

  lemma NoNames()
    ensures Names([]) == {}
  {
  }

  lemma NameIsDeclared(input: seq<Entry>, i: nat)
    requires i < |input|
    ensures input[i].name in Names(input)
    ensures forall d :: d in input[i].dependsOn <==> d in Elements(input[i].dependsOn)
  {
  }

  lemma QueueGrows(queue: seq<string>, n: string)
    ensures |Sort(queue + [n])| == |queue| + 1 && Elements(Sort(queue + [n])) == Elements(queue) + {n}
  {
    SortKeeps(queue + [n]);
  }

  /** Tells every dependent of `name` that it waits for one release less. */
  method Scan(input: seq<Entry>, ghost done: seq<string>, name: string, indeg: map<string, int>, queue: seq<string>)
    returns (indeg': map<string, int>, queue': seq<string>)
    requires indeg.Keys == Names(input) && Elements(queue) <= Names(input)
    requires WellFormed(input) ==>
        Scanning(input, done, name, {}, indeg, queue) && LeastFirst(input, done)
        && Ready(input, done, name)
    requires Pending(input, done + [name], queue, indeg)
    ensures indeg'.Keys == Names(input) && Elements(queue') <= Names(input)
    ensures Pending(input, done + [name], queue', indeg')
    ensures |Positive(indeg')| + |queue'| <= |Positive(indeg)| + |queue|
    ensures WellFormed(input) ==> Scanning(input, done, name, Names(input), indeg', queue')
  {
    hide Pending, Scanning, Sort, Elements, Names, Deps, Waits, Positive, LeastFirst, Ready;
    NoNames();
    indeg', queue' := indeg, queue;
    for i := 0 to |input|
      invariant indeg'.Keys == Names(input) && Elements(queue') <= Names(input)
      invariant Pending(input, done + [name], queue', indeg')
      invariant |Positive(indeg')| + |queue'| <= |Positive(indeg)| + |queue|
      invariant WellFormed(input) ==> Scanning(input, done, name, Names(input[..i]), indeg', queue')
    {
      var n := input[i].name;
      NamesSnoc(input, i);
      NameIsDeclared(input, i);
      if WellFormed(input) {
        NextName(input, i);
        EntryDeps(input, input[i]);
        if name in input[i].dependsOn {
          ScanReleases(input, done, name, Names(input[..i]), n, indeg', queue');
        } else {
          ScanSkips(input, done, name, Names(input[..i]), n, indeg', queue');
        }
      }
      if name in input[i].dependsOn {
        PositiveShrinks(indeg', n);
        StaysPending(input, done + [name], queue', indeg', n);
        indeg' := indeg'[n := indeg'[n] - 1];
        if indeg'[n] == 0 {
          QueueGrows(queue', n);
          queue' := Sort(queue' + [n]);
        }
      }
    }
    assert input[..|input|] == input;
  }

  /** What a sort of well-formed entries returns. */
  ghost predicate Correct(input: seq<Entry>, r: Outcome) {
    match r
    case Ordered(order) =>
      && !HasCycle(input)
      && IsTopological(input, order) && LeastFirst(input, NamesInOrder(order))
      && forall other :: IsTopological(input, other) ==> ListLessEq(NamesInOrder(order), NamesInOrder(other))
    case Cycle(stuck) =>
      && HasCycle(input)
      && Sorted(stuck) && Distinct(stuck)
      && forall n :: n in stuck <==> n in Names(input) && ReachesCycle(input, n)
    case _ => false
  }

  lemma StaysLast(input: seq<Entry>, i: nat, e: Entry)
    requires i < |input| && IsLastOf(input[..i], e) && input[i].name != e.name
    ensures IsLastOf(input[..i + 1], e)
  {
    var some, more := input[..i], input[..i + 1];
    var k :| 0 <= k < |some| && some[k] == e && forall j :: k < j < |some| ==> some[j].name != e.name;
    assert more[k] == e;
    forall j | k < j < |more| ensures more[j].name != e.name {
      if j < i { assert more[j] == some[j]; }
    }
  }

  lemma BecomesLast(input: seq<Entry>, i: nat)
    requires i < |input|
    ensures IsLastOf(input[..i + 1], input[i])
  {
    assert input[..i + 1][i] == input[i];
  }

  method IndexByName(input: seq<Entry>) returns (complete: bool, byName: map<string, Entry>)
    ensures complete <==> NamesPresent(input)
    ensures complete ==> byName.Keys == Names(input)
    ensures complete ==> forall n {:trigger byName[n]} :: n in byName ==>
        IsEntryOf(input, byName[n], n) && IsLastOf(input, byName[n])
  {
    hide IsLastOf;
    byName := map[];
    for i := 0 to |input|
      invariant NamesPresent(input[..i]) && byName.Keys == Names(input[..i])
      invariant forall n {:trigger byName[n]} :: n in byName ==>
        IsEntryOf(input, byName[n], n) && IsLastOf(input[..i], byName[n])
    {
      NamesSnoc(input, i);
      if input[i].name == "" {
        return false, byName;
      }
      forall n | n in byName && n != input[i].name ensures IsLastOf(input[..i + 1], byName[n]) {
        StaysLast(input, i, byName[n]);
      }
      BecomesLast(input, i);
      byName := byName[input[i].name := input[i]];
    }
    assert input[..|input|] == input;
    complete := true;
  }

  /** Takes names off the queue until it is empty. */
  method Drain(input: seq<Entry>, byName: map<string, Entry>, indeg0: map<string, int>, queue0: seq<string>)
    returns (out: seq<Entry>, indeg: map<string, int>)
    requires indeg0.Keys == byName.Keys == Names(input) && Elements(queue0) <= Names(input)
    requires forall n {:trigger byName[n]} :: n in byName ==> IsEntryOf(input, byName[n], n)
    requires Sparing(input, multiset(queue0), indeg0)
    requires WellFormed(input) ==> Invariant(input, [], indeg0, queue0)
    ensures Sparing(input, multiset(NamesInOrder(out)), indeg)
    ensures forall k :: 0 <= k < |out| ==> out[k] in input && out[k] in byName.Values
    ensures WellFormed(input) ==> Invariant(input, NamesInOrder(out), indeg, [])
  {
    hide Invariant, Scanning, LeastFirst, Ready, Deps, Names, WellFormed, Sparing, Pending;
    indeg := indeg0;
    var queue := queue0;
    out := [];
    assert NamesInOrder(out) == [];
    PendingEnds(input, [], queue, indeg);
    while |queue| > 0
      invariant indeg.Keys == Names(input) && Elements(queue) <= Names(input)
      invariant forall k :: 0 <= k < |out| ==> out[k] in input && out[k] in byName.Values
      invariant WellFormed(input) ==> Invariant(input, NamesInOrder(out), indeg, queue)
      invariant Pending(input, NamesInOrder(out), queue, indeg)
      decreases |Positive(indeg)| + |queue|
    {
      var name := queue[0];
      ghost var done := NamesInOrder(out);
      assert name in Elements(queue);
      if WellFormed(input) { ScanStarts(input, done, indeg, queue); }
      assert Elements(queue[1..]) <= Elements(queue);
      out := out + [byName[name]];
      assert NamesInOrder(out) == done + [name];
      NextPending(input, done, queue, indeg);
      indeg, queue := Scan(input, done, name, indeg, queue[1..]);
      if WellFormed(input) { ScanEnds(input, done, name, indeg, queue); }
    }
    assert queue == [];
    PendingEnds(input, NamesInOrder(out), [], indeg);
  }

  lemma AllComeUp(input: seq<Entry>, out: seq<Entry>, indeg: map<string, int>)
    requires Sparing(input, multiset(NamesInOrder(out)), indeg) && |out| == |input|
    ensures multiset(NamesInOrder(out)) == multiset(NamesInOrder(input))
  {
    var some, all := multiset(NamesInOrder(out)), multiset(NamesInOrder(input));
    assert |some| == |all|;
    assert all == some + (all - some);
    assert |all - some| == 0;
  }

  /** Main result: the error cases are told apart exactly, and well-formed
      entries sort into the least topological order or report exactly the names
      that reach a cycle. Every declared name comes out as often as it is declared, as
      the last entry of that name, so nothing is lost exactly when different
      entries have different names. */
  method TopoSortReleases(input: seq<Entry>) returns (r: Outcome)
    ensures r.MissingName? <==> !NamesPresent(input)
    ensures r.UnknownDependency? <==> NamesPresent(input) && !DepsKnown(input)
    ensures r.UnknownDependency? ==>
        r.dep !in Names(input) && exists e :: IsEntryOf(input, e, r.name) && r.dep in e.dependsOn
    ensures r.Ordered? ==>
      && multiset(NamesInOrder(r.order)) == multiset(NamesInOrder(input))
      && (forall k :: 0 <= k < |r.order| ==> IsLastOf(input, r.order[k]))
      && ((forall e :: e in input ==> e in r.order) <==> NamesTellApart(input))
    ensures WellFormed(input) ==> Correct(input, r)
  {
    hide IsLastOf, Correct, Sparing, NamesTellApart;
    var complete, byName := IndexByName(input);
    if !complete {
      return MissingName;
    }
    var unknown, indeg := CountAll(input);
    if unknown != [] {
      UnknownIsUnknown(input, unknown[0], unknown[1]);
      return UnknownDependency(unknown[0], unknown[1]);
    }
    var queue := InitialQueue(input, indeg);
    var out;
    out, indeg := Drain(input, byName, indeg, queue);
    if |out| != |input| {
      var stuck := Stuck(indeg);
      if WellFormed(input) { StuckIsCorrect(input, out, indeg, stuck); }
      return Cycle(stuck);
    }
    if WellFormed(input) { OrderIsCorrect(input, out, indeg); }
    AllComeUp(input, out, indeg);
    NothingLostIff(input, out);
    r := Ordered(out);
  }

  lemma UnknownIsUnknown(input: seq<Entry>, n: string, d: string)
    requires exists e :: IsEntryOf(input, e, n) && d in e.dependsOn && d !in Names(input)
    ensures !DepsKnown(input)
  {
    var e :| IsEntryOf(input, e, n) && d in e.dependsOn && d !in Names(input);
    var i :| 0 <= i < |input| && input[i] == e;
  }

  /** The names still waiting when the queue has run dry, in name order. */
  method Stuck(indeg: map<string, int>) returns (stuck: seq<string>)
    ensures Sorted(stuck) && Distinct(stuck) && Elements(stuck) == Positive(indeg)
  {
    stuck := [];
    var names := indeg.Keys;
    while names != {}
      invariant names <= indeg.Keys && Distinct(stuck)
      invariant Elements(stuck) == Positive(indeg) - names
      decreases |names|
    {
      var n :| n in names;
      names := names - {n};
      assert n !in Elements(stuck);
      if indeg[n] > 0 {
        assert Elements(stuck + [n]) == Elements(stuck) + {n};
        stuck := stuck + [n];
      }
    }
    SortKeeps(stuck);
    stuck := Sort(stuck);
  }

  lemma NothingIsReady(input: seq<Entry>, done: seq<string>, indeg: map<string, int>)
    requires Invariant(input, done, indeg, [])
    ensures Exhausted(input, done)
  {
    hide Ready, LeastFirst;
    forall n ensures !Ready(input, done, n) {
      assert n !in [];
    }
  }

  lemma PositiveIsLeftOver(input: seq<Entry>, done: seq<string>, indeg: map<string, int>)
    requires Invariant(input, done, indeg, [])
    ensures Positive(indeg) == Names(input) - Elements(done)
  {
    forall n | n in Names(input) ensures n in Positive(indeg) <==> n !in done {
      var waits := Deps(input, n) - Elements(done);
      assert indeg[n] == |waits|;
      if n in done {
        var k :| 0 <= k < |done| && done[k] == n;
        assert Ready(input, done[..k], n);
        assert waits == {};
      } else {
        assert n !in [];
        assert !Ready(input, done, n);
        ReadyIffNoWaits(input, done, n);
      }
    }
  }

  lemma StuckIsCorrect(input: seq<Entry>, out: seq<Entry>, indeg: map<string, int>, stuck: seq<string>)
    requires WellFormed(input) && Invariant(input, NamesInOrder(out), indeg, []) && |out| != |input|
    requires Sorted(stuck) && Distinct(stuck) && Elements(stuck) == Positive(indeg)
    ensures Correct(input, Cycle(stuck))
  {
    var done := NamesInOrder(out);
    NothingIsReady(input, done, indeg);
    LeastFirstIsOrderly(input, done);
    PositiveIsLeftOver(input, done, indeg);
    forall n ensures n in stuck <==> n in Names(input) && ReachesCycle(input, n) {
      LeftOverIffReachesCycle(input, done, n);
      assert n in stuck <==> n in Elements(stuck);
    }
    LeastFirstIsDistinct(input, done);
    SomeoneLeft(input, done);
    var n :| n in Names(input) && n !in done;
    LeftOverReachesCycle(input, done, n);
    CycleIffReached(input);
  }

  lemma SomeoneLeft(input: seq<Entry>, done: seq<string>)
    requires WellFormed(input) && Distinct(done) && Elements(done) <= Names(input) && |done| != |input|
    ensures exists n :: n in Names(input) && n !in done
  {
    DistinctSize(done);
    DistinctSize(NamesInOrder(input));
    NamesAsElements(input);
    var rest := Names(input) - Elements(done);
    assert Names(input) == Elements(done) + rest;
    var n :| n in rest;
  }

  lemma NamesAsElements(input: seq<Entry>)
    ensures Names(input) == Elements(NamesInOrder(input))
  {
    var names := NamesInOrder(input);
    forall n | n in Names(input) ensures n in names {
      var i :| 0 <= i < |input| && input[i].name == n;
      assert names[i] == n;
    }
  }

  lemma OrderIsCorrect(input: seq<Entry>, out: seq<Entry>, indeg: map<string, int>)
    requires WellFormed(input) && Invariant(input, NamesInOrder(out), indeg, []) && |out| == |input|
    requires forall k :: 0 <= k < |out| ==> out[k] in input
    ensures Correct(input, Ordered(out))
  {
    var done := NamesInOrder(out);
    LeastFirstIsTopological(input, out);
    forall other | IsTopological(input, other) ensures ListLessEq(done, NamesInOrder(other)) {
      LeastFirstIsLeast(input, done, other);
    }
    LeastFirstIsDistinct(input, done);
    LeastFirstIsOrderly(input, done);
    AllDone(input, done);
    if HasCycle(input) {
      var p :| IsCycle(input, p);
      assert Revisits(input, p[0], p);
      DoneReachesNoCycle(input, done, p[0]);
    }
  }

  lemma AllDone(input: seq<Entry>, done: seq<string>)
    requires WellFormed(input) && Distinct(done) && Elements(done) <= Names(input) && |done| == |input|
    ensures Elements(done) == Names(input)
  {
    DistinctSize(done);
    DistinctSize(NamesInOrder(input));
    NamesAsElements(input);
    var rest := Names(input) - Elements(done);
    assert Names(input) == Elements(done) + rest;
    assert |rest| == 0;
  }

  /** Main result: against the comment above the function the declared order is
      kept exactly when each entry is declared, at its turn, as the least by name
      of those whose dependencies stand before it. */
  lemma DeclaredOrderKeptIff(input: seq<Entry>, r: Outcome)
    requires WellFormed(input) && Correct(input, r) && r.Ordered?
    ensures r.order == input <==> LeastFirst(input, NamesInOrder(input))
  {
    hide LeastFirst, ListLessEq, HasCycle;
    var done, declared := NamesInOrder(r.order), NamesInOrder(input);
    if LeastFirst(input, declared) {
      assert |r.order| == |multiset(r.order)| == |multiset(input)| == |input|;
      LeastFirstIsUnique(input, done, declared, 0);
      forall k | 0 <= k < |input| ensures r.order[k] == input[k] {
        assert done[k] == declared[k];
        assert r.order[k] in multiset(r.order) && input[k] in multiset(input);
        SameNameSameEntry(input, r.order[k], input[k]);
      }
    }
  }

  /** An input: names that do not depend on each other come out in name order,
      and the first character counts most. */
  lemma DeclaredOrderIsNotKept()
    ensures forall r :: Correct([Entry("ba", "", []), Entry("ab", "", [])], r) && r.Ordered? ==>
              NamesInOrder(r.order) == ["ab", "ba"]
  {
    var ba, ab := Entry("ba", "", []), Entry("ab", "", []);
    var declared, sorted := [ba, ab], [ab, ba];
    assert multiset(sorted) == multiset(declared);
    assert IsTopological(declared, sorted);
    assert NamesInOrder(declared) == ["ba", "ab"] && NamesInOrder(sorted) == ["ab", "ba"];
    NotBefore();
    forall r | Correct(declared, r) && r.Ordered? ensures NamesInOrder(r.order) == ["ab", "ba"] {
      TwoInOrder(declared, r.order);
    }
  }

  lemma NotBefore()
    ensures !ListLessEq(["ba", "ab"], ["ab", "ba"])
  {
    assert ["ba", "ab"][0] == "ba" && ["ab", "ba"][0] == "ab";
    FromTheFront("ba", "ab");
    assert !LessEq("ba", "ab");
    forall k: nat | 0 < k < 2 ensures ["ba", "ab"][..k] != ["ab", "ba"][..k] {
      assert ["ba", "ab"][..k][0] != ["ab", "ba"][..k][0];
    }
  }

  lemma TwoInOrder(declared: seq<Entry>, order: seq<Entry>)
    requires declared == [Entry("ba", "", []), Entry("ab", "", [])] && multiset(order) == multiset(declared)
    requires NamesInOrder(order) != ["ba", "ab"]
    ensures NamesInOrder(order) == ["ab", "ba"]
  {
    assert |order| == |multiset(order)| == |multiset(declared)| == 2;
    assert order[0] in multiset(declared) && order[1] in multiset(declared);
    assert order == [order[0], order[1]];
    assert multiset(order) == multiset{order[0], order[1]};
    assert multiset(order)[order[0]] <= 1;
  }
}
