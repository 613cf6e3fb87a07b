/** The workspace run as interleaved steps of members under a semaphore. */
module Workspace {
  import opened Basics
  import opened Trees

  type Member = string

  datatype Config = Config(
    levels: seq<seq<Member>>, parallel: int, atomic: bool, continueOnError: bool, healthGate: bool, uninstall: bool)

  /** A member's goroutine: running, result recorded, semaphore slot given back, finished. */
  datatype Phase = Running | Recorded | Released | Finished

  datatype Result = Result(member: Member, ok: bool)

  datatype Outcome = Refused | Succeeded | Failed | GateFailed

  /** phases holds one entry per started member of the current level. */
  datatype State = State(
    level: nat, phases: seq<Phase>, completed: seq<Result>, failures: nat,
    uninstalled: seq<Member>, outcome: Option<Outcome>)

  function Slots(c: Config): nat {
    if c.parallel < 1 then 1 else c.parallel
  }

  function Current(c: Config, s: State): seq<Member> {
    if s.level < |c.levels| then c.levels[s.level] else []
  }

  /** Semaphore slots taken. */
  function InFlight(ps: seq<Phase>): nat {
    multiset(ps)[Running] + multiset(ps)[Recorded]
  }

  function Successes(rs: seq<Result>): seq<Member> {
    if rs == [] then []
    else
      var last := rs[|rs| - 1];
      Successes(rs[..|rs| - 1]) + if last.ok then [last.member] else []
  }

  function FailuresOf(rs: seq<Result>): nat {
    if rs == [] then 0 else FailuresOf(rs[..|rs| - 1]) + if rs[|rs| - 1].ok then 0 else 1
  }

  /** Lists the recorded successes and uninstalls them, last recorded first. */
  method RollbackWorkspace(completed: seq<Result>) returns (attempted: seq<Member>)
    ensures attempted == Reversed(Successes(completed))
  {
    var successes: seq<Member> := [];
    for i := 0 to |completed|
      invariant successes == Successes(completed[..i])
    {
      assert completed[..i + 1][..i] == completed[..i];
      if completed[i].ok {
        successes := successes + [completed[i].member];
      }
    }
    assert completed[..|completed|] == completed;
    attempted := [];
    var i := |successes|;
    while i > 0
      invariant 0 <= i <= |successes|
      invariant attempted == Reversed(successes[i..])
    {
      i := i - 1;
      assert Reversed(successes[i..]) == Reversed(successes[i + 1..]) + [successes[i]];
      attempted := attempted + [successes[i]];
    }
    assert successes[0..] == successes;
  }

  // ----- the steps -----

  function Init(c: Config): State {
    State(0, [], [], 0, [], if c.atomic && c.continueOnError then Some(Refused) else None)
  }

  datatype Step = Start | Record(j: nat, ok: bool) | Release(j: nat) | Finish(j: nat) | EndLevel(healthy: bool) | EndRun

  predicate Enabled(c: Config, s: State, step: Step) {
    s.outcome.None? &&
    match step
    case Start => |s.phases| < |Current(c, s)| && InFlight(s.phases) < Slots(c)
    case Record(j, _) => j < |s.phases| <= |Current(c, s)| && s.phases[j] == Running
    case Release(j) => j < |s.phases| && s.phases[j] == Recorded
    case Finish(j) => j < |s.phases| && s.phases[j] == Released
    case EndLevel(_) => s.level < |c.levels| && |s.phases| == |Current(c, s)| && forall j :: 0 <= j < |s.phases| ==>
        s.phases[j] == Finished
    case EndRun => s.level == |c.levels|
  }

  function Next(c: Config, s: State, step: Step): State
    requires Enabled(c, s, step)
  {
    match step
    case Start => s.(phases := s.phases + [Running])
    case Record(j, ok) =>
      s.(phases := s.phases[j := Recorded], completed := s.completed + [Result(Current(c, s)[j], ok)],
         failures := s.failures + if ok then 0 else 1)
    case Release(j) => s.(phases := s.phases[j := Released])
    case Finish(j) => s.(phases := s.phases[j := Finished])
    case EndLevel(healthy) =>
      if c.healthGate && !c.uninstall && !healthy && !c.continueOnError then s.(outcome := Some(GateFailed))
      else if s.failures > 0 && !c.continueOnError then
        s.(outcome := Some(Failed), uninstalled := if c.atomic then Reversed(Successes(s.completed)) else [])
      else s.(level := s.level + 1, phases := [])
    case EndRun => s.(outcome := Some(if s.failures > 0 then Failed else Succeeded))
  }

  // ----- what every reachable state keeps -----

  ghost predicate DistinctMembers(c: Config) {
    forall l, j, k, i ::
      0 <= l < |c.levels| && 0 <= j < |c.levels[l]| && 0 <= k < |c.levels| && 0 <= i < |c.levels[k]| ==>
        c.levels[l][j] == c.levels[k][i] ==> l == k && j == i
  }

  ghost predicate IsRecorded(rs: seq<Result>, m: Member) {
    exists i :: 0 <= i < |rs| && rs[i].member == m
  }

  /** Position j of level l has been recorded: an earlier level, or past the running phase. */
  ghost predicate Past(s: State, l: nat, j: nat) {
    l < s.level || (l == s.level && j < |s.phases| && s.phases[j] != Running)
  }

  /** What is recorded is what is past. */
  ghost predicate RecordedIsPast(c: Config, s: State) {
    forall l, j :: 0 <= l < |c.levels| && 0 <= j < |c.levels[l]| ==>
        (IsRecorded(s.completed, c.levels[l][j]) <==> Past(s, l, j))
  }

  ghost predicate IsMember(c: Config, m: Member) {
    exists l, j :: 0 <= l < |c.levels| && 0 <= j < |c.levels[l]| && c.levels[l][j] == m
  }

  ghost predicate RecordsFit(c: Config, s: State) {
    && RecordedIsPast(c, s)
    && (forall i :: 0 <= i < |s.completed| ==> IsMember(c, s.completed[i].member))
    && (forall i, j :: 0 <= i < j < |s.completed| ==> s.completed[i].member != s.completed[j].member)
  }

  ghost predicate Good(c: Config, s: State) {
    && s.level <= |c.levels| && |s.phases| <= |Current(c, s)|
    && InFlight(s.phases) <= Slots(c)
    && s.failures == FailuresOf(s.completed)
  }

  /** How a run may have ended, and what the end means. */
  ghost predicate EndsWell(c: Config, s: State) {
    match s.outcome
    case None => s.uninstalled == [] && !(c.atomic && c.continueOnError)
        && (!c.continueOnError && s.phases == [] ==> s.failures == 0)
    case Some(Refused) => c.atomic && c.continueOnError && s.completed == [] && s.uninstalled == []
    case Some(Succeeded) => s.failures == 0 && s.level == |c.levels| && s.uninstalled == []
    case Some(Failed) =>
      && s.failures > 0 && (c.continueOnError <==> s.level == |c.levels|)
      && s.uninstalled == if c.atomic then Reversed(Successes(s.completed)) else []
    case Some(GateFailed) =>
      && c.healthGate && !c.uninstall && !c.continueOnError
      && s.level < |c.levels| && s.uninstalled == []
  }

  /** Without continue-on-error the only failures are those of the level under way. */
  ghost predicate FailsFast(c: Config, s: State) {
    !c.continueOnError ==> forall i :: 0 <= i < |s.completed| && !s.completed[i].ok ==>
        s.completed[i].member in Current(c, s)
  }

  ghost predicate Invariant(c: Config, s: State) {
    Good(c, s) && RecordsFit(c, s) && EndsWell(c, s) && FailsFast(c, s)
  }

  lemma InitInvariant(c: Config)
    ensures Invariant(c, Init(c))
  {
  }

  lemma StepKeepsGood(c: Config, s: State, step: Step)
    requires Good(c, s) && Enabled(c, s, step)
    ensures Good(c, Next(c, s, step))
  {
    hide InFlight, Successes, Reversed, FailuresOf;
    match step {
      case Start => InFlightSnoc(s.phases, Running);
      case Record(j, ok) =>
        FailuresSnoc(s.completed, Result(Current(c, s)[j], ok));
        InFlightUpdate(s.phases, j, Recorded);
      case Release(j) => InFlightUpdate(s.phases, j, Released);
      case Finish(j) => InFlightUpdate(s.phases, j, Finished);
      case _ => NoneInFlight();
    }
  }

  lemma FailuresSnoc(rs: seq<Result>, r: Result)
    ensures FailuresOf(rs + [r]) == FailuresOf(rs) + if r.ok then 0 else 1
  {
    assert (rs + [r])[..|rs|] == rs;
  }

  function Slot(p: Phase): nat {
    if p == Running || p == Recorded then 1 else 0
  }

  lemma InFlightSnoc(ps: seq<Phase>, p: Phase)
    ensures InFlight(ps + [p]) == InFlight(ps) + Slot(p)
  {
  }

  lemma InFlightUpdate(ps: seq<Phase>, j: nat, p: Phase)
    requires j < |ps|
    ensures InFlight(ps[j := p]) == InFlight(ps) - Slot(ps[j]) + Slot(p)
  {
  }

  lemma NoneInFlight()
    ensures InFlight([]) == 0
  {
  }

  lemma RecordIsPast(c: Config, s: State, j: nat, ok: bool)
    requires DistinctMembers(c) && RecordedIsPast(c, s) && Enabled(c, s, Record(j, ok))
    ensures RecordedIsPast(c, Next(c, s, Record(j, ok)))
    ensures !IsRecorded(s.completed, Current(c, s)[j])
  {
    hide InFlight, IsRecorded;
    var t := Next(c, s, Record(j, ok));
    var m := Current(c, s)[j];
    assert m == c.levels[s.level][j] && !Past(s, s.level, j);
    forall l, k | 0 <= l < |c.levels| && 0 <= k < |c.levels[l]|
      ensures IsRecorded(t.completed, c.levels[l][k]) <==> Past(t, l, k)
    {
      RecordedMore(s.completed, Result(m, ok), c.levels[l][k]);
    }
  }

  lemma RecordKeepsFit(c: Config, s: State, j: nat, ok: bool)
    requires DistinctMembers(c) && RecordsFit(c, s) && Enabled(c, s, Record(j, ok))
    ensures RecordsFit(c, Next(c, s, Record(j, ok)))
  {
    hide InFlight, RecordedIsPast, DistinctMembers, IsMember;
    RecordIsPast(c, s, j, ok);
    IsAMember(c, s, j);
    var t := Next(c, s, Record(j, ok));
    forall i | 0 <= i < |s.completed| ensures t.completed[i] == s.completed[i] {}
  }

  lemma IsAMember(c: Config, s: State, j: nat)
    requires j < |Current(c, s)|
    ensures IsMember(c, Current(c, s)[j])
  {
    assert c.levels[s.level][j] == Current(c, s)[j];
  }

  lemma RecordedMore(rs: seq<Result>, r: Result, m: Member)
    ensures IsRecorded(rs + [r], m) <==> IsRecorded(rs, m) || r.member == m
  {
    var all := rs + [r];
    assert all[|rs|] == r;
    if IsRecorded(rs, m) {
      var i :| 0 <= i < |rs| && rs[i].member == m;
      assert all[i].member == m;
    }
  }

  lemma StepKeepsFit(c: Config, s: State, step: Step)
    requires DistinctMembers(c) && RecordsFit(c, s) && Enabled(c, s, step)
    ensures RecordsFit(c, Next(c, s, step))
  {
    hide InFlight, IsRecorded, DistinctMembers, IsMember;
    if step.Record? {
      RecordKeepsFit(c, s, step.j, step.ok);
    } else {
      var t := Next(c, s, step);
      forall l: nat, j: nat | l < |c.levels| && j < |c.levels[l]| ensures Past(t, l, j) <==> Past(s, l, j) {}
    }
  }

  lemma StepEndsWell(c: Config, s: State, step: Step)
    requires Good(c, s) && EndsWell(c, s) && Enabled(c, s, step)
    ensures EndsWell(c, Next(c, s, step))
  {
  }

  lemma {:induction false} NoFailures(rs: seq<Result>)
    ensures FailuresOf(rs) == 0 <==> forall i :: 0 <= i < |rs| ==> rs[i].ok
  {
    if rs != [] {
      NoFailures(rs[..|rs| - 1]);
      assert forall i :: 0 <= i < |rs| - 1 ==> rs[..|rs| - 1][i] == rs[i];
    }
  }

  lemma StepFailsFast(c: Config, s: State, step: Step)
    requires Good(c, s) && FailsFast(c, s) && Enabled(c, s, step)
    ensures FailsFast(c, Next(c, s, step))
  {
    NoFailures(s.completed);
  }

  // ----- runs -----

  ghost predicate Taken(c: Config, run: seq<State>, steps: seq<Step>, i: nat)
    requires i < |steps| && |run| == |steps| + 1
  {
    Enabled(c, run[i], steps[i]) && run[i + 1] == Next(c, run[i], steps[i])
  }

  ghost predicate IsRun(c: Config, run: seq<State>, steps: seq<Step>) {
    |run| == |steps| + 1 && run[0] == Init(c) && forall i :: 0 <= i < |steps| ==> Taken(c, run, steps, i)
  }

  /** Main result: the invariant holds in every state of every interleaving. */
  lemma {:induction false} RunKeepsInvariant(c: Config, run: seq<State>, steps: seq<Step>, i: nat)
    requires DistinctMembers(c) && IsRun(c, run, steps) && i < |run|
    ensures Invariant(c, run[i])
  {
    hide Invariant, Enabled, Next, Init, DistinctMembers;
    if i == 0 {
      InitInvariant(c);
    } else {
      RunKeepsInvariant(c, run, steps, i - 1);
      assert Taken(c, run, steps, i - 1);
      StepKeepsInvariant(c, run[i - 1], steps[i - 1]);
    }
  }

  lemma StepKeepsInvariant(c: Config, s: State, step: Step)
    requires DistinctMembers(c) && Invariant(c, s) && Enabled(c, s, step)
    ensures Invariant(c, Next(c, s, step))
  {
    hide Good, RecordsFit, EndsWell, FailsFast, DistinctMembers, Enabled, Next;
    StepKeepsGood(c, s, step);
    StepKeepsFit(c, s, step);
    StepEndsWell(c, s, step);
    StepFailsFast(c, s, step);
  }

  /** A slot is taken by every member that is running or has only been recorded. */
  lemma {:induction false} InFlightAre(ps: seq<Phase>)
    ensures |set j | 0 <= j < |ps| && ps[j] in {Running, Recorded}| == InFlight(ps)
    decreases |ps|
  {
    if ps == [] {
      NoneInFlight();
    } else {
      var n := |ps| - 1;
      InFlightAre(ps[..n]);
      InFlightSnoc(ps[..n], ps[n]);
      assert ps == ps[..n] + [ps[n]];
      var before, all := set j | 0 <= j < n && ps[..n][j] in {Running, Recorded},
                         set j | 0 <= j < |ps| && ps[j] in {Running, Recorded};
      assert all == before + if ps[n] in {Running, Recorded} then {n} else {};
    }
  }

  /** Main result: a member starts only when a slot is free and every member of
      every earlier level has its result recorded, a success unless the run
      continues on errors. */
  lemma LevelBarrier(c: Config, s: State)
    requires DistinctMembers(c) && Invariant(c, s) && Enabled(c, s, Start)
    ensures var phases := Next(c, s, Start).phases;
            |set j | 0 <= j < |phases| && phases[j] in {Running, Recorded}| <=
              if c.parallel < 1 then 1 else c.parallel
    ensures forall l, j :: 0 <= l < s.level && 0 <= j < |c.levels[l]| ==> IsRecorded(s.completed, c.levels[l][j])
    ensures !c.continueOnError ==>
      forall l, j, i :: 0 <= l < s.level && 0 <= j < |c.levels[l]| && 0 <= i < |s.completed| ==>
        s.completed[i].member == c.levels[l][j] ==> s.completed[i].ok
  {
    StepKeepsGood(c, s, Start);
    InFlightAre(Next(c, s, Start).phases);
    forall l, j | 0 <= l < s.level && 0 <= j < |c.levels[l]| ensures IsRecorded(s.completed, c.levels[l][j]) {
      assert Past(s, l, j);
    }
    forall l, j, i | !c.continueOnError && 0 <= l < s.level && 0 <= j < |c.levels[l]| && 0 <= i < |s.completed|
        && s.completed[i].member == c.levels[l][j]
      ensures s.completed[i].ok
    {
      forall k | 0 <= k < |Current(c, s)| ensures Current(c, s)[k] != c.levels[l][j] {
        assert c.levels[s.level][k] == Current(c, s)[k];
      }
    }
  }

  // ----- every run ends -----

  function Rank(p: Phase): nat {
    match p case Running => 1 case Recorded => 2 case Released => 3 case Finished => 4
  }

  function Weight(ps: seq<Phase>): (w: nat)
    ensures w <= 4 * |ps|
  {
    if ps == [] then 0 else Weight(ps[..|ps| - 1]) + Rank(ps[|ps| - 1])
  }

  lemma {:induction false} WeightUpdate(ps: seq<Phase>, j: nat, p: Phase)
    requires j < |ps|
    ensures Weight(ps[j := p]) == Weight(ps) - Rank(ps[j]) + Rank(p)
    decreases |ps|
  {
    var n := |ps| - 1;
    if j == n {
      assert ps[j := p][..n] == ps[..n];
    } else {
      WeightUpdate(ps[..n], j, p);
      assert ps[j := p][..n] == ps[..n][j := p];
    }
  }

  lemma WeightSnoc(ps: seq<Phase>, p: Phase)
    ensures Weight(ps + [p]) == Weight(ps) + Rank(p)
  {
    assert (ps + [p])[..|ps|] == ps;
  }

  function Work(levels: seq<seq<Member>>, l: nat): nat
    requires l <= |levels|
    decreases |levels| - l
  {
    if l == |levels| then 0 else 4 * |levels[l]| + Work(levels, l + 1)
  }

  /** Steps that can still be taken. */
  function StepsLeft(c: Config, s: State): int
    requires s.level <= |c.levels|
  {
    if s.outcome.Some? then 0 else 1 + (|c.levels| - s.level) + Work(c.levels, s.level) - Weight(s.phases)
  }

  lemma EveryStepCounts(c: Config, s: State, step: Step)
    requires Good(c, s) && Enabled(c, s, step)
    ensures Next(c, s, step).level <= |c.levels| && 0 <= StepsLeft(c, Next(c, s, step)) < StepsLeft(c, s)
  {
    hide InFlight, Weight, Slots, FailuresOf, Successes;
    match step {
      case Start => WeightSnoc(s.phases, Running);
      case Record(j, _) => WeightUpdate(s.phases, j, Recorded);
      case Release(j) => WeightUpdate(s.phases, j, Released);
      case Finish(j) => WeightUpdate(s.phases, j, Finished);
      case _ =>
    }
  }

  /** Main result: no interleaving gets stuck. */
  lemma NeverStuck(c: Config, s: State)
    requires Invariant(c, s) && s.outcome.None?
    ensures exists step :: Enabled(c, s, step)
  {
    if s.level == |c.levels| {
      assert Enabled(c, s, EndRun);
    } else if j :| 0 <= j < |s.phases| && s.phases[j] != Finished {
      match s.phases[j] {
        case Running => assert Enabled(c, s, Record(j, true));
        case Recorded => assert Enabled(c, s, Release(j));
        case Released => assert Enabled(c, s, Finish(j));
      }
    } else {
      assert Running !in s.phases && Recorded !in s.phases;
      if |s.phases| < |Current(c, s)| {
        assert Enabled(c, s, Start);
      } else {
        assert Enabled(c, s, EndLevel(true));
      }
    }
  }

  /** Main result: no interleaving takes more than four steps a member, one a level and one at the end. */
  lemma {:induction false} RunsAreBounded(c: Config, run: seq<State>, steps: seq<Step>, i: nat)
    requires DistinctMembers(c) && IsRun(c, run, steps) && i < |run|
    ensures run[i].level <= |c.levels| && 0 <= StepsLeft(c, run[i]) <= 1 + |c.levels| + Work(c.levels, 0) - i
  {
    hide Enabled, Next, DistinctMembers, RecordsFit, EndsWell, FailsFast, InFlight, Weight, FailuresOf;
    RunKeepsInvariant(c, run, steps, i);
    if i > 0 {
      RunsAreBounded(c, run, steps, i - 1);
      RunKeepsInvariant(c, run, steps, i - 1);
      assert Taken(c, run, steps, i - 1);
      EveryStepCounts(c, run[i - 1], steps[i - 1]);
    }
  }

  // ----- what the end means -----

  lemma {:induction false} SuccessesAre(rs: seq<Result>, m: Member)
    ensures m in Successes(rs) <==> exists i :: 0 <= i < |rs| && rs[i] == Result(m, true)
  {
    if rs != [] {
      var n := |rs| - 1;
      SuccessesAre(rs[..n], m);
      assert forall i :: 0 <= i < n ==> rs[..n][i] == rs[i];
    }
  }

  /** Main result: an atomic run that fails uninstalls exactly the members whose
      success was recorded; any other end uninstalls nothing. */
  lemma AtomicUninstallsSuccesses(c: Config, s: State, m: Member)
    requires Invariant(c, s) && s.outcome.Some?
    ensures m in s.uninstalled <==>
        c.atomic && s.outcome.value.Failed? && exists i :: 0 <= i < |s.completed| && s.completed[i] == Result(m, true)
  {
    SuccessesAre(s.completed, m);
    ReversedHas(Successes(s.completed), m);
  }

  /** They are uninstalled in the opposite order: what was recorded later goes first. */
  lemma UninstalledInReverse(c: Config, s: State, i: nat, j: nat)
    requires Invariant(c, s) && s.outcome.Some? && i < j < |s.uninstalled|
    ensures exists p, q ::
              && 0 <= q < p < |s.completed|
              && s.completed[p] == Result(s.uninstalled[i], true) && s.completed[q] == Result(s.uninstalled[j], true)
  {
    hide Good, RecordsFit, FailsFast, Successes, Reversed;
    var n := |Successes(s.completed)|;
    assert s.uninstalled == Reversed(Successes(s.completed));
    var q, p := SuccessesInOrder(s.completed, n - 1 - j, n - 1 - i);
    assert s.completed[p] == Result(s.uninstalled[i], true) && s.completed[q] == Result(s.uninstalled[j], true);
  }

  lemma {:induction false} SuccessAt(rs: seq<Result>, i: nat) returns (p: nat)
    requires i < |Successes(rs)|
    ensures p < |rs| && rs[p] == Result(Successes(rs)[i], true)
    decreases |rs|
  {
    var n := |rs| - 1;
    if i < |Successes(rs[..n])| {
      p := SuccessAt(rs[..n], i);
    } else {
      p := n;
    }
  }

  lemma {:induction false} SuccessesInOrder(rs: seq<Result>, i: nat, j: nat) returns (p: nat, q: nat)
    requires i < j < |Successes(rs)|
    ensures p < q < |rs| && rs[p] == Result(Successes(rs)[i], true) && rs[q] == Result(Successes(rs)[j], true)
    decreases |rs|
  {
    var n := |rs| - 1;
    if j < |Successes(rs[..n])| {
      p, q := SuccessesInOrder(rs[..n], i, j);
    } else {
      p := SuccessAt(rs[..n], i);
      q := n;
    }
  }

  lemma AllUninstalled(s: State)
    ensures (forall m :: m in Successes(s.completed) ==> m in Reversed(Successes(s.completed)))
  {
    forall m | m in Successes(s.completed) ensures m in Reversed(Successes(s.completed)) {
      ReversedHas(Successes(s.completed), m);
    }
  }

  /** Main result: an atomic run that does not succeed leaves no recorded success
      installed exactly unless it is stopped by an unhealthy level, where the
      gate is on, and some member had succeeded. */
  lemma RolledBackIff(c: Config, run: seq<State>, steps: seq<Step>)
    requires DistinctMembers(c) && IsRun(c, run, steps) && c.atomic && !c.continueOnError
    requires run[|steps|].outcome.Some? && !run[|steps|].outcome.value.Succeeded?
    ensures var s := run[|steps|];
            && steps != []
            && ((forall m :: m in Successes(s.completed) ==> m in s.uninstalled) <==>
                !(c.healthGate && !c.uninstall && steps[|steps| - 1] == EndLevel(false))
                || Successes(s.completed) == [])
  {
    hide DistinctMembers, Successes, Reversed, RecordsFit, FailsFast, InFlight, FailuresOf;
    var n := |steps|;
    RunKeepsInvariant(c, run, steps, n);
    AllUninstalled(run[n]);
    assert n > 0;
    assert Taken(c, run, steps, n - 1);
    RunKeepsInvariant(c, run, steps, n - 1);
    if Successes(run[n].completed) != [] { assert Successes(run[n].completed)[0] in Successes(run[n].completed); }
  }

  const LONE_GATED := Config([["a"]], 1, true, false, true, false)

  const GATED_STEPS := [Start, Record(0, true), Release(0), Finish(0), EndLevel(false)]

  function GatedState(i: nat): State {
    State(0, if i == 0 then [] else if i == 1 then [Running] else if i == 2 then [Recorded] else if i == 3
        then [Released] else [Finished],
      if i < 2 then [] else [Result("a", true)], 0, [], if i < 5 then None else Some(GateFailed))
  }

  lemma GatedStep(i: nat)
    requires i < 5
    ensures Enabled(LONE_GATED, GatedState(i), GATED_STEPS[i])
    ensures Next(LONE_GATED, GatedState(i), GATED_STEPS[i]) == GatedState(i + 1)
  {
    hide InFlight, Successes, Reversed;
    NoneInFlight();
    assert Current(LONE_GATED, GatedState(i)) == ["a"];
  }

  /** A run of one member that works but does not become ready: it stays installed. */
  lemma GateLeavesInstalled() returns (run: seq<State>)
    ensures LONE_GATED.atomic && DistinctMembers(LONE_GATED) && IsRun(LONE_GATED, run, GATED_STEPS)
    ensures run[5].outcome == Some(GateFailed) && run[5].completed == [Result("a", true)] && run[5].uninstalled == []
  {
    hide Enabled, Next;
    run := seq(6, i requires 0 <= i < 6 => GatedState(i));
    forall i | 0 <= i < 5 ensures Taken(LONE_GATED, run, GATED_STEPS, i) { GatedStep(i); }
  }

  /** Main result: success is reported exactly when every member was recorded as a success. */
  lemma SuccessMeansAll(c: Config, s: State)
    requires DistinctMembers(c) && Invariant(c, s) && s.outcome.Some? && !s.outcome.value.Refused?
        && !s.outcome.value.GateFailed?
    ensures s.outcome.value.Succeeded? <==> forall i :: 0 <= i < |s.completed| ==> s.completed[i].ok
    ensures s.outcome.value.Succeeded? || c.continueOnError ==>
              forall l, j :: 0 <= l < |c.levels| && 0 <= j < |c.levels[l]| ==> IsRecorded(s.completed, c.levels[l][j])
  {
    NoFailures(s.completed);
    if s.level == |c.levels| {
      forall l, j | 0 <= l < |c.levels| && 0 <= j < |c.levels[l]| ensures IsRecorded(s.completed, c.levels[l][j]) {
        assert Past(s, l, j);
      }
    }
  }
}
