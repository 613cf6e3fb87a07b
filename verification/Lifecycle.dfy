/** Whole runs of installs, upgrades, rollbacks and uninstalls in any order,
    over any number of releases, with failures anywhere. Nothing but the status
    of a stored revision ever changes, so rolling back brings back what was recorded. */
module Lifecycle {
  import opened Records
  import opened Storage
  import opened Cluster
  import History
  import Steps
  import I = Install
  import U = Upgrade
  import R = Rollback
  import X = Uninstall

  datatype Operation =
    | Install(name: string, rendering: Steps.Rendering, opts: Steps.Options)
    | Upgrade(name: string, rendering: Steps.Rendering, install: bool, opts: Steps.Options)
    | Rollback(name: string, rollback: R.Options)
    | Uninstall(name: string, uninstall: X.Options)

  /** A revision a rollback added repeats the target its options name. */
  ghost predicate AddsRepeat(before: Store, after: Store, name: string, opts: R.Options) {
    forall k {:trigger after[k]} :: k in after && k !in before ==>
      exists at: Key, target: Key :: Repeats(before, name, opts, at, target) && k == Key(name, at.revision + 1)
          && after[k].payload == before[target].payload
  }

  ghost predicate Repeats(before: Store, name: string, opts: R.Options, at: Key, target: Key) {
    && at.name == name && Newest(before, at)
    && target == Key(name, R.TargetRevision(opts, at.revision)) && target in before
  }

  /** What any single operation does to the store. */
  ghost predicate StepOf(before: Store, after: Store, op: Operation) {
    && Evolves(before, after, op.name)
    && (op.Rollback? ==> AddsRepeat(before, after, op.name, op.rollback))
    && (op.Uninstall? ==> after.Keys <= before.Keys)
  }

  /** The stores a run passes through, one before and after every operation. */
  ghost predicate IsRun(trace: seq<Store>, ops: seq<Operation>) {
    && |trace| == |ops| + 1
    && forall i {:trigger ops[i]} :: 0 <= i < |ops| ==> StepOf(trace[i], trace[i + 1], ops[i])
  }

  method Step(storage: ReleaseStorage, client: KubeClient, op: Operation)
    requires storage.Intact()
    modifies storage, client
    ensures storage.Intact() && StepOf(old(storage.records), storage.records, op)
  {
    hide Faithful, Evolves, Holds, AgreeOutside, SoleDeployed, Newest, KeepsNewest, AddsRepeat;
    ghost var before := storage.records;
    match op {
      case Install(name, rendering, opts) =>
        var _ := I.Install(storage, client, name, rendering, opts);
      case Upgrade(name, rendering, install, opts) =>
        var _ := U.Upgrade(storage, client, name, rendering, install, opts);
      case Rollback(name, opts) =>
        ghost var created := storage.created;
        var result := R.Rollback(storage, client, name, opts);
        if result.Refused? {
          NothingAdded(before, name, opts);
        } else {
          RepeatAdded(before, created, storage.records, storage.created, name, opts, result);
        }
      case Uninstall(name, opts) =>
        var _ := X.Uninstall(storage, client, name, opts);
    }
  }

  lemma NothingAdded(before: Store, name: string, opts: R.Options)
    ensures AddsRepeat(before, before, name, opts)
  {
  }

  lemma RepeatAdded(before: Store, was: map<Key, Payload>, after: Store, created: map<Key, Payload>, name: string,
      opts: R.Options, result: R.Result)
    requires !result.Refused? && Faithful(before, was) && Faithful(after, created)
    requires R.Repeats(before, was, name, opts, result)
    requires after.Keys <= before.Keys + {result.rel.At()} && created == was[result.rel.At() := result.rel.payload]
    ensures AddsRepeat(before, after, name, opts)
  {
    assert Repeats(before, name, opts, result.current.At(), result.target.At());
    assert before[result.target.At()].payload == was[result.target.At()];
  }

  /** Main result: whatever fails on the way, no operation of a run alters what
      any stored revision recorded, and the run is a chain of single steps. */
  method Run(storage: ReleaseStorage, client: KubeClient, ops: seq<Operation>) returns (ghost trace: seq<Store>)
    requires storage.Intact()
    modifies storage, client
    ensures storage.Intact() && IsRun(trace, ops)
    ensures trace[0] == old(storage.records) && trace[|ops|] == storage.records
  {
    hide StepOf, Faithful;
    trace := [storage.records];
    for i := 0 to |ops|
      invariant storage.Intact() && IsRun(trace, ops[..i]) && trace[0] == old(storage.records)
        && trace[i] == storage.records
    {
      Step(storage, client, ops[i]);
      LongerRun(trace, ops[..i], storage.records, ops[i]);
      trace := trace + [storage.records];
      assert ops[..i] + [ops[i]] == ops[..i + 1];
    }
    assert ops[..|ops|] == ops;
  }

  lemma LongerRun(trace: seq<Store>, ops: seq<Operation>, after: Store, op: Operation)
    requires IsRun(trace, ops) && StepOf(trace[|ops|], after, op)
    ensures IsRun(trace + [after], ops + [op])
  {
    hide StepOf;
    var t, o := trace + [after], ops + [op];
    forall i | 0 <= i < |o| ensures StepOf(t[i], t[i + 1], o[i]) {
      if i < |ops| { assert o[i] == ops[i]; }
    }
  }

  /** A revision that stays stored between two points of a run. */
  ghost predicate StaysStored(trace: seq<Store>, i: nat, j: nat, k: Key)
    requires i <= j < |trace|
  {
    forall m {:trigger trace[m]} :: i <= m <= j ==> k in trace[m]
  }

  lemma {:induction false} OnlyStatusEverChanges(trace: seq<Store>, ops: seq<Operation>, i: nat, j: nat, k: Key)
    requires IsRun(trace, ops) && i <= j < |trace| && StaysStored(trace, i, j, k)
    ensures k in trace[i] && k in trace[j] && trace[j][k] == trace[i][k].(status := trace[j][k].status)
    decreases j - i
  {
    if i < j {
      assert StaysStored(trace, i, j - 1, k);
      OnlyStatusEverChanges(trace, ops, i, j - 1, k);
      assert StepOf(trace[j - 1], trace[j], ops[j - 1]);
      assert Evolves(trace[j - 1], trace[j], ops[j - 1].name);
      assert k in trace[j];
    }
  }

  /** Main result: however long ago revision N was recorded, and whatever
      happened since, rolling back to N creates a revision with what N recorded. */
  lemma RollbackRestoresWhatWasRecorded(trace: seq<Store>, ops: seq<Operation>, i: nat, j: nat, n: int, added: Key)
    requires IsRun(trace, ops) && i <= j < |ops| && StaysStored(trace, i, j, Key(ops[j].name, n))
    requires ops[j].Rollback? && ops[j].rollback.revision == n && n != 0
    requires added in trace[j + 1] && added !in trace[j]
    ensures Key(ops[j].name, n) in trace[i]
    ensures trace[j + 1][added].payload == trace[i][Key(ops[j].name, n)].payload
  {
    var k := Key(ops[j].name, n);
    OnlyStatusEverChanges(trace, ops, i, j, k);
    assert StepOf(trace[j], trace[j + 1], ops[j]);
    assert AddsRepeat(trace[j], trace[j + 1], ops[j].name, ops[j].rollback);
    assert trace[j + 1][added].payload == trace[j][k].payload;
  }

  /** Operations on other releases leave every record of a release alone. */
  lemma {:induction false} OtherReleasesAreUntouched(trace: seq<Store>, ops: seq<Operation>, i: nat, j: nat,
      name: string)
    requires IsRun(trace, ops) && i <= j < |trace| && forall m :: i <= m < j ==> ops[m].name != name
    ensures RevisionsOf(trace[j], name) == RevisionsOf(trace[i], name)
    ensures forall k :: k in RevisionsOf(trace[i], name) ==> k in trace[j] && trace[j][k] == trace[i][k]
    decreases j - i
  {
    if i < j {
      OtherReleasesAreUntouched(trace, ops, i, j - 1, name);
      StepSparesOthers(trace[j - 1], trace[j], ops[j - 1], name);
    }
  }

  lemma StepSparesOthers(before: Store, after: Store, op: Operation, name: string)
    requires StepOf(before, after, op) && op.name != name
    ensures RevisionsOf(after, name) == RevisionsOf(before, name)
    ensures forall k :: k in RevisionsOf(before, name) ==> k in after && after[k] == before[k]
  {
    assert OthersSame(before, after, op.name);
    forall k: Key | k.name == name ensures k in before <==> k in after {}
  }
}
