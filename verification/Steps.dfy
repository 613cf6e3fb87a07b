/** The steps installs and upgrades share: options, manifest comparison, and
    the walk through hooks, apply and waits that stops at the first failure. */
module Steps {
  import opened Records
  import opened Cluster

  datatype Stage = PreHook | Crds | ForceDelete | Apply | Jobs | Ready | PostHook

  datatype DryRun = Off | Client | Server

  datatype Options = Options(
    atomic: bool, cleanupOnFail: bool, force: bool, wait: bool, waitForJobs: bool,
    noHooks: bool, historyMax: int, dryRun: DryRun)

  /** What rendering the package produced; the CRD documents are also part of the manifest. */
  datatype Rendering = RenderFailed | Rendered(payload: Payload, crds: Manifest)

  /** The resources only the first manifest has; parsing either may fail. */
  method ComputeOrphanedManifest(failed: Manifest, previous: Manifest) returns (ok: bool, orphaned: Manifest)
    ensures ok ==> orphaned == Missing(failed, previous)
  {
    ok := *;
    orphaned := [];
    var previousKeys: set<string> := {};
    for i := 0 to |previous|
      invariant previousKeys == Keys(previous[..i])
    {
      KeysSnoc(previous, i);
      previousKeys := previousKeys + {previous[i].key};
    }
    assert previous[..|previous|] == previous;
    for i := 0 to |failed|
      invariant orphaned == Missing(failed[..i], previous)
    {
      assert failed[..i + 1][..i] == failed[..i];
      if failed[i].key in previousKeys {
        continue;
      }
      orphaned := orphaned + [failed[i]];
    }
    assert failed[..|failed|] == failed;
  }

  lemma KeysSnoc(m: Manifest, i: nat)
    requires i < |m|
    ensures Keys(m[..i + 1]) == Keys(m[..i]) + {m[i].key}
  {
    assert forall j :: 0 <= j < i ==> m[..i + 1][j] == m[..i][j];
    assert m[..i + 1][i] == m[i];
  }

  lemma OrphanIds(failed: Manifest, previous: Manifest)
    ensures DeletableIds(Missing(failed, previous)) <= Ids(failed)
    ensures forall r :: r in failed && r.key !in Keys(previous) && !r.keep ==>
        r.id in DeletableIds(Missing(failed, previous))
  {
    MissingMeaning(failed, previous);
    var orphans := Missing(failed, previous);
    forall i | 0 <= i < |orphans| ensures orphans[i].id in Ids(failed) {
      assert orphans[i] in orphans;
    }
    forall r | r in failed && r.key !in Keys(previous) && !r.keep ensures r.id in DeletableIds(orphans) {
      assert r in orphans;
    }
  }

  lemma DeletableOnlyIds(m: Manifest, only: set<string>)
    ensures DeletableOnly(m, only) <= DeletableIds(m) <= Ids(m)
  {
  }

  /** The keys of the new manifest that existed before it was applied, if they could be read. */
  datatype Snapshot = NoSnapshot | Existing(keys: set<string>)

  /** The keys of a manifest's resources that exist in the cluster. */
  function ExistingKeys(m: Manifest, objects: Objects): set<string> {
    set i | 0 <= i < |m| && m[i].id in objects :: m[i].key
  }

  /** The keys of existing resources that every lookup of them failed to find. */
  function Missed(m: Manifest, objects: Objects, answered: seq<bool>): set<string>
    requires |answered| == |m|
  {
    set i | 0 <= i < |m| && m[i].id in objects && NeverFound(m, objects, answered, m[i].key) :: m[i].key
  }

  predicate NeverFound(m: Manifest, objects: Objects, answered: seq<bool>, key: string)
    requires |answered| == |m|
  {
    forall j :: 0 <= j < |m| && m[j].key == key && m[j].id in objects ==> !answered[j]
  }

  /** Looks up every resource of the manifest. A lookup that fails for whatever
      reason counts as a no; `answered` tells which ones did not fail. */
  method SnapshotResources(client: KubeClient, manifest: Manifest)
      returns (snapshot: Snapshot, ghost answered: seq<bool>)
    ensures |answered| == |manifest|
    ensures snapshot.Existing? ==>
      snapshot.keys == ExistingKeys(manifest, client.objects) - Missed(manifest, client.objects, answered)
  {
    answered := [];
    var keys: set<string> := {};
    for i := 0 to |manifest|
      invariant |answered| == i
      invariant keys == set j | 0 <= j < i && answered[j] && manifest[j].id in client.objects :: manifest[j].key
    {
      var answer: bool := *;
      if answer && manifest[i].id in client.objects {
        keys := keys + {manifest[i].key};
      }
      answered := answered + [answer];
    }
    FoundUnlessMissed(manifest, client.objects, answered, keys);
    var parsed: bool := *;
    snapshot := if parsed then Existing(keys) else NoSnapshot;
  }

  lemma FoundUnlessMissed(m: Manifest, objects: Objects, answered: seq<bool>, keys: set<string>)
    requires |answered| == |m|
    requires keys == set j | 0 <= j < |m| && answered[j] && m[j].id in objects :: m[j].key
    ensures keys == ExistingKeys(m, objects) - Missed(m, objects, answered)
  {
    forall k | k in keys ensures k in ExistingKeys(m, objects) && k !in Missed(m, objects, answered) {
      var j :| 0 <= j < |m| && answered[j] && m[j].id in objects && m[j].key == k;
      assert !NeverFound(m, objects, answered, k);
    }
    forall k | k in ExistingKeys(m, objects) && k !in keys ensures k in Missed(m, objects, answered) {
      var i :| 0 <= i < |m| && m[i].id in objects && m[i].key == k;
      assert NeverFound(m, objects, answered, k);
    }
  }

  /** --force: deletes what cannot be changed in place before applying, or the
      whole previous manifest when that cannot be told. */
  method ForceDelete(client: KubeClient, previous: Manifest, needed: set<string>) returns (ok: bool)
    modifies client
    ensures AgreeOutside(old(client.objects), client.objects, DeletableIds(previous))
    ensures client.objects.Keys <= old(client.objects).Keys
    ensures ok ==>
      || client.objects == old(client.objects) - DeletableOnly(previous, needed)
      || client.objects == old(client.objects) - DeletableIds(previous)
    ensures !ok ==> exists only :: PartlyDeleted(old(client.objects), client.objects, previous, only)
  {
    var readable: bool := *;
    ok := true;
    DeletableOnlyIds(previous, needed);
    if !readable {
      ok := client.DeleteManifests(previous);
    } else if |needed| > 0 {
      ok := client.DeleteResources(previous, needed);
    } else {
      assert DeletableOnly(previous, needed) == {};
    }
  }

  datatype Progress = Finished | StoppedAt(stage: Stage)

  /** What a stop has done: before the manifest is applied nothing, the first few
      CRDs, or after all of those a part of the forced deletion; after it, all of it. */
  ghost predicate StoppedBefore(before: Objects, after: Objects, previous: Manifest, manifest: Manifest,
      crds: Manifest, stage: Stage)
  {
    match stage
    case PreHook => after == before
    case Crds => exists i :: 0 <= i <= |crds| && after == Laid(before, crds[..i])
    case ForceDelete => exists only :: PartlyDeleted(Laid(before, crds), after, previous, only)
    case Apply => AgreeOutside(before, after, Ids(previous) + Ids(manifest))
    case _ => Holds(after, manifest)
  }

  const ORDER := [PreHook, Crds, Stage.ForceDelete, Apply, Jobs, Ready, PostHook]

  predicate Asked(stage: Stage, crds: Manifest, opts: Options) {
    match stage
    case PreHook => !opts.noHooks
    case Crds => crds != []
    case ForceDelete => opts.force
    case Apply => true
    case Jobs => opts.wait && opts.waitForJobs
    case Ready => opts.wait
    case PostHook => !opts.noHooks
  }

  /** The first n steps, of which those are run that the options and the package ask for. */
  function FirstStages(crds: Manifest, opts: Options, n: nat): seq<Stage>
    requires n <= |ORDER|
  {
    if n == 0 then []
    else FirstStages(crds, opts, n - 1) + if Asked(ORDER[n - 1], crds, opts) then [ORDER[n - 1]] else []
  }

  function StagesFor(crds: Manifest, opts: Options): seq<Stage> {
    FirstStages(crds, opts, 7)
  }

  lemma {:induction false} FirstAreFirst(crds: Manifest, opts: Options, n: nat, m: nat)
    requires n <= m <= 7
    ensures FirstStages(crds, opts, n) <= FirstStages(crds, opts, m)
    decreases m - n
  {
    if n < m { FirstAreFirst(crds, opts, n, m - 1); }
  }

  /** One step more, if it is asked for. */
  lemma Passing(crds: Manifest, opts: Options, n: nat, passed: seq<Stage>)
    requires n < 7 && passed == FirstStages(crds, opts, n)
    ensures FirstStages(crds, opts, n + 1) == if Asked(ORDER[n], crds, opts) then passed + [ORDER[n]] else passed
    ensures Asked(ORDER[n], crds, opts) ==> passed + [ORDER[n]] <= StagesFor(crds, opts)
  {
    FirstAreFirst(crds, opts, n + 1, 7);
  }

  lemma LastIsPassed(crds: Manifest, opts: Options, passed: seq<Stage>, stage: Stage)
    requires passed + [stage] <= StagesFor(crds, opts)
    ensures stage in StagesFor(crds, opts)
  {
    hide StagesFor;
    assert (passed + [stage])[|passed|] == stage;
  }

  /** The steps passed, what the snapshot of a run saw, and what was there when the apply had failed. */
  datatype Trace = Trace(passed: seq<Stage>, taken: bool, base: Objects, answered: seq<bool>, applied: Objects)

  ghost predicate SnapshotFits(snapshot: Snapshot, manifest: Manifest, base: Objects, answered: seq<bool>) {
    && snapshot.Existing? && |answered| == |manifest|
    && snapshot.keys == ExistingKeys(manifest, base) - Missed(manifest, base, answered)
  }

  /** Steps 7 to 9: apply, waits and the last hook, up to the first that fails. */
  method ApplyAndWait(client: KubeClient, manifest: Manifest, opts: Options, ghost crds: Manifest,
      ghost before: seq<Stage>)
    returns (progress: Progress, ghost passed: seq<Stage>)
    requires before == FirstStages(crds, opts, 3)
    modifies client
    ensures AgreeOutside(old(client.objects), client.objects, Ids(manifest))
    ensures progress.Finished? ==> passed == StagesFor(crds, opts) && Holds(client.objects, manifest)
    ensures progress.StoppedAt? ==> progress.stage in {Apply, Jobs, Ready, PostHook}
    ensures progress.StoppedAt? ==> passed + [progress.stage] <= StagesFor(crds, opts)
    ensures progress == StoppedAt(Apply) ==> PartlyApplied(old(client.objects), client.objects, manifest)
    ensures progress.StoppedAt? && progress != StoppedAt(Apply) ==> Holds(client.objects, manifest)
  {
    hide AgreeOutside, Holds, Ids, Overlay, PartlyApplied, FirstStages, StagesFor;
    passed := before;
    Passing(crds, opts, 3, passed);
    var ok := client.ApplyManifests(manifest);
    if !ok {
      return StoppedAt(Apply), passed;
    }
    passed := passed + [Apply];
    Passing(crds, opts, 4, passed);
    ok := *;
    if opts.wait && opts.waitForJobs {
      if !ok {
        return StoppedAt(Jobs), passed;
      }
      passed := passed + [Jobs];
    }
    Passing(crds, opts, 5, passed);
    ok := *;
    if opts.wait {
      if !ok {
        return StoppedAt(Ready), passed;
      }
      passed := passed + [Ready];
    }
    Passing(crds, opts, 6, passed);
    ok := *;
    if !opts.noHooks {
      if !ok {
        return StoppedAt(PostHook), passed;
      }
      passed := passed + [PostHook];
    }
    AllStages(crds, opts);
    progress := Finished;
  }

  /** Steps 6 to 9, those asked for, up to the first that fails. */
  method RunSteps(client: KubeClient, previous: Manifest, manifest: Manifest, crds: Manifest, opts: Options)
    returns (progress: Progress, snapshot: Snapshot, ghost t: Trace)
    requires Ids(crds) <= Ids(manifest)
    modifies client
    ensures AgreeOutside(old(client.objects), client.objects, Ids(previous) + Ids(manifest))
    ensures progress.Finished? ==> Holds(client.objects, manifest)
    ensures progress.Finished? ==> t.passed == StagesFor(crds, opts)
    ensures progress.StoppedAt? ==> t.passed + [progress.stage] <= StagesFor(crds, opts)
    ensures progress.StoppedAt? ==>
        StoppedBefore(old(client.objects), client.objects, previous, manifest, crds, progress.stage)
    ensures t.taken == snapshot.Existing?
    ensures t.taken ==> SnapshotFits(snapshot, manifest, t.base, t.answered)
    ensures progress == StoppedAt(Apply) ==> t.applied == client.objects
    ensures progress == StoppedAt(Apply) && t.taken && !opts.force ==> PartlyApplied(t.base, t.applied, manifest)
  {
    hide AgreeOutside, Holds, Ids, DeletableIds, DeletableOnly, SnapshotFits, Laid, Overlay, PartlyDeleted,
        PartlyApplied, ExistingKeys, Missed, FirstStages, StagesFor;
    t := Trace([], false, client.objects, [], client.objects);
    assert Laid(client.objects, crds[..0]) == client.objects by { NothingLaid(client.objects); }
    ghost var touched, start := Ids(previous) + Ids(manifest), client.objects;
    AgreeWithSelf(start, touched);
    snapshot := NoSnapshot;
    assert t.passed == FirstStages(crds, opts, 0) by { NoStages(crds, opts); }
    Passing(crds, opts, 0, t.passed);
    var ok: bool := *;
    if !opts.noHooks {
      if !ok {
        return StoppedAt(PreHook), snapshot, t;
      }
      t := t.(passed := t.passed + [PreHook]);
    }
    Passing(crds, opts, 1, t.passed);
    if |crds| > 0 {
      ok := client.ApplyCrds(crds);
      AgreeTwice(start, start, client.objects, touched, Ids(crds), touched);
      if !ok {
        return StoppedAt(Crds), snapshot, t;
      }
      t := t.(passed := t.passed + [Crds]);
    }
    Passing(crds, opts, 2, t.passed);
    assert client.objects == Laid(start, crds) by { NothingLaid(start); }
    if opts.cleanupOnFail {
      ghost var answered;
      snapshot, answered := SnapshotResources(client, manifest);
      t := t.(taken := snapshot.Existing?, base := client.objects, answered := answered);
      Fitting(client.objects, snapshot, manifest, answered);
    }
    if opts.force {
      var needed: set<string> := *;
      ghost var before := client.objects;
      ok := ForceDelete(client, previous, needed);
      DeletableOnlyIds(previous, needed);
      AgreeTwice(start, before, client.objects, touched, DeletableIds(previous), touched);
      if !ok {
        return StoppedAt(Stage.ForceDelete), snapshot, t;
      }
      t := t.(passed := t.passed + [Stage.ForceDelete]);
    }
    Passing(crds, opts, 3, t.passed);
    ghost var before, passed := client.objects, t.passed;
    progress, passed := ApplyAndWait(client, manifest, opts, crds, passed);
    AgreeTwice(start, before, client.objects, touched, Ids(manifest), touched);
    t := t.(passed := passed, applied := client.objects);
  }

  lemma NoStages(crds: Manifest, opts: Options)
    ensures FirstStages(crds, opts, 0) == []
  {
  }

  lemma AllStages(crds: Manifest, opts: Options)
    ensures StagesFor(crds, opts) == FirstStages(crds, opts, 7)
  {
  }

  lemma Fitting(base: Objects, snapshot: Snapshot, manifest: Manifest, answered: seq<bool>)
    requires |answered| == |manifest|
    requires snapshot.Existing? ==> snapshot.keys == ExistingKeys(manifest, base) - Missed(manifest, base, answered)
    ensures snapshot.Existing? ==> SnapshotFits(snapshot, manifest, base, answered)
  {
  }

  method ExcludeCrds(m: Manifest) returns (ok: bool, rest: Manifest)
    ensures ok ==> rest == WithoutCrds(m)
  {
    ok := *;
    rest := [];
    for i := 0 to |m|
      invariant rest == WithoutCrds(m[..i])
    {
      assert m[..i + 1][..i] == m[..i];
      if m[i].crd {
        continue;
      }
      rest := rest + [m[i]];
    }
    assert m[..|m|] == m;
  }

  /** CRDs come first in the stored manifest. */
  lemma CrdsAreIncluded(crds: Manifest, m: Manifest)
    ensures Ids(crds) <= Ids(crds + m)
  {
    forall i | 0 <= i < |crds| ensures (crds + m)[i] == crds[i] {}
  }
}
