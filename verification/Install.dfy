/** Installing a release as revision 1. The revision is written before anything
    reaches the cluster, so every failure after that leaves a record to mark, and
    on request the objects of the manifest to take away again. */
module Install {
  import opened Records
  import opened Storage
  import opened History
  import opened Cluster
  import opened Steps

  datatype Result =
    | Refused
    | Rehearsed(rel: Record, ok: bool)
    | Broken(stage: Stage, rel: Record, clean: bool)
    | Unrecorded(rel: Record)
    | Done(rel: Record, pruned: bool)

  /** Marks the revision failed and, if asked to, deletes the whole manifest. */
  method FailInstall(storage: ReleaseStorage, client: KubeClient, rel: Record, cleanup: bool)
      returns (failed: Record, clean: bool)
    requires storage.Valid()
    modifies storage`records, client
    ensures storage.Valid() && failed == rel.(status := Failed)
    ensures storage.records == old(storage.records)
        || (rel.At() in old(storage.records) && storage.records == old(storage.records)[rel.At() := failed])
    ensures clean ==> rel.At() in storage.records && storage.records[rel.At()] == failed
    ensures AgreeOutside(old(client.objects), client.objects, Ids(rel.payload.manifest))
    ensures clean && cleanup ==> client.objects == old(client.objects) - DeletableIds(rel.payload.manifest)
    ensures !cleanup ==> client.objects == old(client.objects)
  {
    failed, clean := MarkFailed(storage, rel);
    DeletableOnlyIds(rel.payload.manifest, {});
    if cleanup {
      var deleted := client.DeleteManifests(rel.payload.manifest);
      clean := clean && deleted;
    }
  }

  datatype Deployment = Converged | Stopped(stage: Stage, rel: Record, clean: bool)

  /** Runs the steps and, when one fails, does what that step's failure calls for. */
  method Deploy(storage: ReleaseStorage, client: KubeClient, rel: Record, crds: Manifest, opts: Options)
      returns (d: Deployment)
    requires storage.Valid() && Ids(crds) <= Ids(rel.payload.manifest)
    modifies storage`records, client
    ensures storage.Valid()
    ensures AgreeOutside(old(client.objects), client.objects, Ids(rel.payload.manifest))
    ensures d.Converged? ==> storage.records == old(storage.records) && Holds(client.objects, rel.payload.manifest)
    ensures d.Stopped? ==> d.rel == rel.(status := Failed)
    ensures d.Stopped? ==>
      || storage.records == old(storage.records)
      || (rel.At() in old(storage.records) && storage.records == old(storage.records)[rel.At() := d.rel])
    ensures d.Stopped? && d.clean ==> rel.At() in storage.records && storage.records[rel.At()] == d.rel
    ensures d.Stopped? ==> d.stage in StagesFor(crds, opts.(force := false))
    ensures d.Stopped? && d.clean && (opts.atomic || opts.cleanupOnFail) && !d.stage.PreHook? && !d.stage.Crds? ==>
      forall id :: id in DeletableIds(rel.payload.manifest) ==> id !in client.objects
    ensures d.Stopped? && (d.stage.PreHook? || d.stage.Crds? || (!opts.atomic && !opts.cleanupOnFail)) ==>
      StoppedBefore(old(client.objects), client.objects, [], rel.payload.manifest, crds, d.stage)
  {
    hide AgreeOutside, Holds, Ids, DeletableIds, StoppedBefore, StagesFor;
    ghost var o0 := client.objects;
    var progress, snapshot, trace := RunSteps(client, [], rel.payload.manifest, crds,
        opts.(force := false, cleanupOnFail := false));
    assert Ids([]) + Ids(rel.payload.manifest) == Ids(rel.payload.manifest) by { NoIds(); }
    if progress.Finished? {
      return Converged;
    }
    LastIsPassed(crds, opts.(force := false, cleanupOnFail := false), trace.passed, progress.stage);
    SameStages(crds, opts);
    ghost var o1 := client.objects;
    var applied := !progress.stage.PreHook? && !progress.stage.Crds?;
    var failed, clean := FailInstall(storage, client, rel, applied && (opts.atomic || opts.cleanupOnFail));
    AgreeTwice(o0, o1, client.objects, Ids(rel.payload.manifest), Ids(rel.payload.manifest),
        Ids(rel.payload.manifest));
    d := Stopped(progress.stage, failed, clean);
  }

  /** Cleaning up is no step of its own. */
  lemma SameStages(crds: Manifest, opts: Options)
    ensures StagesFor(crds, opts.(force := false, cleanupOnFail := false)) == StagesFor(crds, opts.(force := false))
  {
    var o := opts.(force := false);
    forall n: nat | n <= 7 { SameFirst(crds, o, n); }
  }

  lemma {:induction false} SameFirst(crds: Manifest, o: Options, n: nat)
    requires n <= 7
    ensures FirstStages(crds, o.(cleanupOnFail := false), n) == FirstStages(crds, o, n)
    decreases n
  {
    if n > 0 { SameFirst(crds, o, n - 1); }
  }

  ghost predicate NoneDeployed(store: Store, name: string) {
    forall k {:trigger store[k]} :: k in store && k.name == name ==> store[k].status != Deployed
  }

  /** What an install promises of the store and the cluster before and after it. */
  ghost predicate Kept(before: Store, after: Store, start: Objects, end: Objects, name: string, rendering: Rendering,
                       opts: Options, result: Result)
  {
    && (result.Refused? || result.Rehearsed? ==> after == before && end == start)
    && (!result.Refused? ==> rendering.Rendered? && result.rel.At() == Key(name, 1))
    && (!result.Refused? ==>
          result.rel.payload == rendering.payload.(manifest := rendering.crds + rendering.payload.manifest))
    && (!result.Refused? ==> AgreeOutside(start, end, Ids(result.rel.payload.manifest)))
    && (result.Broken? || result.Unrecorded? || result.Done? ==> Key(name, 1) !in before)
    && (result.Broken? && result.clean ==> after == before[Key(name, 1) := result.rel] && result.rel.status == Failed)
    && (result.Broken? ==> result.stage in StagesFor(rendering.crds, opts.(force := false)))
    && (result.Broken? && result.clean && (opts.atomic || opts.cleanupOnFail)
        && !result.stage.PreHook? && !result.stage.Crds? ==>
          forall id :: id in DeletableIds(result.rel.payload.manifest) ==> id !in end)
    && (result.Broken?
        && (result.stage.PreHook? || result.stage.Crds? || (!opts.atomic && !opts.cleanupOnFail)) ==>
          StoppedBefore(start, end, [], result.rel.payload.manifest, rendering.crds, result.stage))
    && (result.Unrecorded? || result.Done? ==> Holds(end, result.rel.payload.manifest))
    && (result.Done? ==> result.rel.status == Deployed)
    && (result.Done? ==> Concluded(before, after, Key(name, 1), opts.historyMax, result))
  }

  /** Nothing was deployed before, or fewer revisions are stored than are to be kept. */
  ghost predicate Survives(before: Store, name: string, maxKeep: int) {
    NoneDeployed(before, name) || |RevisionsOf(before, name)| < maxKeep
  }

  /** What the store holds of a revision once it was recorded as deployed. */
  ghost predicate Concluded(before: Store, after: Store, at: Key, maxKeep: int, result: Result)
    requires result.Done?
  {
    && (maxKeep <= 0 ==> after == before[at := result.rel])
    && (NoneDeployed(before, at.name) ==> SoleDeployed(after, at))
    && (maxKeep > 0 && Survives(before, at.name, maxKeep) ==> at in after)
    && (maxKeep > 0 && result.pruned ==> (at in after <==> Survives(before, at.name, maxKeep)))
  }

  /** Records the new revision as deployed, then prunes. */
  method Conclude(storage: ReleaseStorage, rel: Record, historyMax: int, ghost s0: Store) returns (result: Result)
    requires storage.Intact() && rel.revision == 1 && rel.At() !in s0
    requires storage.records == s0[rel.At() := rel] && Evolves(s0, storage.records, rel.name)
    modifies storage`records
    ensures storage.Intact() && Evolves(s0, storage.records, rel.name)
    ensures result.Unrecorded? || result.Done?
    ensures result.Unrecorded? ==> result.rel == rel && storage.records == old(storage.records)
    ensures result.Done? ==>
      result.rel == rel.(status := Deployed) && Concluded(s0, storage.records, rel.At(), historyMax, result)
  {
    hide Evolves, SoleDeployed, NoneDeployed, PartlyPruned, Pruned, Faithful, Filed, Survives;
    var deployed := rel.(status := Deployed);
    ghost var s1 := storage.records;
    FaithfulIsFiled(storage.records, storage.created);
    var ok, _ := UpdateWithRetry(storage, deployed);
    AfterRewrite(s0, s1, storage.records, storage.created, rel, deployed);
    if !ok {
      return Unrecorded(rel);
    }
    LoneDeployment(s0, rel, deployed);
    if historyMax <= 0 {
      return Done(deployed, true);
    }
    ghost var s2 := storage.records;
    FaithfulIsFiled(storage.records, storage.created);
    var pruned := PruneReleaseHistory(storage, rel.name, historyMax);
    AfterInstallPruning(s0, s2, storage.records, storage.created, deployed, historyMax);
    result := Done(deployed, pruned);
  }

  method Install(storage: ReleaseStorage, client: KubeClient, name: string, rendering: Rendering, opts: Options)
      returns (result: Result)
    requires storage.Intact()
    modifies storage, client
    ensures storage.Intact() && Evolves(old(storage.records), storage.records, name)
    ensures Kept(old(storage.records), storage.records, old(client.objects), client.objects, name, rendering, opts,
        result)
  {
    hide AgreeOutside, Holds, Ids, Evolves, SoleDeployed, NoneDeployed, DeletableIds, PartlyPruned, Pruned, Faithful,
        Filed, Concluded, StoppedBefore, StagesFor;
    ghost var s0, o0 := storage.records, client.objects;
    EvolvesByStatusSelf(s0, name);
    if rendering.RenderFailed? {
      return Refused;
    }
    var payload := rendering.payload.(manifest := rendering.crds + rendering.payload.manifest);
    var rel := Record(name, 1, PendingInstall, payload);
    var ok: bool := *;
    AgreeWithSelf(o0, Ids(payload.manifest));
    if opts.dryRun.Client? || opts.dryRun.Server? {
      return Rehearsed(rel, opts.dryRun.Client? || ok);
    }
    FaithfulIsFiled(storage.records, storage.created);
    ok := storage.Create(rel);
    if !ok {
      return Refused;
    }
    CreatedFaithfully(s0, old(storage.created), rel);
    CrdsAreIncluded(rendering.crds, rendering.payload.manifest);
    ghost var s1 := storage.records;
    var d := Deploy(storage, client, rel, rendering.crds, opts);
    if d.Stopped? {
      AfterRewrite(s0, s1, storage.records, storage.created, rel, d.rel);
      return Broken(d.stage, d.rel, d.clean);
    }
    result := Conclude(storage, rel, opts.historyMax, s0);
  }

  lemma NoIds()
    ensures Ids([]) == {}
  {
  }

  lemma LoneDeployment(s0: Store, rel: Record, deployed: Record)
    requires rel.At() !in s0 && deployed == rel.(status := Deployed)
    ensures SoleDeployed(s0[rel.At() := deployed], rel.At()) <==> NoneDeployed(s0, rel.name)
  {
    var s := s0[rel.At() := deployed];
    if SoleDeployed(s, rel.At()) {
      forall k | k in s0 && k.name == rel.name ensures s0[k].status != Deployed {
        assert s[k] == s0[k];
      }
    }
  }

  lemma AfterInstallPruning(s0: Store, s2: Store, s3: Store, created: map<Key, Payload>, deployed: Record, maxKeep: nat)
    requires Faithful(s2, created) && Evolves(s0, s2, deployed.name) && deployed.At() !in s0
    requires s2 == s0[deployed.At() := deployed] && deployed.status == Deployed
    requires PartlyPruned(s2, s3, deployed.name, maxKeep)
    ensures Faithful(s3, created) && Evolves(s0, s3, deployed.name)
    ensures NoneDeployed(s0, deployed.name) ==> SoleDeployed(s3, deployed.At())
    ensures deployed.revision == 1 && maxKeep >= 1 && Survives(s0, deployed.name, maxKeep) ==> deployed.At() in s3
    ensures deployed.revision == 1 && maxKeep >= 1 && s3 == Pruned(s2, deployed.name, maxKeep) ==>
              (deployed.At() in s3 <==> Survives(s0, deployed.name, maxKeep))
  {
    if deployed.revision == 1 && maxKeep >= 1 { FirstSurvivesIff(s0, s2, created, deployed, maxKeep); }
    FewerKeepFaith(s2, s3, created);
    EvolvesByPruning(s2, s3, deployed.name, maxKeep);
    EvolvesTwice(s0, s2, s3, deployed.name);
    if NoneDeployed(s0, deployed.name) {
      SoleIsNewestDeployed(s0, s2, deployed);
      assert !Prunable(s2, deployed.name, maxKeep, deployed.At());
    }
  }

  lemma SoleIsNewestDeployed(s0: Store, s2: Store, deployed: Record)
    requires NoneDeployed(s0, deployed.name) && s2 == s0[deployed.At() := deployed] && deployed.status == Deployed
    ensures NewestDeployed(s2, deployed.At()) && SoleDeployed(s2, deployed.At())
  {
    forall o | o in s0 && o.name == deployed.name && o != deployed.At() ensures s2[o].status != Deployed {
      assert s2[o] == s0[o];
    }
  }

  /** Installing demotes nobody, so afterwards the new revision is the only
      deployed one exactly when no revision was deployed before. */
  lemma InstallLeavesOneDeployed(before: Store, rel: Record)
    requires rel.At() !in before && rel.status == Deployed
    ensures SoleDeployed(before[rel.At() := rel], rel.At()) <==> NoneDeployed(before, rel.name)
  {
    LoneDeployment(before, rel, rel);
  }

  /** Main result: pruning after an install spares the new revision exactly when
      nothing was deployed before or fewer revisions are stored than are to be kept. */
  lemma FirstSurvivesIff(s0: Store, s: Store, created: map<Key, Payload>, deployed: Record, maxKeep: nat)
    requires Faithful(s, created) && deployed.revision == 1 && maxKeep >= 1
    requires deployed.At() !in s0 && s == s0[deployed.At() := deployed] && deployed.status == Deployed
    ensures Prunable(s, deployed.name, maxKeep, deployed.At()) <==> !Survives(s0, deployed.name, maxKeep)
    ensures deployed.At() in Pruned(s, deployed.name, maxKeep) <==> Survives(s0, deployed.name, maxKeep)
  {
    var at := deployed.At();
    assert Newer(s, at) == RevisionsOf(s0, deployed.name) by {
      forall k | k in s0 && k.name == deployed.name ensures k.revision > 1 {
        assert s[k].At() == k;
      }
    }
    assert NewestDeployed(s, at) <==> NoneDeployed(s0, deployed.name) by {
      if NewestDeployed(s, at) {
        forall k | k in s0 && k.name == deployed.name ensures s0[k].status != Deployed {
          assert s[k] == s0[k] && k in Newer(s, at);
        }
      } else {
        var k :| k in s && k.name == deployed.name && s[k].status == Deployed && k.revision > 1;
        assert s[k] == s0[k];
      }
    }
  }

  /** An input: with revision 1 pruned long ago and revision 2 still deployed, an
      install that keeps one revision prunes the very revision it has just created. */
  lemma InstallMayPruneItself(payload: Payload)
    ensures var r2, r1 := Record("web", 2, Deployed, payload), Record("web", 1, Deployed, payload);
            Key("web", 1) !in Pruned(map[r2.At() := r2][r1.At() := r1], "web", 1)
  {
    var r2, r1 := Record("web", 2, Deployed, payload), Record("web", 1, Deployed, payload);
    var store := map[r2.At() := r2][r1.At() := r1];
    assert Newer(store, r1.At()) == {r2.At()};
    assert store[r2.At()].status == Deployed;
    assert Prunable(store, "web", 1, r1.At());
  }
}
