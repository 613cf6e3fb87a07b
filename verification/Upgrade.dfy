/** Upgrading a release: every step may fail, and an atomic upgrade undoes itself.
    What a clean undoing leaves is stated for whatever subset had been applied,
    and what removal of dropped resources leaves for any spelling of their names. */
module Upgrade {
  import opened Records
  import opened Storage
  import opened History
  import opened Cluster
  import opened Steps
  import Install

  /** What an atomic rollback leaves behind. */
  ghost predicate RolledBack(store: Store, objects: Objects, previous: Record, failed: Record) {
    && failed.At() in store && store[failed.At()] == failed.(status := Failed)
    && previous.At() in store && store[previous.At()] == previous.(status := Deployed)
    && Holds(objects, previous.payload.manifest)
    && forall r :: r in failed.payload.manifest && r.key !in Keys(previous.payload.manifest) && !r.keep ==>
         r.id in Ids(previous.payload.manifest) || r.id !in objects
  }

  /** Deletes what only the failed revision declared, re-applies the previous
      manifest and repairs both statuses; reports whether every step worked. */
  method AtomicRollbackUpgrade(storage: ReleaseStorage, client: KubeClient, previous: Record, failed: Record)
      returns (clean: bool)
    requires storage.Valid() && previous.At() != failed.At()
    requires Stored(storage.records, previous) && Stored(storage.records, failed)
    modifies storage`records, client
    ensures storage.Valid() && OnlyStatusOf(old(storage.records), storage.records, {previous.At(), failed.At()})
    ensures AgreeOutside(old(client.objects), client.objects,
        Ids(previous.payload.manifest) + Ids(failed.payload.manifest))
    ensures clean ==> RolledBack(storage.records, client.objects, previous, failed)
  {
    clean := true;
    var computed, orphaned := ComputeOrphanedManifest(failed.payload.manifest, previous.payload.manifest);
    OrphanIds(failed.payload.manifest, previous.payload.manifest);
    if !computed {
      clean := false;
    } else if |orphaned| > 0 {
      var deleted := client.DeleteManifests(orphaned);
      if !deleted {
        clean := false;
      }
    }
    ghost var between := client.objects;
    var applied := client.ApplyManifests(previous.payload.manifest);
    if !applied {
      clean := false;
    }
    var updated := storage.Update(failed.(status := Failed));
    if !updated {
      clean := false;
    }
    updated := storage.Update(previous.(status := Deployed));
    if !updated {
      clean := false;
    }
  }

  /** --cleanup-on-fail after a partial apply: deletes what the apply introduced. */
  method CleanupPartialApply(client: KubeClient, manifest: Manifest, previous: Manifest, snapshot: Snapshot)
    returns (clean: bool)
    modifies client
    ensures AgreeOutside(old(client.objects), client.objects, Ids(manifest))
    ensures client.objects.Keys <= old(client.objects).Keys
    ensures clean && snapshot.Existing? ==>
      client.objects == old(client.objects) - DeletableOnly(manifest, Keys(manifest) - snapshot.keys)
    ensures clean && snapshot.NoSnapshot? ==>
      client.objects == old(client.objects) - DeletableIds(Missing(manifest, previous))
  {
    clean := true;
    if snapshot.NoSnapshot? {
      var computed, orphaned := ComputeOrphanedManifest(manifest, previous);
      OrphanIds(manifest, previous);
      if !computed {
        clean := false;
      } else if |orphaned| > 0 {
        clean := client.DeleteManifests(orphaned);
      } else {
        assert DeletableIds(orphaned) == {};
      }
    } else {
      var introduced := Keys(manifest) - snapshot.keys;
      DeletableOnlyIds(manifest, introduced);
      if |introduced| > 0 {
        clean := client.DeleteResources(manifest, introduced);
      } else {
        assert DeletableOnly(manifest, introduced) == {};
      }
    }
  }

  /** Nothing that was there before, and still was when the apply failed, is gone. */
  ghost predicate Spared(base: Objects, applied: Objects, after: Objects) {
    forall id :: id in base && id in applied ==> id in after
  }

  /** Of every deletable resource that was there, some lookup was answered. */
  ghost predicate AllFound(manifest: Manifest, base: Objects, answered: seq<bool>, applied: Objects)
    requires |answered| == |manifest|
  {
    forall i :: 0 <= i < |manifest| && !manifest[i].keep && manifest[i].id in base && manifest[i].id in applied ==>
      !NeverFound(manifest, base, answered, manifest[i].key)
  }

  /** What a clean cleanup leaves, given the lookups that were answered. */
  function AfterCleanup(manifest: Manifest, base: Objects, answered: seq<bool>, applied: Objects): Objects
    requires |answered| == |manifest|
  {
    applied - DeletableOnly(manifest,
        Keys(manifest) - (ExistingKeys(manifest, base) - Missed(manifest, base, answered)))
  }

  lemma SparedIff(base: Objects, applied: Objects, manifest: Manifest, answered: seq<bool>)
    requires |answered| == |manifest|
    ensures Spared(base, applied, AfterCleanup(manifest, base, answered, applied))
            <==> AllFound(manifest, base, answered, applied)
  {
    hide NeverFound;
    var listed := ExistingKeys(manifest, base) - Missed(manifest, base, answered);
    var gone := DeletableOnly(manifest, Keys(manifest) - listed);
    forall i | 0 <= i < |manifest| && manifest[i].id in base
      ensures manifest[i].key !in listed <==> NeverFound(manifest, base, answered, manifest[i].key)
    {
      KeyMissedIff(manifest, base, answered, i);
    }
    if !AllFound(manifest, base, answered, applied) {
      var i :| 0 <= i < |manifest| && !manifest[i].keep && manifest[i].id in base && manifest[i].id in applied
        && NeverFound(manifest, base, answered, manifest[i].key);
      assert manifest[i].key in Keys(manifest);
      assert manifest[i].id in gone;
    }
  }

  lemma PartlyAppliedKeeps(base: Objects, applied: Objects, m: Manifest)
    requires PartlyApplied(base, applied, m)
    ensures base.Keys <= applied.Keys
  {
    hide Laid, Arranged;
    var i :| 0 <= i <= |m| && applied == Laid(base, Arranged(m, false)[..i]);
    LaidMeaning(base, Arranged(m, false)[..i]);
  }

  /** Main result: wherever the apply failed, a clean cleanup leaves everything that
      was there before exactly when of every deletable resource among it some
      lookup was answered. */
  lemma CleanupSparesIff(base: Objects, applied: Objects, manifest: Manifest, answered: seq<bool>)
    requires |answered| == |manifest| && PartlyApplied(base, applied, manifest)
    ensures base.Keys <= AfterCleanup(manifest, base, answered, applied).Keys
            <==> AllFound(manifest, base, answered, base)
  {
    hide AfterCleanup, PartlyApplied, NeverFound;
    PartlyAppliedKeeps(base, applied, manifest);
    SparedIff(base, applied, manifest, answered);
  }

  lemma KeyMissedIff(m: Manifest, base: Objects, answered: seq<bool>, i: nat)
    requires |answered| == |m| && i < |m| && m[i].id in base
    ensures m[i].key !in ExistingKeys(m, base) - Missed(m, base, answered) <==> NeverFound(m, base, answered, m[i].key)
  {
    hide NeverFound;
    assert m[i].key in ExistingKeys(m, base);
  }

  /** So it does when every lookup was answered. */
  lemma FullSnapshotSpares(base: Objects, applied: Objects, manifest: Manifest, answered: seq<bool>)
    requires |answered| == |manifest| && forall j :: 0 <= j < |answered| ==> answered[j]
    requires PartlyApplied(base, applied, manifest)
    ensures base.Keys <= AfterCleanup(manifest, base, answered, applied).Keys
  {
    hide AfterCleanup, PartlyApplied;
    CleanupSparesIff(base, applied, manifest, answered);
    forall i | 0 <= i < |manifest| && manifest[i].id in base
      ensures !NeverFound(manifest, base, answered, manifest[i].key)
    {
      assert answered[i];
    }
  }

  const WEB := "services/default/web"

  /** An input: the lookup of an existing service fails, and wherever the apply
      fails the cleanup deletes the service the previous revision runs on. */
  lemma UnansweredLosesObject(old1: string, new1: string, applied: Objects)
    requires PartlyApplied(map[WEB := old1], applied, [Resource("v1/Service/default/web", WEB, new1, false, false, 0)])
    ensures var base, manifest := map[WEB := old1], [Resource("v1/Service/default/web", WEB, new1, false, false, 0)];
            && WEB !in AfterCleanup(manifest, base, [false], applied)
            && WEB in AfterCleanup(manifest, base, [true], applied)
  {
    hide AfterCleanup, PartlyApplied;
    var base, manifest := map[WEB := old1], [Resource("v1/Service/default/web", WEB, new1, false, false, 0)];
    CleanupSparesIff(base, applied, manifest, [false]);
    CleanupSparesIff(base, applied, manifest, [true]);
    assert manifest[0].id in base && NeverFound(manifest, base, [false], manifest[0].key);
    assert base.Keys == {WEB};
  }

  /** Only what the new manifest alone declares is gone, and all else of the previous one is back. */
  ghost predicate BackTo(objects: Objects, manifest: Manifest, previous: Manifest) {
    && (forall id :: id in Desired(previous) && id !in DeletableIds(Missing(manifest, previous)) ==>
          id in objects && objects[id] == Desired(previous)[id])
    && (forall id :: id in DeletableIds(Missing(manifest, previous)) ==> id !in objects)
  }

  /** --cleanup-on-fail after a readiness timeout: re-applies the previous
      manifest first and deletes what only the new one declares afterwards. */
  method CleanupUnready(client: KubeClient, manifest: Manifest, previous: Manifest) returns (clean: bool)
    modifies client
    ensures AgreeOutside(old(client.objects), client.objects, Ids(manifest) + Ids(previous))
    ensures clean ==> BackTo(client.objects, manifest, previous)
  {
    clean := true;
    OverlayMeaning(map[], previous);
    if |previous| > 0 {
      clean := client.ApplyManifests(previous);
    }
    var computed, orphaned := ComputeOrphanedManifest(manifest, previous);
    OrphanIds(manifest, previous);
    if !computed {
      clean := false;
    } else if |orphaned| > 0 {
      var deleted := client.DeleteManifests(orphaned);
      clean := clean && deleted;
    }
  }

  /** What --cleanup-on-fail does at the step that failed. */
  datatype Cleanup = Nothing | PartialApply(snapshot: Snapshot) | Unready

  /** The common ending of a failed upgrade step: mark, clean up, roll back. */
  method FailUpgrade(storage: ReleaseStorage, client: KubeClient, previous: Record, rel: Record, atomic: bool,
      cleanup: Cleanup)
    returns (failed: Record, clean: bool)
    requires storage.Valid() && previous.At() != rel.At()
    requires Stored(storage.records, previous) && Stored(storage.records, rel)
    modifies storage`records, client
    ensures storage.Valid() && failed == rel.(status := Failed)
    ensures OnlyStatusOf(old(storage.records), storage.records, {previous.At(), rel.At()})
    ensures AgreeOutside(old(client.objects), client.objects,
        Ids(previous.payload.manifest) + Ids(rel.payload.manifest))
    ensures !atomic && cleanup.Nothing? ==> client.objects == old(client.objects)
    ensures !atomic ==>
        storage.records == old(storage.records)
        || storage.records == old(storage.records)[rel.At() := failed]
    ensures clean ==> rel.At() in storage.records && storage.records[rel.At()] == failed
    ensures clean && !atomic && cleanup.PartialApply? && cleanup.snapshot.Existing? ==>
      client.objects == old(client.objects) -
        DeletableOnly(rel.payload.manifest, Keys(rel.payload.manifest) - cleanup.snapshot.keys)
    ensures clean && !atomic && cleanup.PartialApply? && cleanup.snapshot.NoSnapshot? ==>
      client.objects == old(client.objects) - DeletableIds(Missing(rel.payload.manifest, previous.payload.manifest))
    ensures clean && !atomic && cleanup.Unready? ==>
      BackTo(client.objects, rel.payload.manifest, previous.payload.manifest)
    ensures clean && atomic ==> RolledBack(storage.records, client.objects, previous, failed)
  {
    failed, clean := MarkFailed(storage, rel);
    var tidy := true;
    match cleanup {
      case Nothing =>
      case PartialApply(snapshot) =>
        tidy := CleanupPartialApply(client, rel.payload.manifest, previous.payload.manifest, snapshot);
      case Unready =>
        tidy := CleanupUnready(client, rel.payload.manifest, previous.payload.manifest);
    }
    clean := clean && tidy;
    if atomic {
      var rolledBack := AtomicRollbackUpgrade(storage, client, previous, failed);
      clean := clean && rolledBack;
    }
  }

  /** Nothing was rolled back: at most the new revision was marked failed. */
  ghost predicate LeftAsStopped(before: Store, after: Store, failed: Record) {
    after == before || after == before[failed.At() := failed]
  }

  datatype Deployment = Converged | Stopped(stage: Stage, rel: Record, clean: bool)

  /** Runs the steps and, when one fails, does what that step's failure calls for. */
  method Deploy(storage: ReleaseStorage, client: KubeClient, previous: Record, rel: Record, crds: Manifest,
      opts: Options)
    returns (d: Deployment, ghost t: Trace)
    requires storage.Valid() && previous.At() != rel.At()
    requires Stored(storage.records, previous) && Stored(storage.records, rel)
    requires Ids(crds) <= Ids(rel.payload.manifest)
    modifies storage`records, client
    ensures storage.Valid()
    ensures OnlyStatusOf(old(storage.records), storage.records, {previous.At(), rel.At()})
    ensures AgreeOutside(old(client.objects), client.objects,
        Ids(previous.payload.manifest) + Ids(rel.payload.manifest))
    ensures d.Converged? ==> storage.records == old(storage.records) && Holds(client.objects, rel.payload.manifest)
    ensures d.Stopped? ==> d.rel == rel.(status := Failed)
    ensures d.Stopped? && d.clean ==> rel.At() in storage.records && storage.records[rel.At()] == d.rel
    ensures d.Converged? ==> t.passed == StagesFor(crds, opts)
    ensures d.Stopped? ==> t.passed + [d.stage] <= StagesFor(crds, opts)
    ensures d.Stopped? && d.clean && opts.atomic && !d.stage.Crds? && !d.stage.ForceDelete? ==>
        RolledBack(storage.records, client.objects, previous, d.rel)
    ensures d.Stopped? && (!opts.atomic || d.stage.Crds? || d.stage.ForceDelete?) ==>
        LeftAsStopped(old(storage.records), storage.records, d.rel)
    ensures d.Stopped? && (d.stage.Crds? || d.stage.ForceDelete? || (!opts.atomic && !opts.cleanupOnFail)) ==>
        StoppedBefore(old(client.objects), client.objects, previous.payload.manifest, rel.payload.manifest, crds,
            d.stage)
    ensures d.Stopped? && d.clean && d.stage.Ready? && opts.cleanupOnFail && !opts.atomic ==>
        BackTo(client.objects, rel.payload.manifest, previous.payload.manifest)
    ensures d.Stopped? && d.clean && d.stage.Apply? && opts.cleanupOnFail && !opts.atomic && !t.taken ==>
        client.objects == t.applied - DeletableIds(Missing(rel.payload.manifest, previous.payload.manifest))
    ensures d.Stopped? && d.clean && d.stage.Apply? && opts.cleanupOnFail && !opts.atomic && t.taken ==>
              && |t.answered| == |rel.payload.manifest|
              && (Spared(t.base, t.applied, client.objects) <==>
                  AllFound(rel.payload.manifest, t.base, t.answered, t.applied))
              && (!opts.force ==> (t.base.Keys <= client.objects.Keys <==>
                                   AllFound(rel.payload.manifest, t.base, t.answered, t.base)))
  {
    hide AgreeOutside, Holds, Ids, RolledBack, Stored, StoppedBefore, SnapshotFits, DeletableOnly, Spared, AllFound,
        PartlyApplied, BackTo, DeletableIds, Missing, StagesFor;
    var progress, snapshot;
    progress, snapshot, t := RunSteps(client, previous.payload.manifest, rel.payload.manifest, crds, opts);
    if progress.Finished? {
      d := Converged;
      return;
    }
    var cleanup :=
      if opts.cleanupOnFail && progress.stage.Apply? then PartialApply(snapshot)
      else if opts.cleanupOnFail && progress.stage.Ready? then Unready
      else Nothing;
    ghost var start, before := old(client.objects), client.objects;
    var undo := opts.atomic && !progress.stage.Crds? && !progress.stage.ForceDelete?;
    var failed, clean := FailUpgrade(storage, client, previous, rel, undo, cleanup);
    ghost var touched := Ids(previous.payload.manifest) + Ids(rel.payload.manifest);
    AgreeTwice(start, before, client.objects, touched, touched, touched);
    if clean && cleanup.PartialApply? && t.taken && !opts.atomic {
      CleanupOutcome(rel.payload.manifest, snapshot, t, client.objects);
    }
    d := Stopped(progress.stage, failed, clean);
  }

  lemma CleanupOutcome(manifest: Manifest, snapshot: Snapshot, t: Trace, after: Objects)
    requires SnapshotFits(snapshot, manifest, t.base, t.answered)
    requires after == t.applied - DeletableOnly(manifest, Keys(manifest) - snapshot.keys)
    ensures |t.answered| == |manifest|
    ensures Spared(t.base, t.applied, after) <==> AllFound(manifest, t.base, t.answered, t.applied)
    ensures PartlyApplied(t.base, t.applied, manifest) ==>
      (t.base.Keys <= after.Keys <==> AllFound(manifest, t.base, t.answered, t.base))
  {
    SparedIff(t.base, t.applied, manifest, t.answered);
    if PartlyApplied(t.base, t.applied, manifest) { CleanupSparesIff(t.base, t.applied, manifest, t.answered); }
  }

  // ----- finishing -----

  /** Deletes what the previous manifest had and the new one dropped, CRDs excepted. */
  function Dropped(previous: Manifest, manifest: Manifest): Manifest {
    WithoutCrds(Missing(previous, manifest))
  }

  method PruneRemovedResources(client: KubeClient, previous: Manifest, manifest: Manifest) returns (complete: bool)
    modifies client
    ensures AgreeOutside(old(client.objects), client.objects, DeletableIds(Dropped(previous, manifest)))
    ensures complete ==> client.objects == old(client.objects) - DeletableIds(Dropped(previous, manifest))
  {
    var computed, removed := ComputeOrphanedManifest(previous, manifest);
    if !computed {
      return false;
    }
    if |removed| == 0 {
      return true;
    }
    var filtered, retained := ExcludeCrds(removed);
    if !filtered {
      return false;
    }
    if |retained| == 0 {
      return true;
    }
    complete := client.DeleteManifests(retained);
  }

  /** A dropped resource and a resource of the new manifest that are the same object. */
  ghost predicate Collides(previous: Manifest, manifest: Manifest) {
    !(DeletableIds(Dropped(previous, manifest)) !! Ids(manifest))
  }

  lemma DroppedIds(previous: Manifest, manifest: Manifest)
    ensures DeletableIds(Dropped(previous, manifest)) <= Ids(previous)
  {
    MissingMeaning(previous, manifest);
    WithoutCrdsMeaning(Missing(previous, manifest));
    var dropped := Dropped(previous, manifest);
    forall i | 0 <= i < |dropped| ensures dropped[i].id in Ids(previous) {
      assert dropped[i] in dropped;
    }
  }

  /** The new manifest survives the removal of dropped resources exactly when
      none of them is an object it also declares. */
  lemma RemovalSparesManifest(objects: Objects, previous: Manifest, manifest: Manifest)
    requires Holds(objects, manifest)
    ensures Holds(objects - DeletableIds(Dropped(previous, manifest)), manifest) <==> !Collides(previous, manifest)
  {
    OverlayMeaning(map[], manifest);
    var gone := DeletableIds(Dropped(previous, manifest));
    if Collides(previous, manifest) {
      var id :| id in gone && id in Ids(manifest);
      assert id in Desired(manifest) && id !in objects - gone;
    }
  }

  // ----- the whole operation -----

  datatype Result =
    | Refused
    | Installed(install: Install.Result)
    | Rehearsed(rel: Record, ok: bool)
    | Broken(stage: Stage, previous: Record, rel: Record, clean: bool)
    | Unrecorded(previous: Record, rel: Record)
    | Done(previous: Record, rel: Record, removed: bool, demoted: bool, pruned: bool)

  predicate Attempted(r: Result) {
    r.Broken? || r.Unrecorded? || r.Done?
  }

  /** The new revision follows the newest one and records what was rendered. */
  ghost predicate Follows(before: Store, name: string, rendering: Rendering, r: Result)
    requires Attempted(r)
  {
    && rendering.Rendered?
    && r.previous.name == name && Newest(before, r.previous.At()) && before[r.previous.At()] == r.previous
    && r.rel.At() == Key(name, r.previous.revision + 1) && r.rel.At() !in before
    && r.rel.payload == rendering.payload.(manifest := rendering.crds + rendering.payload.manifest)
  }

  lemma AfterDeploy(s0: Store, s1: Store, s2: Store, created: map<Key, Payload>, previous: Record, rel: Record)
    requires rel.At() !in s0 && s1 == s0[rel.At() := rel] && Faithful(s1, created) && Evolves(s0, s1, rel.name)
    requires previous.name == rel.name && OnlyStatusOf(s1, s2, {previous.At(), rel.At()})
    ensures Faithful(s2, created) && Evolves(s0, s2, rel.name)
    ensures OnlyStatusOf(s0[rel.At() := rel.(status := Failed)], s2, {previous.At(), rel.At()})
  {
    hide Faithful, Evolves;
    StatusKeepsFaith(s1, s2, created, {previous.At(), rel.At()});
    EvolvesByStatus(s1, s2, {previous.At(), rel.At()}, rel.name);
    EvolvesTwice(s0, s1, s2, rel.name);
  }

  /** --install hands over to an install with the options it passes on. */
  function InstallOptions(opts: Options): Options {
    Options(opts.atomic, false, false, opts.wait, false, opts.noHooks, 0, opts.dryRun)
  }

  /** Removes dropped resources, then settles the new revision. */
  method Finish(storage: ReleaseStorage, client: KubeClient, previous: Record, rel: Record, historyMax: int,
      ghost s0: Store)
    returns (result: Result)
    requires storage.Intact() && Stored(storage.records, rel) && Newest(storage.records, rel.At())
    requires rel.At() !in s0 && storage.records == s0[rel.At() := rel] && Evolves(s0, storage.records, rel.name)
    requires Holds(client.objects, rel.payload.manifest)
    modifies storage`records, client
    ensures storage.Intact() && Evolves(s0, storage.records, rel.name)
    ensures result.Unrecorded? || result.Done?
    ensures result.previous == previous && result.rel.At() == rel.At() && result.rel.payload == rel.payload
    ensures AgreeOutside(old(client.objects), client.objects, Ids(previous.payload.manifest))
    ensures result.Done? ==>
        Newest(storage.records, rel.At()) && storage.records[rel.At()] == result.rel
        && result.rel.status == Deployed
    ensures result.Done? && result.demoted ==> SoleDeployed(storage.records, rel.At())
    ensures result.Done? && result.pruned && historyMax > 0 ==>
        KeepsNewest(s0[rel.At() := result.rel], storage.records, rel.name, historyMax)
    ensures !Collides(previous.payload.manifest, rel.payload.manifest) ==> Holds(client.objects, rel.payload.manifest)
    ensures result.Done? && result.removed && Collides(previous.payload.manifest, rel.payload.manifest) ==>
              !Holds(client.objects, rel.payload.manifest)
    ensures result.Done? && result.removed ==>
              forall id :: id in DeletableIds(Dropped(previous.payload.manifest, rel.payload.manifest)) ==>
                  id !in client.objects
  {
    hide AgreeOutside, Holds, Ids, Evolves, SoleDeployed, Faithful, Newest, KeepsNewest, Collides, DeletableIds,
        Dropped, Stored, RevisionsOf;
    ghost var o1, s1 := client.objects, storage.records;
    var removed := PruneRemovedResources(client, previous.payload.manifest, rel.payload.manifest);
    RemovalOutcome(o1, client.objects, previous.payload.manifest, rel.payload.manifest, removed);
    var settled := Settle(storage, rel, historyMax);
    var now := rel.(status := Deployed);
    SettledFromStart(s0, s1, storage.records, rel, now);
    if settled.NotRecorded? {
      return Unrecorded(previous, rel);
    }
    if settled.pruned && historyMax > 0 {
      SameRevisionsSameKeeping(s0[rel.At() := now], s1, storage.records, rel.name, historyMax);
    }
    result := Done(previous, now, removed, settled.demoted, settled.pruned);
  }

  lemma RemovalOutcome(before: Objects, after: Objects, previous: Manifest, manifest: Manifest, removed: bool)
    requires Holds(before, manifest) && AgreeOutside(before, after, DeletableIds(Dropped(previous, manifest)))
    requires removed ==> after == before - DeletableIds(Dropped(previous, manifest))
    ensures AgreeOutside(before, after, Ids(previous))
    ensures !Collides(previous, manifest) ==> Holds(after, manifest)
    ensures removed && Collides(previous, manifest) ==> !Holds(after, manifest)
    ensures removed ==> forall id :: id in DeletableIds(Dropped(previous, manifest)) ==> id !in after
  {
    DroppedIds(previous, manifest);
    RemovalSparesManifest(before, previous, manifest);
    if !Collides(previous, manifest) {
      OverlayMeaning(map[], manifest);
    }
  }

  method Upgrade(storage: ReleaseStorage, client: KubeClient, name: string, rendering: Rendering, install: bool,
      opts: Options)
    returns (result: Result)
    requires storage.Intact()
    modifies storage, client
    ensures storage.Intact() && Evolves(old(storage.records), storage.records, name)
    ensures result.Refused? || result.Rehearsed? ==>
        storage.records == old(storage.records) && client.objects == old(client.objects)
    ensures result.Installed? ==> install && forall k :: k in old(storage.records) ==> k.name != name
    ensures result.Installed? ==>
              Install.Kept(old(storage.records), storage.records, old(client.objects), client.objects, name, rendering,
                           Options(opts.atomic, false, false, opts.wait, false, opts.noHooks, 0, opts.dryRun),
                           result.install)
    ensures Attempted(result) ==> Follows(old(storage.records), name, rendering, result)
    ensures Attempted(result) ==> AgreeOutside(old(client.objects), client.objects,
              Ids(result.previous.payload.manifest) + Ids(result.rel.payload.manifest))
    ensures result.Broken? ==> result.rel.status == Failed
    ensures result.Broken? ==>
              OnlyStatusOf(old(storage.records)[result.rel.At() := result.rel], storage.records,
                  {result.previous.At(), result.rel.At()})
    ensures result.Broken? && result.clean ==>
        result.rel.At() in storage.records && storage.records[result.rel.At()] == result.rel
    ensures result.Broken? ==> result.stage in StagesFor(rendering.crds, opts)
    ensures result.Broken? && result.clean && opts.atomic && !result.stage.Crds? && !result.stage.ForceDelete? ==>
              RolledBack(storage.records, client.objects, result.previous, result.rel)
    ensures result.Broken? && (!opts.atomic || result.stage.Crds? || result.stage.ForceDelete?) ==>
              || storage.records == old(storage.records)[result.rel.At() := result.rel]
              || storage.records == old(storage.records)[result.rel.At() := result.rel.(status := PendingUpgrade)]
    ensures result.Broken? && (result.stage.Crds? || result.stage.ForceDelete?
                               || (!opts.atomic && !opts.cleanupOnFail)) ==>
              StoppedBefore(old(client.objects), client.objects, result.previous.payload.manifest,
                  result.rel.payload.manifest, rendering.crds, result.stage)
    ensures result.Broken? && result.clean && result.stage.Ready? && opts.cleanupOnFail && !opts.atomic ==>
              BackTo(client.objects, result.rel.payload.manifest, result.previous.payload.manifest)
    ensures result.Done? ==>
        Newest(storage.records, result.rel.At()) && storage.records[result.rel.At()] == result.rel
        && result.rel.status == Deployed
    ensures result.Done? && result.demoted ==> SoleDeployed(storage.records, result.rel.At())
    ensures result.Done? && result.pruned && opts.historyMax > 0 ==>
              KeepsNewest(old(storage.records)[result.rel.At() := result.rel], storage.records, name, opts.historyMax)
    ensures result.Done? && !Collides(result.previous.payload.manifest, result.rel.payload.manifest) ==>
              Holds(client.objects, result.rel.payload.manifest)
    ensures result.Done? && result.removed ==>
      (Collides(result.previous.payload.manifest, result.rel.payload.manifest) ==>
         !Holds(client.objects, result.rel.payload.manifest))
    ensures result.Done? && result.removed ==>
      var dropped := Dropped(result.previous.payload.manifest, result.rel.payload.manifest);
      forall id :: id in DeletableIds(dropped) ==> id !in client.objects
  {
    hide AgreeOutside, Holds, Ids, Evolves, SoleDeployed, Faithful, Filed, Newest, KeepsNewest, OnlyStatusOf, Collides,
        DeletableIds, Dropped, RolledBack, Stored, StoppedBefore, StagesFor, BackTo, Install.Kept;
    ghost var s0, o0 := storage.records, client.objects;
    EvolvesByStatusSelf(s0, name);
    FaithfulIsFiled(storage.records, storage.created);
    var found := storage.Last(name);
    if found.NotFound? && install {
      var outcome := Install.Install(storage, client, name, rendering, InstallOptions(opts));
      return Installed(outcome);
    }
    if !found.Found? || rendering.RenderFailed? {
      return Refused;
    }
    var previous := found.rel;
    var payload := rendering.payload.(manifest := rendering.crds + rendering.payload.manifest);
    var rel := Record(name, previous.revision + 1, PendingUpgrade, payload);
    var ok: bool := *;
    if opts.dryRun.Client? || opts.dryRun.Server? {
      return Rehearsed(rel.(status := Deployed), opts.dryRun.Client? || ok);
    }
    RevisionsArePositive(s0, storage.created, previous);
    ok := storage.Create(rel);
    if !ok {
      return Refused;
    }
    CreatedFaithfully(s0, old(storage.created), rel);
    NextRevision(s0, old(storage.created), previous, rel);
    CrdsAreIncluded(rendering.crds, rendering.payload.manifest);
    ghost var s1 := storage.records;
    var d, trace := Deploy(storage, client, previous, rel, rendering.crds, opts);
    if d.Stopped? {
      AfterDeploy(s0, s1, storage.records, storage.created, previous, rel);
      LastIsPassed(rendering.crds, opts, trace.passed, d.stage);
      return Broken(d.stage, previous, d.rel, d.clean);
    }
    ghost var o1 := client.objects;
    result := Finish(storage, client, previous, rel, opts.historyMax, s0);
    AgreeTwice(o0, o1, client.objects, Ids(previous.payload.manifest) + Ids(payload.manifest),
        Ids(previous.payload.manifest),
               Ids(previous.payload.manifest) + Ids(payload.manifest));
  }

  lemma RevisionsArePositive(s: Store, created: map<Key, Payload>, r: Record)
    requires Faithful(s, created) && r.At() in s
    ensures r.revision >= 1
  {
  }

  // ----- what a clean atomic rollback amounts to -----

  /** Keys name objects consistently across two manifests. */
  ghost predicate SameNaming(m: Manifest, n: Manifest) {
    forall r, q :: r in m && q in n && r.key == q.key ==> r.id == q.id
  }

  /** Main result: when the cluster held the previous manifest and nothing of
      what only the failed one declares, and none of that is marked keep, a
      clean rollback leaves the cluster as if the upgrade had never started. */
  lemma RollbackRestoresCluster(start: Objects, end: Objects, store: Store, previous: Record, failed: Record)
    requires RolledBack(store, end, previous, failed)
    requires AgreeOutside(start, end, Ids(previous.payload.manifest) + Ids(failed.payload.manifest))
    requires Holds(start, previous.payload.manifest)
    requires SameNaming(failed.payload.manifest, previous.payload.manifest)
    requires forall r :: r in failed.payload.manifest && r.key !in Keys(previous.payload.manifest) ==> !r.keep
    requires forall id :: id in Ids(failed.payload.manifest) - Ids(previous.payload.manifest) ==> id !in start
    ensures end == start
  {
    var prev, next := previous.payload.manifest, failed.payload.manifest;
    OverlayMeaning(map[], prev);
    forall id | id in Ids(next) - Ids(prev) ensures id !in end {
      FailedOnly(prev, next, id);
    }
    forall id: string ensures id in start <==> id in end {
      if id in Ids(prev) { assert id in Desired(prev); }
    }
    forall id | id in start ensures end[id] == start[id] {
      if id in Ids(prev) { assert id in Desired(prev); }
    }
  }

  lemma FailedOnly(prev: Manifest, next: Manifest, id: string)
    requires SameNaming(next, prev) && id in Ids(next) && id !in Ids(prev)
    ensures exists r :: r in next && r.id == id && r.key !in Keys(prev)
  {
    var i :| 0 <= i < |next| && next[i].id == id;
    var r := next[i];
    assert r in next;
    forall j | 0 <= j < |prev| ensures prev[j].key != r.key {
      assert prev[j] in prev && prev[j].id in Ids(prev);
    }
  }

  /** The rollback declares the previous revision deployed whatever it was, so
      one deployed revision is left exactly when no third revision was deployed. */
  lemma RollbackLeavesOneDeployed(before: Store, after: Store, objects: Objects, previous: Record, failed: Record)
    requires previous.name == failed.name && failed.At() !in before && previous.At() in before
    requires OnlyStatusOf(before[failed.At() := failed], after, {previous.At(), failed.At()})
    requires RolledBack(after, objects, previous, failed)
    ensures SoleDeployed(after, previous.At()) <==>
            forall k {:trigger before[k]} :: k in before && k.name == previous.name && k != previous.At() ==>
                before[k].status != Deployed
  {
    var mid := before[failed.At() := failed];
    forall k | k in before && k != previous.At() ensures after[k] == before[k] {
      assert after[k] == mid[k] || k in {previous.At(), failed.At()};
    }
    if SoleDeployed(after, previous.At()) {
      forall k | k in before && k.name == previous.name && k != previous.At() ensures before[k].status != Deployed {
        assert after[k] == before[k];
      }
    } else {
      var k :| k in after && k.name == previous.name && after[k].status == Deployed && k != previous.At();
      assert after[k] == before[k];
    }
  }

  /** Spelling out the namespace a resource already lived in makes the old
      spelling a dropped resource: the upgrade deletes what it has just applied. */
  lemma RespelledResourceCollides(body: string)
    ensures Collides([Resource("v1/Service//web", "services/default/web", body, false, false, 0)],
                     [Resource("v1/Service/default/web", "services/default/web", body, false, false, 0)])
  {
    var old1, new1 := Resource("v1/Service//web", "services/default/web", body, false, false, 0),
                      Resource("v1/Service/default/web", "services/default/web", body, false, false, 0);
    var previous, manifest := [old1], [new1];
    MissingMeaning(previous, manifest);
    WithoutCrdsMeaning(Missing(previous, manifest));
    assert old1.key !in Keys(manifest);
    assert old1 in Dropped(previous, manifest);
    assert manifest[0].id in Ids(manifest);
  }
}
