/** Rolling a release back: a new revision with the record of an old one. Only a
    forced rollback deletes what the newest revision has before it applies the
    target, and no rollback that fails is undone beyond the cleanup asked for. */
module Rollback {
  import opened Records
  import opened Storage
  import opened History
  import opened Cluster
  import opened Steps

  datatype Options = Options(revision: int, wait: bool, noHooks: bool, historyMax: int, force: bool,
      cleanupOnFail: bool)

  datatype Result =
    | Refused
    | Abandoned(current: Record, target: Record, rel: Record)
    | Broken(stage: Stage, current: Record, target: Record, rel: Record, clean: bool)
    | Unrecorded(current: Record, target: Record, rel: Record)
    | Done(current: Record, target: Record, rel: Record, demoted: bool, pruned: bool)

  function TargetRevision(opts: Options, current: int): int {
    if opts.revision == 0 then current - 1 else opts.revision
  }

  /** The new revision follows the newest one and carries everything the target recorded at creation. */
  ghost predicate Repeats(before: Store, created: map<Key, Payload>, name: string, opts: Options, r: Result)
    requires !r.Refused?
  {
    && r.current.name == name && Newest(before, r.current.At()) && before[r.current.At()] == r.current
    && r.target.At() == Key(name, if opts.revision == 0 then r.current.revision - 1 else opts.revision)
    && r.target.At() in before && before[r.target.At()] == r.target && r.target.At() in created
    && r.rel.At() == Key(name, r.current.revision + 1) && r.rel.At() !in before
    && r.rel.payload == created[r.target.At()]
  }

  /** What a forced rollback deletes before it applies the target. */
  function Cleared(objects: Objects, current: Manifest, opts: Options): Objects {
    if opts.force then objects - DeletableIds(current) else objects
  }

  /** What a rollback that stops leaves in the cluster, and that the step was asked for. */
  ghost predicate LeftAt(stage: Stage, before: Objects, after: Objects, current: Manifest, target: Manifest,
      opts: Options, clean: bool)
  {
    match stage
    case PreHook => !opts.noHooks && after == before
    case ForceDelete => opts.force && exists only :: PartlyDeleted(before, after, current, only)
    case Apply =>
      if opts.cleanupOnFail then clean ==> forall id :: id in DeletableIds(target) ==> id !in after
      else PartlyApplied(if opts.force then before - DeletableIds(current) else before, after, target)
    case Ready => opts.wait && after == Overlay(Cleared(before, current, opts), target)
    case PostHook => !opts.noHooks && after == Overlay(Cleared(before, current, opts), target)
    case _ => false
  }

  lemma LessClean(stage: Stage, before: Objects, after: Objects, current: Manifest, target: Manifest,
      opts: Options, clean: bool, marked: bool)
    requires LeftAt(stage, before, after, current, target, opts, clean)
    ensures LeftAt(stage, before, after, current, target, opts, marked && clean)
  {
    hide Overlay, PartlyApplied, PartlyDeleted, DeletableIds;
  }

  /** Steps 3 to 6: hooks, optional pre-delete, apply, optional wait. */
  method RunRollback(client: KubeClient, current: Manifest, target: Manifest, opts: Options)
      returns (progress: Progress, clean: bool)
    modifies client
    ensures AgreeOutside(old(client.objects), client.objects, Ids(current) + Ids(target))
    ensures !opts.force ==> AgreeOutside(old(client.objects), client.objects, Ids(target))
    ensures progress.Finished? ==> Holds(client.objects, target)
    ensures progress.Finished? ==>
      client.objects ==
        Overlay(if opts.force then old(client.objects) - DeletableIds(current) else old(client.objects), target)
    ensures progress.StoppedAt? ==>
      LeftAt(progress.stage, old(client.objects), client.objects, current, target, opts, clean)
  {
    hide AgreeOutside, Holds, Ids, Overlay, DeletableIds, PartlyApplied, PartlyDeleted;
    ghost var start, all := client.objects, Ids(current) + Ids(target);
    AgreeWithSelf(start, all);
    AgreeWithSelf(start, Ids(target));
    DeletableOnlyIds(current, {});
    DeletableOnlyIds(target, {});
    clean := true;
    var ok: bool := *;
    if !opts.noHooks && !ok {
      return StoppedAt(PreHook), clean;
    }
    if opts.force {
      ok := client.DeleteManifests(current);
      AgreeTwice(start, start, client.objects, all, DeletableIds(current), all);
      if !ok {
        return StoppedAt(Stage.ForceDelete), clean;
      }
    }
    ghost var before := client.objects;
    ok := client.ApplyManifests(target);
    ghost var applied := client.objects;
    AgreeTwice(start, before, applied, all, Ids(target), all);
    if !ok {
      if opts.cleanupOnFail {
        clean := client.DeleteManifests(target);
        AgreeTwice(start, applied, client.objects, all, DeletableIds(target), all);
        if !opts.force { AgreeTwice(start, applied, client.objects, Ids(target), DeletableIds(target), Ids(target)); }
      }
      return StoppedAt(Apply), clean;
    }
    ok := *;
    if opts.wait && !ok {
      return StoppedAt(Ready), clean;
    }
    ok := *;
    if !opts.noHooks && !ok {
      return StoppedAt(PostHook), clean;
    }
    progress := Finished;
  }

  method Rollback(storage: ReleaseStorage, client: KubeClient, name: string, opts: Options) returns (result: Result)
    requires storage.Intact()
    modifies storage, client
    ensures storage.Intact() && Evolves(old(storage.records), storage.records, name)
    ensures result.Refused? ==> storage.records == old(storage.records) && client.objects == old(client.objects)
    ensures !result.Refused? ==> Repeats(old(storage.records), old(storage.created), name, opts, result)
    ensures !result.Refused? ==> AgreeOutside(old(client.objects), client.objects,
              Ids(result.current.payload.manifest) + Ids(result.target.payload.manifest))
    ensures !result.Refused? ==> storage.records.Keys <= old(storage.records).Keys + {result.rel.At()}
    ensures !result.Refused? ==> storage.created == old(storage.created)[result.rel.At() := result.rel.payload]
    ensures result.Abandoned? || result.Unrecorded? ==>
        storage.records == old(storage.records)[result.rel.At() := result.rel]
    ensures result.Broken? && result.clean ==>
        storage.records == old(storage.records)[result.rel.At() := result.rel] && result.rel.status == Failed
    ensures result.Abandoned? ==> client.objects == old(client.objects)
    ensures result.Broken? ==>
      LeftAt(result.stage, old(client.objects), client.objects, result.current.payload.manifest,
             result.target.payload.manifest, opts, result.clean)
    ensures result.Unrecorded? || result.Done? ==> Holds(client.objects, result.target.payload.manifest)
    ensures result.Unrecorded? || result.Done? ==>
              client.objects == Overlay(Cleared(old(client.objects), result.current.payload.manifest, opts),
                  result.target.payload.manifest)
    ensures result.Done? ==>
        Newest(storage.records, result.rel.At()) && storage.records[result.rel.At()] == result.rel
        && result.rel.status == Deployed
    ensures result.Done? && result.demoted ==> SoleDeployed(storage.records, result.rel.At())
    ensures result.Done? && result.pruned && opts.historyMax > 0 ==>
              KeepsNewest(old(storage.records)[result.rel.At() := result.rel], storage.records, name, opts.historyMax)
  {
    hide AgreeOutside, Holds, Ids, Overlay, Evolves, SoleDeployed, Faithful, Filed, Newest, KeepsNewest, Stored,
        RevisionsOf, LeftAt;
    ghost var s0, c0 := storage.records, storage.created;
    EvolvesByStatusSelf(s0, name);
    FaithfulIsFiled(s0, c0);
    var found := storage.Last(name);
    if !found.Found? {
      return Refused;
    }
    var current := found.rel;
    if TargetRevision(opts, current.revision) < 1 {
      return Refused;
    }
    found := storage.Get(name, TargetRevision(opts, current.revision));
    if !found.Found? {
      return Refused;
    }
    var target := found.rel;
    var rel := Record(name, current.revision + 1, PendingRollback, target.payload);
    NextRollback(s0, c0, current, Key(name, TargetRevision(opts, current.revision)), target, rel);
    var ok := storage.Create(rel);
    if !ok {
      return Refused;
    }
    CreatedFaithfully(s0, c0, rel);
    NextRevision(s0, c0, current, rel);
    ghost var s1 := storage.records;
    ok := *;
    if |target.payload.hookTemplates| > 0 && !ok {
      AgreeWithSelf(client.objects, Ids(current.payload.manifest) + Ids(target.payload.manifest));
      return Abandoned(current, target, rel);
    }
    var progress, clean := RunRollback(client, current.payload.manifest, target.payload.manifest, opts);
    if progress.StoppedAt? {
      FaithfulIsFiled(s1, storage.created);
      var failed, marked := MarkFailed(storage, rel);
      AfterRewrite(s0, s1, storage.records, storage.created, rel, failed);
      LessClean(progress.stage, old(client.objects), client.objects, current.payload.manifest,
                target.payload.manifest, opts, clean, marked);
      return Broken(progress.stage, current, target, failed, marked && clean);
    }
    var settled := Settle(storage, rel, opts.historyMax);
    var now := rel.(status := Deployed);
    SettledFromStart(s0, s1, storage.records, rel, now);
    if settled.NotRecorded? {
      return Unrecorded(current, target, rel);
    }
    if settled.pruned && opts.historyMax > 0 {
      SameRevisionsSameKeeping(s0[rel.At() := now], s1, storage.records, name, opts.historyMax);
    }
    result := Done(current, target, now, settled.demoted, settled.pruned);
  }

  lemma NextRollback(s: Store, created: map<Key, Payload>, current: Record, at: Key, target: Record, rel: Record)
    requires Faithful(s, created) && Newest(s, current.At()) && s[current.At()] == current
    requires at in s && s[at] == target
    requires rel.At() == Key(current.name, current.revision + 1) && rel.payload == target.payload
    ensures rel.revision >= 1 && target.At() == at && at in created && rel.payload == created[at]
  {
  }
}
