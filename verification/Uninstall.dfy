/** Uninstalling a release: its objects go, custom resource definitions stay. The
    history goes last, or stays with its newest revision marked superseded. A
    failing step in between stops the run and marks the revision as failed. */
module Uninstall {
  import opened Records
  import opened Storage
  import opened History
  import opened Cluster
  import opened Steps

  datatype Options = Options(keepHistory: bool, noHooks: bool, ignoreNotFound: bool, wait: bool)

  datatype Result =
    | Refused
    | NothingThere
    | Broken(current: Record, clean: bool)
    | Incomplete(current: Record)
    | Done(current: Record, allDeleted: bool)

  /** What uninstalling deletes. */
  function Removable(current: Record): set<string> {
    DeletableIds(WithoutCrds(current.payload.manifest))
  }

  /** Steps 3 to 5 up to the first that fails. */
  method RunUninstall(client: KubeClient, m: Manifest, opts: Options) returns (finished: bool)
    modifies client
    ensures AgreeOutside(old(client.objects), client.objects, DeletableIds(WithoutCrds(m)))
    ensures finished ==> client.objects == old(client.objects) - DeletableIds(WithoutCrds(m))
    ensures !finished ==>
      || client.objects == old(client.objects)
      || client.objects == old(client.objects) - DeletableIds(WithoutCrds(m))
      || exists only :: PartlyDeleted(old(client.objects), client.objects, WithoutCrds(m), only)
  {
    var parsed: bool, hook: bool := *, *;
    if !parsed || (!opts.noHooks && !hook) {
      return false;
    }
    var filtered, deletable := ExcludeCrds(m);
    if !filtered {
      return false;
    }
    var deleted := client.DeleteManifests(deletable);
    if !deleted {
      return false;
    }
    var gone: bool := *;
    if opts.wait && !gone {
      return false;
    }
    hook := *;
    if !opts.noHooks && !hook {
      return false;
    }
    finished := true;
  }

  /** Deletes every revision, going on past failures. */
  method DeleteHistory(storage: ReleaseStorage, name: string, history: seq<Record>) returns (allDeleted: bool)
    requires storage.Intact() && IsHistory(storage.records, name, history)
    modifies storage`records
    ensures storage.Intact() && Evolves(old(storage.records), storage.records, name)
    ensures storage.records.Keys <= old(storage.records).Keys
    ensures allDeleted ==> RevisionsOf(storage.records, name) == {}
  {
    allDeleted := true;
    ghost var start := storage.records;
    for i := 0 to |history|
      invariant storage.Intact() && storage.records.Keys <= start.Keys
      invariant forall k {:trigger storage.records[k]} :: k in storage.records ==> storage.records[k] == start[k]
      invariant forall k :: k in start && k.name != name ==> k in storage.records
      invariant allDeleted ==> forall j :: 0 <= j < i ==> history[j].At() !in storage.records
    {
      assert history[i] in history;
      var deleted := storage.Delete(history[i].name, history[i].revision);
      if !deleted {
        allDeleted := false;
      }
    }
    if allDeleted {
      forall k | k in start && k.name == name ensures k !in storage.records {
        var j :| 0 <= j < |history| && history[j] == start[k];
        assert history[j].At() == k;
      }
    }
  }

  method Uninstall(storage: ReleaseStorage, client: KubeClient, name: string, opts: Options) returns (result: Result)
    requires storage.Intact()
    modifies storage`records, client
    ensures storage.Intact() && Evolves(old(storage.records), storage.records, name)
    ensures storage.records.Keys <= old(storage.records).Keys
    ensures result.Refused? || result.NothingThere? ==>
        storage.records == old(storage.records) && client.objects == old(client.objects)
    ensures result.NothingThere? ==> opts.ignoreNotFound
    ensures result.Broken? || result.Incomplete? || result.Done? ==>
              Newest(old(storage.records), result.current.At()) && result.current.name == name
              && old(storage.records)[result.current.At()]
                  == result.current.(status := old(storage.records)[result.current.At()].status)
    ensures result.Broken? || result.Incomplete? || result.Done? ==>
              AgreeOutside(old(client.objects), client.objects, Removable(result.current))
    ensures result.Broken? ==>
        result.current.status == Failed
        && OnlyStatusOf(old(storage.records), storage.records, {result.current.At()})
    ensures result.Broken? && result.clean ==>
        storage.records == old(storage.records)[result.current.At() := result.current]
    ensures result.Incomplete? || result.Done? ==> client.objects == old(client.objects) - Removable(result.current)
    ensures result.Done? && !opts.keepHistory && result.allDeleted ==> RevisionsOf(storage.records, name) == {}
    ensures result.Done? && opts.keepHistory ==>
              result.current.status == Superseded
                  && storage.records == old(storage.records)[result.current.At() := result.current]
  {
    hide AgreeOutside, Evolves, Faithful, Filed, Newest, OnlyStatusOf, RevisionsOf, DeletableIds, WithoutCrds,
        IsHistory;
    ghost var s0 := storage.records;
    EvolvesByStatusSelf(s0, name);
    FaithfulIsFiled(s0, storage.created);
    var found := storage.Last(name);
    if !found.Found? {
      return if opts.ignoreNotFound then NothingThere else Refused;
    }
    var before := found.rel;
    var current := before.(status := Uninstalling);
    var ok := storage.Update(current);
    if !ok {
      return Refused;
    }
    Restatus(s0, s0, storage.records, storage.created, before, current);
    var finished := RunUninstall(client, current.payload.manifest, opts);
    ghost var s1 := storage.records;
    FaithfulIsFiled(s1, storage.created);
    if !finished {
      var failed, clean := MarkFailed(storage, current);
      Restatus(s0, s1, storage.records, storage.created, before, failed);
      return Broken(failed, clean);
    }
    if opts.keepHistory {
      current := current.(status := Superseded);
      ok := storage.Update(current);
      Restatus(s0, s1, storage.records, storage.created, before, current);
      return if ok then Done(current, false) else Incomplete(current);
    }
    var readable, history := storage.History(name);
    if !readable {
      return Incomplete(current);
    }
    var allDeleted := DeleteHistory(storage, name, history);
    Subset(s0, s1, storage.records);
    EvolvesTwice(s0, s1, storage.records, name);
    result := Done(current, allDeleted);
  }

  lemma Subset(a: Store, b: Store, c: Store)
    requires c.Keys <= b.Keys
    ensures forall k :: k in a && k in c ==> k in b
  {
  }

  /** Writing one revision under another status, once or twice. */
  lemma Restatus(s0: Store, s1: Store, s2: Store, created: map<Key, Payload>, before: Record, now: Record)
    requires Faithful(s0, created) && before.At() in s0 && s0[before.At()] == before
        && now == before.(status := now.status)
    requires s1.Keys == s0.Keys && s1[before.At()] == before.(status := s1[before.At()].status)
        && s1 == s0[before.At() := s1[before.At()]]
    requires s2 == s1 || s2 == s1[before.At() := now]
    ensures Faithful(s2, created) && Evolves(s0, s2, before.name) && OnlyStatusOf(s0, s2, {before.At()})
    ensures s2.Keys == s0.Keys
    ensures s2 == s1 || s2 == s0[before.At() := now]
  {
    hide Faithful, Evolves;
    StatusKeepsFaith(s0, s2, created, {before.At()});
    EvolvesByStatus(s0, s2, {before.At()}, before.name);
  }
}
