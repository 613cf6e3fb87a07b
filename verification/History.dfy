/** The bookkeeping every release operation shares: failure marks, retried
    writes, demotion of older deployed revisions and history pruning. Each loop
    goes on past a failing write, so each is stated for any set of failures. */
module History {
  import opened Records
  import opened Storage

  /** Up to three attempts at the final status write. */
  method UpdateWithRetry(storage: ReleaseStorage, rel: Record) returns (ok: bool, ghost attempts: nat)
    requires storage.Valid()
    modifies storage`records
    ensures storage.Valid()
    ensures ok ==> rel.At() in old(storage.records) && storage.records == old(storage.records)[rel.At() := rel]
    ensures !ok ==> storage.records == old(storage.records)
    ensures 1 <= attempts <= 3 && (!ok ==> attempts == 3)
  {
    ok, attempts := false, 0;
    for attempt := 0 to 3
      invariant !ok && storage.Valid() && storage.records == old(storage.records) && attempts == attempt
    {
      ok := storage.Update(rel);
      attempts := attempts + 1;
      if ok {
        break;
      }
    }
  }

  /** Writes the Failed status; returns whether the write was persisted. */
  method MarkFailed(storage: ReleaseStorage, rel: Record) returns (failed: Record, ok: bool)
    requires storage.Valid()
    modifies storage`records
    ensures storage.Valid() && failed == rel.(status := Failed)
    ensures ok ==> rel.At() in old(storage.records) && storage.records == old(storage.records)[rel.At() := failed]
    ensures !ok ==> storage.records == old(storage.records)
  {
    failed := rel.(status := Failed);
    ok := storage.Update(failed);
  }

  /** Demotes every deployed revision but one; reports whether nothing was missed. */
  method SupersedeOtherDeployed(storage: ReleaseStorage, name: string, keep: int) returns (complete: bool)
    requires storage.Valid()
    modifies storage`records
    ensures storage.Valid() && PartlyDemoted(old(storage.records), storage.records, name, keep)
    ensures complete ==> storage.records == DemoteOthers(old(storage.records), name, keep)
  {
    var ok, history := storage.History(name);
    if !ok {
      return false;
    }
    complete := true;
    for i := 0 to |history|
      invariant storage.Valid() && PartlyDemoted(old(storage.records), storage.records, name, keep)
      invariant forall j :: i <= j < |history| ==> storage.records[history[j].At()] == history[j]
      invariant complete ==> forall j :: 0 <= j < i ==> storage.records[history[j].At()] == Demoted(history[j], keep)
      invariant forall k {:trigger storage.records[k]} :: k in storage.records && k.name != name ==>
        storage.records[k] == old(storage.records)[k]
    {
      var r := history[i];
      if r.revision == keep || r.status != Deployed {
        continue;
      }
      var updated, _ := UpdateWithRetry(storage, r.(status := Superseded));
      if !updated {
        complete := false;
      }
    }
    if complete {
      AllDemoted(old(storage.records), storage.records, name, keep, history);
    }
  }

  lemma AllDemoted(before: Store, after: Store, name: string, keep: int, h: seq<Record>)
    requires PartlyDemoted(before, after, name, keep) && Filed(before) && IsHistory(before, name, h)
    requires forall j :: 0 <= j < |h| ==> h[j].At() in after && after[h[j].At()] == Demoted(h[j], keep)
    requires forall k {:trigger after[k]} :: k in after && k.name != name ==> after[k] == before[k]
    ensures after == DemoteOthers(before, name, keep)
  {
    forall k | k in before && k.name == name ensures after[k] == Demoted(before[k], keep) {
      var j :| 0 <= j < |h| && h[j] == before[k];
      assert h[j].At() == k;
    }
  }

  /** The highest deployed revision in a history, or -1. */
  method NewestDeployedRevision(history: seq<Record>) returns (revision: int)
    ensures forall r :: r in history && r.status == Deployed ==> r.revision <= revision
    ensures revision == -1 || exists r :: r in history && r.status == Deployed && r.revision == revision
  {
    revision := -1;
    for i := 0 to |history|
      invariant forall j :: 0 <= j < i && history[j].status == Deployed ==> history[j].revision <= revision
      invariant revision == -1 || exists r :: r in history && r.status == Deployed && r.revision == revision
    {
      if history[i].status == Deployed && history[i].revision > revision {
        revision := history[i].revision;
        assert history[i] in history;
      }
    }
  }

  lemma PrunableAt(store: Store, name: string, maxKeep: nat, h: seq<Record>, newest: int, i: nat)
    requires Filed(store) && IsHistory(store, name, h) && i < |h|
    requires forall r :: r in h && r.status == Deployed ==> r.revision <= newest
    requires newest == -1 || exists r :: r in h && r.status == Deployed && r.revision == newest
    ensures h[i].At() in store && h[i].name == name
    ensures Prunable(store, name, maxKeep, h[i].At()) <==> i + maxKeep < |h| && h[i].revision != newest
  {
    NewerByPosition(store, name, h, i);
    assert h[i] in h;
    if h[i].revision == newest {
      var r :| r in h && r.status == Deployed && r.revision == newest;
      var j :| 0 <= j < |h| && h[j] == r;
      assert j == i;
    }
  }

  /** Drops revisions beyond the maxKeep newest, never the newest deployed one. */
  method PruneReleaseHistory(storage: ReleaseStorage, name: string, maxKeep: nat) returns (complete: bool)
    requires storage.Valid()
    modifies storage`records
    ensures storage.Valid() && PartlyPruned(old(storage.records), storage.records, name, maxKeep)
    ensures complete ==> storage.records == Pruned(old(storage.records), name, maxKeep)
  {
    hide Prunable;
    var ok, history := storage.History(name);
    if !ok {
      return false;
    }
    complete := true;
    var newest := NewestDeployedRevision(history);
    ghost var store := storage.records;
    var cutoff := if |history| <= maxKeep then 0 else |history| - maxKeep;
    for i := 0 to cutoff
      invariant storage.Valid() && PartlyPruned(store, storage.records, name, maxKeep)
      invariant complete ==> forall j :: 0 <= j < i && history[j].revision != newest ==>
        history[j].At() !in storage.records
    {
      assert history[i] in history;
      PrunableAt(store, name, maxKeep, history, newest, i);
      if history[i].revision == newest {
        continue;
      }
      var deleted := storage.Delete(history[i].name, history[i].revision);
      if !deleted {
        complete := false;
      }
    }
    if complete {
      AllPruned(store, storage.records, name, maxKeep, history, newest);
    }
  }

  lemma AllPruned(before: Store, after: Store, name: string, maxKeep: nat, h: seq<Record>, newest: int)
    requires PartlyPruned(before, after, name, maxKeep) && Filed(before) && IsHistory(before, name, h)
    requires forall r :: r in h && r.status == Deployed ==> r.revision <= newest
    requires newest == -1 || exists r :: r in h && r.status == Deployed && r.revision == newest
    requires forall j :: 0 <= j && j + maxKeep < |h| && h[j].revision != newest ==> h[j].At() !in after
    ensures after == Pruned(before, name, maxKeep)
  {
    forall k | k in before && Prunable(before, name, maxKeep, k) ensures k !in after {
      var j :| 0 <= j < |h| && h[j] == before[k];
      PrunableAt(before, name, maxKeep, h, newest, j);
      assert h[j].At() == k;
    }
  }

  // ----- settling a finished operation -----

  datatype Settlement = NotRecorded | Recorded(demoted: bool, pruned: bool)

  lemma RecordedIsNewest(before: Store, rel: Record, deployed: Record)
    requires Filed(before) && Stored(before, rel) && Newest(before, rel.At()) && deployed == rel.(status := Deployed)
    ensures OnlyStatusOf(before, before[rel.At() := deployed], {rel.At()})
    ensures Newest(before[rel.At() := deployed], rel.At()) && Filed(before[rel.At() := deployed])
  {
  }

  lemma DemotionKeepsNewest(before: Store, after: Store, at: Key)
    requires Newest(before, at) && before[at].status == Deployed && before[at].revision == at.revision
        && PartlyDemoted(before, after, at.name, at.revision)
    ensures Newest(after, at) && after[at] == before[at]
    ensures RevisionsOf(after, at.name) == RevisionsOf(before, at.name)
  {
  }

  lemma PruningKeepsTheNewest(before: Store, after: Store, at: Key, maxKeep: nat)
    requires Filed(before) && PartlyPruned(before, after, at.name, maxKeep) && maxKeep >= 1
    requires Newest(before, at) && before[at].status == Deployed
    ensures at in after && after[at] == before[at] && Newest(after, at)
    ensures SoleDeployed(before, at) ==> SoleDeployed(after, at)
  {
    assert Newer(before, at) == {};
    assert !Prunable(before, at.name, maxKeep, at);
  }

  lemma SameRevisionsSameKeeping(before: Store, same: Store, after: Store, name: string, maxKeep: nat)
    requires RevisionsOf(before, name) == RevisionsOf(same, name) && KeepsNewest(same, after, name, maxKeep)
    ensures KeepsNewest(before, after, name, maxKeep)
  {
  }

  /** A history listing exists for every store, so statements about pruning need not mention one. */
  lemma PruningKeepsNewestAnyHistory(storage: Store, at: Key, maxKeep: nat)
    requires Filed(storage) && maxKeep >= 1 && Newest(storage, at) && storage[at].status == Deployed
    ensures KeepsNewest(storage, Pruned(storage, at.name, maxKeep), at.name, maxKeep)
  {
    var h := Listing(storage, at.name, RevisionsOf(storage, at.name));
    PruningKeepsNewest(storage, at, maxKeep, h);
  }

  lemma Listing(store: Store, name: string, keys: set<Key>) returns (h: seq<Record>)
    requires Filed(store) && keys <= RevisionsOf(store, name)
    ensures Ascending(h)
    ensures forall r :: r in h <==> r.At() in keys && store[r.At()] == r
    ensures keys == RevisionsOf(store, name) ==> IsHistory(store, name, h)
    decreases |keys|
  {
    h := [];
    if keys != {} {
      var k :| k in keys;
      var rest := Listing(store, name, keys - {k});
      h := Insert(store[k], rest);
    }
  }

  /** Marks the new revision deployed, demotes all others and prunes. */
  method Settle(storage: ReleaseStorage, rel: Record, historyMax: int) returns (s: Settlement)
    requires storage.Intact() && Stored(storage.records, rel) && Newest(storage.records, rel.At())
    modifies storage`records
    ensures storage.Intact() && Evolves(old(storage.records), storage.records, rel.name)
    ensures storage.records.Keys <= old(storage.records).Keys
    ensures s.NotRecorded? ==> storage.records == old(storage.records)
    ensures s.Recorded? ==> Newest(storage.records, rel.At()) && storage.records[rel.At()] == rel.(status := Deployed)
    ensures s.Recorded? && s.demoted ==> SoleDeployed(storage.records, rel.At())
    ensures s.Recorded? && s.pruned && historyMax > 0 ==>
        KeepsNewest(old(storage.records), storage.records, rel.name, historyMax)
    ensures s.Recorded? && historyMax <= 0 ==>
        RevisionsOf(storage.records, rel.name) == RevisionsOf(old(storage.records), rel.name)
    ensures s.Recorded? && s.demoted && historyMax <= 0 ==>
      storage.records == DemoteOthers(old(storage.records)[rel.At() := rel.(status := Deployed)], rel.name,
          rel.revision)
  {
    hide Newest, SoleDeployed, KeepsNewest, PartlyDemoted, PartlyPruned, OnlyStatusOf, Evolves, RevisionsOf, Pruned,
        DemoteOthers;
    ghost var s0 := storage.records;
    var at := rel.At();
    var deployed := rel.(status := Deployed);
    RecordedIsNewest(s0, rel, deployed);
    var ok, _ := UpdateWithRetry(storage, deployed);
    if !ok {
      EvolvesByStatusSelf(s0, rel.name);
      return NotRecorded;
    }
    ghost var s1 := storage.records;
    var demoted := SupersedeOtherDeployed(storage, rel.name, rel.revision);
    ghost var s2 := storage.records;
    AfterDemotion(s0, s1, s2, storage.created, rel, demoted);
    if historyMax <= 0 {
      return Recorded(demoted, true);
    }
    var pruned := PruneReleaseHistory(storage, rel.name, historyMax);
    AfterPruning(s0, s2, storage.records, storage.created, rel, historyMax, pruned);
    s := Recorded(demoted, pruned);
  }

  lemma EvolvesByStatusSelf(s: Store, name: string)
    ensures Evolves(s, s, name)
  {
  }

  lemma AfterDemotion(s0: Store, s1: Store, s2: Store, created: map<Key, Payload>, rel: Record, demoted: bool)
    requires Faithful(s0, created) && Stored(s0, rel) && Newest(s0, rel.At())
    requires s1 == s0[rel.At() := rel.(status := Deployed)]
    requires PartlyDemoted(s1, s2, rel.name, rel.revision)
    requires demoted ==> s2 == DemoteOthers(s1, rel.name, rel.revision)
    ensures Faithful(s2, created) && Evolves(s0, s2, rel.name) && Filed(s2)
    ensures Newest(s2, rel.At()) && s2[rel.At()] == rel.(status := Deployed)
    ensures demoted ==> SoleDeployed(s2, rel.At())
    ensures RevisionsOf(s2, rel.name) == RevisionsOf(s0, rel.name) && s2.Keys == s0.Keys
  {
    hide PartlyDemoted, Evolves, OnlyStatusOf, SoleDeployed, DemoteOthers, Newest, Faithful, RevisionsOf;
    var at := rel.At();
    FaithfulIsFiled(s0, created);
    RecordedIsNewest(s0, rel, rel.(status := Deployed));
    StatusKeepsFaith(s0, s1, created, {at});
    DemotedIsStatus(s1, s2, rel.name, rel.revision);
    var keys := set k | k in s1 && k.name == rel.name;
    StatusKeepsFaith(s1, s2, created, keys);
    FaithfulIsFiled(s2, created);
    EvolvesByStatus(s0, s1, {at}, rel.name);
    EvolvesByStatus(s1, s2, keys, rel.name);
    StatusKeepsKeys(s0, s1, {at}, rel.name);
    StatusKeepsKeys(s1, s2, keys, rel.name);
    EvolvesTwice(s0, s1, s2, rel.name);
    DemotionKeepsNewest(s1, s2, at);
    if demoted { DemotionLeavesOne(s1, at); }
  }

  lemma FaithfulIsFiled(s: Store, created: map<Key, Payload>)
    requires Faithful(s, created)
    ensures Filed(s)
  {
  }

  lemma StatusKeepsKeys(before: Store, after: Store, keys: set<Key>, name: string)
    requires OnlyStatusOf(before, after, keys)
    ensures after.Keys == before.Keys && RevisionsOf(after, name) == RevisionsOf(before, name)
  {
  }

  lemma AfterPruning(s0: Store, s2: Store, s3: Store, created: map<Key, Payload>, rel: Record, maxKeep: nat,
      pruned: bool)
    requires Faithful(s2, created) && Evolves(s0, s2, rel.name)
        && RevisionsOf(s2, rel.name) == RevisionsOf(s0, rel.name)
    requires Newest(s2, rel.At()) && s2[rel.At()] == rel.(status := Deployed) && maxKeep >= 1
    requires PartlyPruned(s2, s3, rel.name, maxKeep)
    requires pruned ==> s3 == Pruned(s2, rel.name, maxKeep)
    ensures Faithful(s3, created) && Evolves(s0, s3, rel.name) && s3.Keys <= s2.Keys
    ensures Newest(s3, rel.At()) && s3[rel.At()] == rel.(status := Deployed)
    ensures SoleDeployed(s2, rel.At()) ==> SoleDeployed(s3, rel.At())
    ensures pruned ==> KeepsNewest(s0, s3, rel.name, maxKeep)
  {
    hide Evolves, SoleDeployed, Newest, Faithful, RevisionsOf, KeepsNewest, Pruned;
    var at := rel.At();
    FaithfulIsFiled(s2, created);
    FewerKeepFaith(s2, s3, created);
    EvolvesByPruning(s2, s3, rel.name, maxKeep);
    SubsetChains(s0, s2, s3, rel.name);
    EvolvesTwice(s0, s2, s3, rel.name);
    PruningKeepsTheNewest(s2, s3, at, maxKeep);
    if pruned {
      PruningKeepsNewestAnyHistory(s2, at, maxKeep);
      SameRevisionsSameKeeping(s0, s2, s3, rel.name, maxKeep);
    }
  }

  lemma SubsetChains(a: Store, b: Store, c: Store, name: string)
    requires c.Keys <= b.Keys
    ensures forall k :: k in a && k in c ==> k in b
  {
  }

  // ----- creating the next revision -----

  lemma CreatedFaithfully(s: Store, created: map<Key, Payload>, rel: Record)
    requires Faithful(s, created) && rel.At() !in s && rel.revision >= 1
    ensures Faithful(s[rel.At() := rel], created[rel.At() := rel.payload])
    ensures Evolves(s, s[rel.At() := rel], rel.name)
  {
  }

  lemma AfterRewrite(s0: Store, s1: Store, s2: Store, created: map<Key, Payload>, rel: Record, now: Record)
    requires rel.At() !in s0 && s1 == s0[rel.At() := rel] && Faithful(s1, created)
    requires now == rel.(status := now.status)
    requires s2 == s1 || s2 == s1[rel.At() := now]
    ensures Faithful(s2, created) && Evolves(s0, s2, rel.name)
    ensures s2 == s1 || s2 == s0[rel.At() := now]
  {
    hide Faithful, Evolves;
    RewriteIsStatus(s1, s2, rel, now);
    StatusKeepsFaith(s1, s2, created, {rel.At()});
    EvolvesByCreation(s0, rel);
    EvolvesByStatus(s1, s2, {rel.At()}, rel.name);
    EvolvesTwice(s0, s1, s2, rel.name);
  }

  lemma RewriteIsStatus(s1: Store, s2: Store, rel: Record, now: Record)
    requires rel.At() in s1 && s1[rel.At()] == rel && now == rel.(status := now.status)
    requires s2 == s1 || s2 == s1[rel.At() := now]
    ensures OnlyStatusOf(s1, s2, {rel.At()})
  {
  }

  lemma NextRevision(before: Store, created: map<Key, Payload>, previous: Record, rel: Record)
    requires Faithful(before, created) && Newest(before, previous.At()) && before[previous.At()] == previous
    requires rel.At() == Key(previous.name, previous.revision + 1) && rel.At() !in before
    ensures var after := before[rel.At() := rel];
            Newest(after, rel.At()) && Stored(after, rel) && Stored(after, previous) && rel.revision >= 1
                && previous.At() != rel.At()
  {
  }

  lemma SettledFromStart(s0: Store, s1: Store, s3: Store, rel: Record, now: Record)
    requires rel.At() !in s0 && s1 == s0[rel.At() := rel] && now == rel.(status := Deployed)
    requires Evolves(s0, s1, rel.name) && Evolves(s1, s3, rel.name)
    ensures Evolves(s0, s3, rel.name)
    ensures RevisionsOf(s0[rel.At() := now], rel.name) == RevisionsOf(s1, rel.name)
  {
    hide Evolves;
    EvolvesTwice(s0, s1, s3, rel.name);
  }
}
