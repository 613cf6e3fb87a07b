/** The prune command: revisions beyond the newest `keep` of one release or of
    every release go, sparing the newest deployed one. Counting down from the
    newest is shown to drop what an operation's own pruning drops. */
module Prune {
  import opened Records
  import opened Storage
  import opened History

  ghost function PrunableKeys(store: Store, name: string, keep: nat): set<Key> {
    set k | k in store && Prunable(store, name, keep, k)
  }

  /** The revision of the first deployed record met from the newest down, or -1. */
  method DeployedFromNewest(history: seq<Record>) returns (revision: int)
    requires Ascending(history)
    ensures forall r :: r in history && r.status == Deployed ==> r.revision <= revision
    ensures revision == -1 || exists r :: r in history && r.status == Deployed && r.revision == revision
  {
    var i := |history|;
    while i > 0
      invariant 0 <= i <= |history|
      invariant forall j :: i <= j < |history| ==> history[j].status != Deployed
    {
      i := i - 1;
      if history[i].status == Deployed {
        assert history[i] in history;
        return history[i].revision;
      }
    }
    revision := -1;
  }

  /** What has been decided once the i oldest revisions are left to look at. */
  ghost predicate PrunedDownTo(before: Store, now: Store, name: string, keep: nat, h: seq<Record>, newest: int,
      i: nat) {
    && PartlyPruned(before, now, name, keep)
    && forall j :: i <= j < |h| && j + keep < |h| && h[j].revision != newest ==> h[j].At() !in now
  }

  ghost function PrunedFrom(h: seq<Record>, keep: nat, newest: int, i: nat): set<Key> {
    set j | i <= j < |h| && j + keep < |h| && h[j].revision != newest :: h[j].At()
  }

  lemma PrunedFromStep(h: seq<Record>, keep: nat, newest: int, i: nat)
    requires Ascending(h) && i < |h|
    ensures i + keep < |h| && h[i].revision != newest ==>
        |PrunedFrom(h, keep, newest, i)| == |PrunedFrom(h, keep, newest, i + 1)| + 1
    ensures !(i + keep < |h| && h[i].revision != newest) ==>
        PrunedFrom(h, keep, newest, i) == PrunedFrom(h, keep, newest, i + 1)
  {
    if i + keep < |h| && h[i].revision != newest {
      assert PrunedFrom(h, keep, newest, i) == {h[i].At()} + PrunedFrom(h, keep, newest, i + 1);
    }
  }

  lemma PrunedFromAll(store: Store, name: string, keep: nat, h: seq<Record>, newest: int)
    requires Filed(store) && IsHistory(store, name, h)
    requires forall r :: r in h && r.status == Deployed ==> r.revision <= newest
    requires newest == -1 || exists r :: r in h && r.status == Deployed && r.revision == newest
    ensures PrunedFrom(h, keep, newest, 0) == PrunableKeys(store, name, keep)
  {
    hide Prunable;
    forall j | 0 <= j < |h| ensures h[j].At() in store
        && (Prunable(store, name, keep, h[j].At()) <==> j + keep < |h| && h[j].revision != newest) {
      PrunableAt(store, name, keep, h, newest, j);
    }
    forall k | k in PrunableKeys(store, name, keep) ensures k in PrunedFrom(h, keep, newest, 0) {
      PrunableNamed(store, name, keep, k);
      var j :| 0 <= j < |h| && h[j] == store[k];
      assert h[j].At() == k;
    }
  }

  lemma PrunableNamed(store: Store, name: string, keep: nat, k: Key)
    requires Prunable(store, name, keep, k)
    ensures k in store && k.name == name
  {
  }

  lemma PrunedDownStep(before: Store, now: Store, name: string, keep: nat, h: seq<Record>, newest: int, i: nat)
    requires Filed(before) && IsHistory(before, name, h) && i < |h|
        && PrunedDownTo(before, now, name, keep, h, newest, i + 1)
    requires forall r :: r in h && r.status == Deployed ==> r.revision <= newest
    requires newest == -1 || exists r :: r in h && r.status == Deployed && r.revision == newest
    ensures !(i + keep < |h| && h[i].revision != newest) ==> PrunedDownTo(before, now, name, keep, h, newest, i)
    ensures i + keep < |h| && h[i].revision != newest ==>
              PrunedDownTo(before, now - {Key(name, h[i].revision)}, name, keep, h, newest, i)
  {
    hide Prunable;
    PrunableAt(before, name, keep, h, newest, i);
  }

  lemma NothingPruned(before: Store, name: string, keep: nat, h: seq<Record>, newest: int)
    ensures PrunedDownTo(before, before, name, keep, h, newest, |h|) && PartlyPruned(before, before, name, keep)
    ensures PrunedFrom(h, keep, newest, |h|) == {}
  {
  }

  lemma DownToZero(before: Store, now: Store, name: string, keep: nat, h: seq<Record>, newest: int)
    requires Filed(before) && IsHistory(before, name, h) && PrunedDownTo(before, now, name, keep, h, newest, 0)
    requires forall r :: r in h && r.status == Deployed ==> r.revision <= newest
    requires newest == -1 || exists r :: r in h && r.status == Deployed && r.revision == newest
    ensures now == Pruned(before, name, keep)
  {
    AllPruned(before, now, name, keep, h, newest);
  }

  lemma HistoryFacts(store: Store, name: string, h: seq<Record>)
    requires IsHistory(store, name, h)
    ensures Ascending(h)
  {
  }

  lemma PartlyDown(before: Store, now: Store, name: string, keep: nat, h: seq<Record>, newest: int, i: nat)
    requires PrunedDownTo(before, now, name, keep, h, newest, i)
    ensures PartlyPruned(before, now, name, keep)
  {
  }

  /** Counting how many were kept while walking down drops exactly what the
      revision arithmetic of an operation's own pruning drops. */
  method PruneRelease(storage: ReleaseStorage, name: string, keep: nat, dryRun: bool) returns (ok: bool, pruned: nat)
    requires storage.Valid()
    modifies storage`records
    ensures storage.Valid() && PartlyPruned(old(storage.records), storage.records, name, keep)
    ensures dryRun ==> storage.records == old(storage.records)
    ensures ok && !dryRun ==> storage.records == Pruned(old(storage.records), name, keep)
    ensures ok ==> pruned == |PrunableKeys(old(storage.records), name, keep)|
  {
    hide Prunable, PrunedDownTo, PartlyPruned, PrunedFrom, Pruned, PrunableKeys, IsHistory, Filed, Ascending;
    ghost var store := storage.records;
    pruned := 0;
    var history;
    ok, history := storage.History(name);
    NothingPruned(store, name, keep, [], -1);
    if !ok {
      return;
    }
    HistoryFacts(store, name, history);
    var newest := DeployedFromNewest(history);
    NothingPruned(store, name, keep, history, newest);
    var kept, i := 0, |history|;
    while i > 0
      invariant 0 <= i <= |history| && storage.Valid() && ok
      invariant kept <= |history| - i && (kept < keep ==> kept == |history| - i)
      invariant dryRun ==> storage.records == store
      invariant !dryRun ==> PrunedDownTo(store, storage.records, name, keep, history, newest, i)
      invariant pruned == |PrunedFrom(history, keep, newest, i)|
    {
      i := i - 1;
      PrunedFromStep(history, keep, newest, i);
      if !dryRun {
        PrunedDownStep(store, storage.records, name, keep, history, newest, i);
        PartlyDown(store, storage.records, name, keep, history, newest, i + 1);
      }
      if kept < keep || history[i].revision == newest {
        kept := kept + 1;
        continue;
      }
      if !dryRun {
        ok := storage.Delete(name, history[i].revision);
        if !ok {
          return;
        }
      }
      pruned := pruned + 1;
    }
    PrunedFromAll(store, name, keep, history, newest);
    if !dryRun {
      PartlyDown(store, storage.records, name, keep, history, newest, 0);
      DownToZero(store, storage.records, name, keep, history, newest);
    }
  }

  /** Every listed release is pruned, nothing else differs. */
  ghost predicate PrunedFor(before: Store, after: Store, names: set<string>, keep: nat) {
    && (forall k: Key {:trigger k in after} :: k in after <==>
        k in before && !(k.name in names && Prunable(before, k.name, keep, k)))
    && (forall k {:trigger after[k]} :: k in after ==> after[k] == before[k])
  }

  ghost function PrunedOf(store: Store, names: set<string>, keep: nat): set<Key> {
    set k | k in store && k.name in names && Prunable(store, k.name, keep, k)
  }

  lemma PrunableIsLocal(before: Store, now: Store, name: string, keep: nat, k: Key)
    requires RevisionsOf(before, name) == RevisionsOf(now, name) && k.name == name
    requires forall o :: o in RevisionsOf(now, name) ==> now[o] == before[o]
    ensures Prunable(before, name, keep, k) <==> Prunable(now, name, keep, k)
  {
    forall o: Key | o.name == name ensures o in before <==> o in now {
      assert o in before <==> o in RevisionsOf(before, name);
      assert o in now <==> o in RevisionsOf(now, name);
    }
    assert Newer(before, k) == Newer(now, k);
  }

  lemma PruneOneMore(before: Store, now: Store, names: set<string>, name: string, keep: nat)
    requires PrunedFor(before, now, names, keep) && name !in names
    ensures PrunedFor(before, Pruned(now, name, keep), names + {name}, keep)
    ensures PrunableKeys(now, name, keep) == PrunableKeys(before, name, keep)
    ensures |PrunedOf(before, names + {name}, keep)| == |PrunedOf(before, names, keep)|
        + |PrunableKeys(before, name, keep)|
  {
    hide Prunable;
    assert RevisionsOf(before, name) == RevisionsOf(now, name);
    forall k: Key | k.name == name ensures Prunable(before, name, keep, k) <==> Prunable(now, name, keep, k) {
      PrunableIsLocal(before, now, name, keep, k);
    }
    forall k | Prunable(now, name, keep, k) || Prunable(before, name, keep, k) ensures k.name == name {
      if Prunable(now, name, keep, k) {
        PrunableNamed(now, name, keep, k);
      } else {
        PrunableNamed(before, name, keep, k);
      }
    }
    assert PrunedOf(before, names + {name}, keep) == PrunedOf(before, names, keep) + PrunableKeys(before, name, keep);
    assert PrunedOf(before, names, keep) !! PrunableKeys(before, name, keep);
  }

  lemma NamesArePruned(before: Store, keep: nat)
    ensures PrunedFor(before, before, {}, keep) && PrunedOf(before, {}, keep) == {}
  {
  }

  function Targets(store: Store, release: string): set<string> {
    if release == "" then set k | k in store :: k.name else {release}
  }

  /** No record was altered, and what is gone was prunable and asked for. */
  ghost predicate OnlyPrunableGone(before: Store, after: Store, names: set<string>, keep: int) {
    && after.Keys <= before.Keys
    && (forall k {:trigger after[k]} :: k in after ==> after[k] == before[k])
    && (forall k: Key {:trigger k in after} :: k in before && k !in after ==>
        keep >= 1 && k.name in names && Prunable(before, k.name, keep, k))
  }

  /** How far the command has come. */
  ghost predicate Progress(before: Store, now: Store, names: set<string>, keep: nat, dryRun: bool, pruned: nat) {
    && (if dryRun then now == before else PrunedFor(before, now, names, keep))
    && pruned == |PrunedOf(before, names, keep)|
  }

  lemma ProgressSteps(before: Store, now: Store, after: Store, names: set<string>, name: string, keep: nat,
      dryRun: bool, pruned: nat, ok: bool, count: nat)
    requires Progress(before, now, names, keep, dryRun, pruned) && name !in names && keep >= 1
    requires PartlyPruned(now, after, name, keep) && (dryRun ==> after == now)
    requires ok && !dryRun ==> after == Pruned(now, name, keep)
    requires ok ==> count == |PrunableKeys(now, name, keep)|
    ensures ok ==> Progress(before, after, names + {name}, keep, dryRun, pruned + count)
    ensures OnlyPrunableGone(before, after, names + {name}, keep)
  {
    hide Prunable, Pruned, PrunedOf, PrunableKeys;
    if dryRun {
      SplitByName(before, names, name, keep);
    } else {
      PruneOneMore(before, now, names, name, keep);
      forall k: Key | k in before && k !in after ensures k.name in names + {name} && Prunable(before, k.name, keep, k) {
        if k in now {
          PrunableBefore(before, now, names, name, keep, k);
        }
      }
    }
  }

  lemma PrunableBefore(before: Store, now: Store, names: set<string>, name: string, keep: nat, k: Key)
    requires PrunedFor(before, now, names, keep) && name !in names && Prunable(now, name, keep, k)
    ensures k.name == name && Prunable(before, name, keep, k)
  {
    PruneOneMore(before, now, names, name, keep);
    assert k in PrunableKeys(now, name, keep);
  }

  lemma SplitByName(before: Store, names: set<string>, name: string, keep: nat)
    requires name !in names
    ensures |PrunedOf(before, names + {name}, keep)| == |PrunedOf(before, names, keep)|
        + |PrunableKeys(before, name, keep)|
  {
    assert PrunedOf(before, names + {name}, keep) == PrunedOf(before, names, keep) + PrunableKeys(before, name, keep);
    assert PrunedOf(before, names, keep) !! PrunableKeys(before, name, keep);
  }

  lemma MoreNames(before: Store, after: Store, some: set<string>, all: set<string>, keep: int)
    requires OnlyPrunableGone(before, after, some, keep) && some <= all
    ensures OnlyPrunableGone(before, after, all, keep)
  {
  }

  lemma NoneGone(before: Store, names: set<string>, keep: int)
    ensures OnlyPrunableGone(before, before, names, keep)
  {
  }

  /** An empty release name stands for every release. */
  method PruneCommand(storage: ReleaseStorage, release: string, keep: int, dryRun: bool) returns (ok: bool, pruned: nat)
    requires storage.Valid()
    modifies storage`records
    ensures storage.Valid() && OnlyPrunableGone(old(storage.records), storage.records,
        Targets(old(storage.records), release), keep)
    ensures keep < 1 ==> !ok
    ensures dryRun || keep < 1 ==> storage.records == old(storage.records)
    ensures ok && !dryRun ==> PrunedFor(old(storage.records), storage.records, Targets(old(storage.records), release),
        keep)
    ensures ok ==> pruned == |PrunedOf(old(storage.records), Targets(old(storage.records), release), keep)|
  {
    hide Prunable, PrunedFor, PrunedOf, OnlyPrunableGone, Targets, PartlyPruned, Pruned, PrunableKeys;
    ghost var before := storage.records;
    ok, pruned := false, 0;
    NoneGone(before, Targets(before, release), keep);
    if keep < 1 {
      return;
    }
    var listed: bool := *;
    if release == "" && !listed {
      return;
    }
    var targets := Targets(storage.records, release);
    var left := targets;
    ghost var names: set<string> := {};
    NamesArePruned(before, keep);
    ok := true;
    while left != {}
      invariant storage.Valid() && ok && names + left == targets && names !! left
      invariant dryRun ==> storage.records == before
      invariant Progress(before, storage.records, names, keep, dryRun, pruned)
      invariant OnlyPrunableGone(before, storage.records, targets, keep)
      decreases |left|
    {
      var name :| name in left;
      ghost var now := storage.records;
      var count;
      ok, count := PruneRelease(storage, name, keep, dryRun);
      ProgressSteps(before, now, storage.records, names, name, keep, dryRun, pruned, ok, count);
      MoreNames(before, storage.records, names + {name}, targets, keep);
      if !ok {
        return;
      }
      left, names := left - {name}, names + {name};
      pruned := pruned + count;
    }
    assert names == targets;
  }
}
