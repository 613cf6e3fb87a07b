/** Renaming a release by copying every revision and deleting the originals. A
    ghost trace holds the store after every single write, so that completeness
    under one name or the other is stated for every point a crash may stop at. */
module Rename {
  import opened Records
  import opened Storage
  import opened History

  datatype Result =
    | Refused
    | CopyFailed(undone: bool)
    | Unstamped
    | DeleteFailed
    | Done

  /** Every revision a release had at the start is stored under `target`, with only the name changed. */
  ghost predicate AllUnder(start: Store, now: Store, name: string, target: string) {
    forall k {:trigger start[k]} :: k in start && k.name == name ==>
      Key(target, k.revision) in now && now[Key(target, k.revision)] == start[k].(name := target)
  }

  /** Third releases are untouched, and no record that was there was altered. */
  ghost predicate OthersKept(start: Store, now: Store, oldName: string, newName: string) {
    && (forall k: Key {:trigger k in now} :: k.name != oldName && k.name != newName ==> (k in now <==> k in start))
    && (forall k: Key {:trigger k in now} :: k in start && k.name == newName ==> k in now)
    && (forall k {:trigger now[k]} :: k in start && k in now ==> now[k] == start[k])
  }

  /** The release is complete under one of the two names, and nothing else was touched. */
  ghost predicate Safe(start: Store, now: Store, oldName: string, newName: string) {
    && OthersKept(start, now, oldName, newName)
    && (AllUnder(start, now, oldName, oldName) || AllUnder(start, now, oldName, newName))
  }

  ghost predicate AllSafe(start: Store, trace: seq<Store>, oldName: string, newName: string) {
    forall i :: 0 <= i < |trace| ==> Safe(start, trace[i], oldName, newName)
  }

  /** At most one record differs. */
  ghost predicate OneWrite(a: Store, b: Store) {
    exists k :: a - {k} == b - {k}
  }

  ghost predicate WriteAt(first: Store, trace: seq<Store>, i: nat)
    requires i < |trace|
  {
    OneWrite(if i == 0 then first else trace[i - 1], trace[i])
  }

  /** trace leads from one store to another, write by write. */
  ghost predicate Chained(first: Store, trace: seq<Store>, last: Store) {
    && last == (if trace == [] then first else trace[|trace| - 1])
    && forall i :: 0 <= i < |trace| ==> WriteAt(first, trace, i)
  }

  lemma ChainGrows(first: Store, trace: seq<Store>, last: Store, next: Store, k: Key)
    requires Chained(first, trace, last) && last - {k} == next - {k}
    ensures Chained(first, trace + [next], next)
  {
    assert OneWrite(last, next);
    var all := trace + [next];
    forall i | 0 <= i < |all| ensures WriteAt(first, all, i) {
      if i < |trace| { assert WriteAt(first, trace, i); }
    }
  }

  lemma ChainsJoin(first: Store, trace: seq<Store>, mid: Store, more: seq<Store>, last: Store)
    requires Chained(first, trace, mid) && Chained(mid, more, last)
    ensures Chained(first, trace + more, last)
  {
    var all := trace + more;
    forall i | 0 <= i < |all| ensures WriteAt(first, all, i) {
      if i < |trace| {
        assert WriteAt(first, trace, i);
      } else {
        var j := i - |trace|;
        assert WriteAt(mid, more, j);
        assert all[i] == more[j] && (j > 0 ==> all[i - 1] == more[j - 1]);
      }
    }
    assert more == [] ==> all == trace;
  }

  ghost function CopyKeys(name: string, revisions: seq<int>): set<Key> {
    set r | r in revisions :: Key(name, r)
  }

  /** now is start and, at some of the keys, records that start does not have. */
  ghost predicate Extends(start: Store, now: Store, keys: set<Key>) {
    && start.Keys <= now.Keys <= start.Keys + keys
    && start.Keys !! keys
    && (forall k {:trigger now[k]} :: k in start ==> now[k] == start[k])
  }

  /** The first i revisions of the history are filed under the new name. */
  ghost predicate CopiedUpTo(now: Store, newName: string, history: seq<Record>, i: nat)
    requires i <= |history|
  {
    forall j :: 0 <= j < i ==>
      Key(newName, history[j].revision) in now && now[Key(newName, history[j].revision)] == history[j].(name := newName)
  }

  lemma CopyStep(start: Store, now: Store, newName: string, history: seq<Record>, done: seq<int>, i: nat)
    requires i < |history| && |done| == i && Extends(start, now, CopyKeys(newName, done))
        && CopiedUpTo(now, newName, history, i)
    requires Key(newName, history[i].revision) !in now && Ascending(history)
    ensures var next := now[Key(newName, history[i].revision) := history[i].(name := newName)];
            Extends(start, next, CopyKeys(newName, done + [history[i].revision]))
                && CopiedUpTo(next, newName, history, i + 1)
  {
    var at := Key(newName, history[i].revision);
    assert CopyKeys(newName, done + [history[i].revision]) == CopyKeys(newName, done) + {at};
  }

  lemma AllCopied(start: Store, now: Store, oldName: string, newName: string, history: seq<Record>)
    requires Filed(start) && IsHistory(start, oldName, history) && CopiedUpTo(now, newName, history, |history|)
    ensures AllUnder(start, now, oldName, newName)
  {
    forall k | k in start && k.name == oldName
      ensures Key(newName, k.revision) in now && now[Key(newName, k.revision)] == start[k].(name := newName)
    {
      var j :| 0 <= j < |history| && history[j] == start[k];
      assert history[j].At() == k;
    }
  }

  lemma ExtendingKeeps(start: Store, now: Store, oldName: string, newName: string, done: seq<int>)
    requires Filed(start) && oldName != newName && Extends(start, now, CopyKeys(newName, done))
    ensures OthersKept(start, now, oldName, newName) && AllUnder(start, now, oldName, oldName)
    ensures RevisionsOf(now, oldName) == RevisionsOf(start, oldName)
  {
    forall k | k in start && k.name == oldName
        ensures Key(oldName, k.revision) == k && start[k].(name := oldName) == start[k] {
      assert start[k].At() == k;
    }
  }

  /** Copies the revisions oldest first; on a failure takes the copies away again. */
  method CopyAll(storage: ReleaseStorage, oldName: string, newName: string, history: seq<Record>)
    returns (copied: bool, undone: bool, ghost trace: seq<Store>)
    requires storage.Valid() && oldName != newName && IsHistory(storage.records, oldName, history)
    modifies storage
    ensures AllSafe(old(storage.records), trace, oldName, newName)
        && Chained(old(storage.records), trace, storage.records)
    ensures storage.Valid() && OthersKept(old(storage.records), storage.records, oldName, newName)
    ensures AllUnder(old(storage.records), storage.records, oldName, oldName)
    ensures RevisionsOf(storage.records, oldName) == RevisionsOf(old(storage.records), oldName)
    ensures copied ==> AllUnder(old(storage.records), storage.records, oldName, newName)
    ensures !copied && undone ==> storage.records == old(storage.records)
  {
    hide Extends, CopiedUpTo, AllUnder, OthersKept, RevisionsOf, OneWrite;
    ghost var start := storage.records;
    var done: seq<int> := [];
    trace := [];
    Untouched(start, newName, history);
    for i := 0 to |history|
      invariant storage.Valid() && |done| == i && AllSafe(start, trace, oldName, newName)
        && Chained(start, trace, storage.records)
      invariant Extends(start, storage.records, CopyKeys(newName, done))
        && CopiedUpTo(storage.records, newName, history, i)
    {
      ghost var now := storage.records;
      assert history[i] in history;
      var ok := storage.Create(history[i].(name := newName));
      if !ok {
        ghost var more;
        undone, more := DeleteCopies(storage, start, oldName, newName, done);
        ExtendingKeeps(start, storage.records, oldName, newName, done);
        ChainsJoin(start, trace, now, more, storage.records);
        return false, undone, trace + more;
      }
      CopyStep(start, now, newName, history, done, i);
      done := done + [history[i].revision];
      ExtendingKeeps(start, storage.records, oldName, newName, done);
      ChainGrows(start, trace, now, storage.records, Key(newName, history[i].revision));
      trace := trace + [storage.records];
    }
    copied, undone := true, false;
    ExtendingKeeps(start, storage.records, oldName, newName, done);
    AllCopied(start, storage.records, oldName, newName, history);
  }

  lemma Untouched(start: Store, newName: string, history: seq<Record>)
    ensures Extends(start, start, CopyKeys(newName, [])) && CopiedUpTo(start, newName, history, 0)
  {
  }

  /** Attempts every deletion, whatever the others do. */
  method DeleteCopies(storage: ReleaseStorage, ghost start: Store, oldName: string, newName: string, done: seq<int>)
    returns (undone: bool, ghost trace: seq<Store>)
    requires storage.Valid() && Filed(start) && oldName != newName
        && Extends(start, storage.records, CopyKeys(newName, done))
    modifies storage`records
    ensures storage.Valid() && Extends(start, storage.records, CopyKeys(newName, done))
    ensures undone ==> storage.records == start
    ensures AllSafe(start, trace, oldName, newName) && Chained(old(storage.records), trace, storage.records)
  {
    hide AllUnder, OthersKept, Chained;
    ghost var first := storage.records;
    undone, trace := true, [];
    NoWrites(first);
    for i := 0 to |done|
      invariant storage.Valid() && Extends(start, storage.records, CopyKeys(newName, done))
        && AllSafe(start, trace, oldName, newName)
      invariant Chained(first, trace, storage.records)
      invariant undone ==> forall j :: 0 <= j < i ==> Key(newName, done[j]) !in storage.records
    {
      assert Key(newName, done[i]) in CopyKeys(newName, done);
      ghost var now := storage.records;
      var ok := storage.Delete(newName, done[i]);
      if !ok {
        undone := false;
      }
      ExtendingKeeps(start, storage.records, oldName, newName, done);
      ChainGrows(first, trace, now, storage.records, Key(newName, done[i]));
      trace := trace + [storage.records];
    }
  }

  lemma NoWrites(first: Store)
    ensures Chained(first, [], first)
  {
  }

  /** Main result: whatever call fails, and wherever the command is cut short,
      the release is complete under the old name or under the new one; `trace`
      holds the store after every single write. */
  method Rename(storage: ReleaseStorage, oldName: string, newName: string, keepOld: bool)
      returns (result: Result, ghost trace: seq<Store>)
    requires storage.Valid()
    modifies storage
    ensures AllSafe(old(storage.records), trace, oldName, newName)
        && Chained(old(storage.records), trace, storage.records)
    ensures storage.Valid() && OthersKept(old(storage.records), storage.records, oldName, newName)
    ensures AllUnder(old(storage.records), storage.records, oldName, oldName)
        || AllUnder(old(storage.records), storage.records, oldName, newName)
    ensures result.Refused? ==> storage.records == old(storage.records)
    ensures result.CopyFailed? ==> AllUnder(old(storage.records), storage.records, oldName, oldName)
    ensures result.CopyFailed? && result.undone ==> storage.records == old(storage.records)
    ensures result.Unstamped? || (result.Done? && keepOld) ==>
              AllUnder(old(storage.records), storage.records, oldName, oldName)
                  && AllUnder(old(storage.records), storage.records, oldName, newName)
    ensures result.DeleteFailed? || result.Done? ==> AllUnder(old(storage.records), storage.records, oldName, newName)
    ensures result.Done? && !keepOld ==> RevisionsOf(storage.records, oldName) == {}
  {
    hide AllUnder, OthersKept, OneWrite;
    ghost var start := storage.records;
    trace := [];
    Unchanged(start, oldName, newName);
    if oldName == newName {
      return Refused, trace;
    }
    var readable, existing := storage.History(newName);
    if readable && |existing| > 0 {
      return Refused, trace;
    }
    var history;
    readable, history := storage.History(oldName);
    if !readable || |history| == 0 {
      return Refused, trace;
    }
    var copied, undone;
    copied, undone, trace := CopyAll(storage, oldName, newName, history);
    if !copied {
      return CopyFailed(undone), trace;
    }
    var stamped: bool := *;
    if !stamped {
      return Unstamped, trace;
    }
    if keepOld {
      return Done, trace;
    }
    ghost var more;
    ghost var mid := storage.records;
    result, more := DeleteOriginals(storage, start, oldName, newName, history);
    ChainsJoin(start, trace, mid, more, storage.records);
    trace := trace + more;
  }

  lemma Unchanged(start: Store, oldName: string, newName: string)
    requires Filed(start)
    ensures OthersKept(start, start, oldName, newName) && AllUnder(start, start, oldName, oldName)
  {
    forall k | k in start && k.name == oldName
        ensures Key(oldName, k.revision) == k && start[k].(name := oldName) == start[k] {
      assert start[k].At() == k;
    }
  }

  lemma DeletionKeeps(start: Store, now: Store, oldName: string, newName: string, revision: int)
    requires oldName != newName && AllUnder(start, now, oldName, newName) && OthersKept(start, now, oldName, newName)
    ensures var next := now - {Key(oldName, revision)};
            AllUnder(start, next, oldName, newName) && OthersKept(start, next, oldName, newName)
  {
  }

  method DeleteOriginals(storage: ReleaseStorage, ghost start: Store, oldName: string, newName: string,
      history: seq<Record>)
    returns (result: Result, ghost trace: seq<Store>)
    requires storage.Valid() && oldName != newName && Filed(start) && IsHistory(start, oldName, history)
    requires AllUnder(start, storage.records, oldName, newName) && OthersKept(start, storage.records, oldName, newName)
    requires RevisionsOf(storage.records, oldName) == RevisionsOf(start, oldName)
    modifies storage`records
    ensures storage.Valid() && AllUnder(start, storage.records, oldName, newName)
        && OthersKept(start, storage.records, oldName, newName)
    ensures AllSafe(start, trace, oldName, newName) && Chained(old(storage.records), trace, storage.records)
    ensures result.DeleteFailed? || result.Done?
    ensures result.Done? ==> RevisionsOf(storage.records, oldName) == {}
  {
    hide AllUnder, OthersKept, OneWrite, Chained;
    ghost var first := storage.records;
    trace := [];
    NoWrites(first);
    for i := 0 to |history|
      invariant storage.Valid() && AllSafe(start, trace, oldName, newName) && Chained(first, trace, storage.records)
      invariant AllUnder(start, storage.records, oldName, newName)
        && OthersKept(start, storage.records, oldName, newName)
      invariant RevisionsOf(storage.records, oldName) <= RevisionsOf(start, oldName)
      invariant forall j :: 0 <= j < i ==> Key(oldName, history[j].revision) !in storage.records
    {
      DeletionKeeps(start, storage.records, oldName, newName, history[i].revision);
      ghost var now := storage.records;
      var ok := storage.Delete(oldName, history[i].revision);
      if !ok {
        return DeleteFailed, trace;
      }
      ChainGrows(first, trace, now, storage.records, Key(oldName, history[i].revision));
      trace := trace + [storage.records];
    }
    forall k | k in RevisionsOf(start, oldName) ensures k !in storage.records {
      var j :| 0 <= j < |history| && history[j] == start[k];
      assert history[j].At() == k;
    }
    result := Done;
  }
}
