/** Revisions and what release operations promise about them. A store maps the
    name and number of a revision to its record; what demotion, pruning and a
    whole operation may do to a store is said here, without saying how it is done. */
module Records {

  datatype Status = Deployed | Superseded | Failed | Uninstalling | PendingInstall | PendingUpgrade | PendingRollback

  /** A parsed manifest document. `key` is what the release code compares: group,
      version, kind, namespace and name as written. `id` is the cluster object
      that is addressed once the namespace has been resolved and the version
      mapped. `rank` is the place of its kind in the order of installation. */
  datatype Resource = Resource(key: string, id: string, body: string, crd: bool, keep: bool, rank: int)

  type Manifest = seq<Resource>

  /** Everything a revision records at creation and nobody may change later. */
  datatype Payload = Payload(
    pkg: string, manifest: Manifest, values: map<string, string>, userValues: map<string, string>,
    hookTemplates: map<string, string>, tests: map<string, string>, notes: string,
    labels: map<string, string>, provenance: map<string, string>)

  datatype Record = Record(name: string, revision: int, status: Status, payload: Payload) {
    function At(): Key { Key(name, revision) }
  }

  datatype Key = Key(name: string, revision: int)

  type Store = map<Key, Record>

  ghost predicate Filed(store: Store) {
    forall k {:trigger store[k]} :: k in store ==> store[k].At() == k && k.revision >= 1
  }

  ghost predicate Ascending(h: seq<Record>) {
    forall i, j :: 0 <= i < j < |h| ==> h[i].revision < h[j].revision
  }

  /** h lists exactly the records of one release, oldest first. */
  ghost predicate IsHistory(store: Store, name: string, h: seq<Record>) {
    && Ascending(h)
    && (forall r :: r in h ==> r.name == name && r.At() in store && store[r.At()] == r)
    && (forall k {:trigger store[k]} :: k in store && k.name == name ==> store[k] in h)
  }

  ghost predicate SoleDeployed(store: Store, at: Key) {
    at in store && store[at].status == Deployed &&
    forall k {:trigger store[k]} :: k in store && k.name == at.name && store[k].status == Deployed ==> k == at
  }

  ghost predicate Newest(store: Store, at: Key) {
    at in store && forall k :: k in store && k.name == at.name ==> k.revision <= at.revision
  }

  /** Nothing about any other release differs. */
  ghost predicate OthersSame(before: Store, after: Store, name: string) {
    && (forall k: Key {:trigger k in before} {:trigger k in after} :: k.name != name ==> (k in before <==> k in after))
    && (forall k: Key {:trigger after[k]} :: k in before && k in after && k.name != name ==> after[k] == before[k])
  }

  /** Every stored revision still is what it recorded when it was created. */
  ghost predicate Faithful(store: Store, created: map<Key, Payload>) {
    Filed(store) &&
    forall k {:trigger store[k]} :: k in store ==> k in created && store[k].payload == created[k]
  }

  /** rel is stored, perhaps under another status. */
  ghost predicate Stored(store: Store, rel: Record) {
    rel.At() in store && store[rel.At()] == rel.(status := store[rel.At()].status)
  }

  /** Between two stores only statuses of the listed revisions differ. */
  ghost predicate OnlyStatusOf(before: Store, after: Store, keys: set<Key>) {
    && after.Keys == before.Keys
    && forall k {:trigger after[k]} :: k in before ==>
         after[k] == before[k] || (k in keys && after[k] == before[k].(status := after[k].status))
  }

  /** What one release operation may do to the store: revisions of one release
      may appear, disappear or change status; nothing else. */
  ghost predicate Evolves(before: Store, after: Store, name: string) {
    && OthersSame(before, after, name)
    && forall k {:trigger after[k]} :: k in before && k in after ==> after[k] == before[k].(status := after[k].status)
  }

  lemma StatusKeepsFaith(before: Store, after: Store, created: map<Key, Payload>, keys: set<Key>)
    requires Faithful(before, created) && OnlyStatusOf(before, after, keys)
    ensures Faithful(after, created)
  {
    forall k | k in after ensures after[k].At() == k && k.revision >= 1 && k in created
        && after[k].payload == created[k] {
      assert before[k].payload == created[k];
    }
  }

  lemma FewerKeepFaith(before: Store, after: Store, created: map<Key, Payload>)
    requires Faithful(before, created) && after.Keys <= before.Keys
    requires forall k {:trigger after[k]} :: k in after ==> after[k] == before[k]
    ensures Faithful(after, created)
  {
  }

  lemma DemotedIsStatus(before: Store, after: Store, name: string, keep: int)
    requires PartlyDemoted(before, after, name, keep)
    ensures OnlyStatusOf(before, after, set k | k in before && k.name == name)
  {
  }

  lemma EvolvesByStatus(before: Store, after: Store, keys: set<Key>, name: string)
    requires OnlyStatusOf(before, after, keys) && forall k :: k in keys ==> k.name == name
    ensures Evolves(before, after, name)
  {
  }

  lemma EvolvesByPruning(before: Store, after: Store, name: string, maxKeep: nat)
    requires PartlyPruned(before, after, name, maxKeep)
    ensures Evolves(before, after, name)
  {
    forall k | k in before && k.name != name ensures k in after {
      assert !Prunable(before, name, maxKeep, k);
    }
  }

  lemma EvolvesByCreation(before: Store, rel: Record)
    requires rel.At() !in before
    ensures Evolves(before, before[rel.At() := rel], rel.name)
  {
  }

  /** Revisions that vanish in between must not come back for this to chain. */
  lemma EvolvesTwice(a: Store, b: Store, c: Store, name: string)
    requires Evolves(a, b, name) && Evolves(b, c, name)
    requires forall k :: k in a && k in c ==> k in b
    ensures Evolves(a, c, name)
  {
    forall k | k in a && k in c ensures c[k] == a[k].(status := c[k].status) {
      assert b[k] == a[k].(status := b[k].status);
    }
    forall k: Key | k.name != name ensures k in a <==> k in c {
      assert k in a <==> k in b;
      assert k in b <==> k in c;
    }
    forall k: Key | k.name != name && k in a && k in c ensures c[k] == a[k] {
      assert b[k] == a[k];
    }
  }

  // ----- demoting older deployed revisions -----

  function Demoted(r: Record, keep: int): Record {
    if r.status == Deployed && r.revision != keep then r.(status := Superseded) else r
  }

  function DemoteOthers(store: Store, name: string, keep: int): Store {
    map k | k in store :: if k.name == name then Demoted(store[k], keep) else store[k]
  }

  /** Some, but perhaps not all, of the other deployed revisions were demoted. */
  ghost predicate PartlyDemoted(before: Store, after: Store, name: string, keep: int) {
    && after.Keys == before.Keys
    && forall k {:trigger after[k]} :: k in before ==>
         after[k] == before[k] || (k.name == name && after[k] == Demoted(before[k], keep))
  }

  /** However many deployed revisions there were, one is left. */
  lemma DemotionLeavesOne(store: Store, at: Key)
    requires Filed(store) && at in store && store[at].status == Deployed
    ensures SoleDeployed(DemoteOthers(store, at.name, at.revision), at)
    ensures forall k {:trigger store[k]} :: k in store ==>
              DemoteOthers(store, at.name, at.revision)[k] ==
              if k != at && k.name == at.name && store[k].status == Deployed then store[k].(status := Superseded)
              else store[k]
  {
  }

  // ----- pruning -----

  function Newer(store: Store, k: Key): set<Key> {
    set o | o in store && o.name == k.name && o.revision > k.revision
  }

  /** The highest deployed revision of a release. */
  ghost predicate NewestDeployed(store: Store, k: Key) {
    k in store && store[k].status == Deployed &&
    forall o {:trigger store[o]} :: o in store && o.name == k.name && store[o].status == Deployed ==>
        o.revision <= k.revision
  }

  /** A revision goes when maxKeep newer ones exist, unless it is the newest deployed one. */
  ghost predicate Prunable(store: Store, name: string, maxKeep: nat, k: Key) {
    k in store && k.name == name && |Newer(store, k)| >= maxKeep && !NewestDeployed(store, k)
  }

  ghost function Pruned(store: Store, name: string, maxKeep: nat): Store {
    map k | k in store && !Prunable(store, name, maxKeep, k) :: store[k]
  }

  ghost predicate PartlyPruned(before: Store, after: Store, name: string, maxKeep: nat) {
    && after.Keys <= before.Keys
    && (forall k {:trigger after[k]} :: k in after ==> after[k] == before[k])
    && (forall k :: k in before && !Prunable(before, name, maxKeep, k) ==> k in after)
  }

  ghost function KeysFrom(h: seq<Record>, i: nat): set<Key> {
    set j | i <= j < |h| :: h[j].At()
  }

  /** The records from position i on have distinct keys. */
  lemma {:induction false} HistoryTail(h: seq<Record>, i: nat)
    requires Ascending(h) && i <= |h|
    ensures |KeysFrom(h, i)| == |h| - i
    decreases |h| - i
  {
    if i < |h| {
      HistoryTail(h, i + 1);
      assert KeysFrom(h, i) == {h[i].At()} + KeysFrom(h, i + 1);
    }
  }

  lemma HistoryLength(store: Store, name: string, h: seq<Record>)
    requires Filed(store) && IsHistory(store, name, h)
    ensures |RevisionsOf(store, name)| == |h|
  {
    HistoryTail(h, 0);
    forall k | k in store && k.name == name ensures k in KeysFrom(h, 0) {
      var j :| 0 <= j < |h| && h[j] == store[k];
    }
    forall j | 0 <= j < |h| ensures h[j].At() in store && h[j].name == name {
      assert h[j] in h;
    }
    assert RevisionsOf(store, name) == KeysFrom(h, 0);
  }

  /** A position in the history tells how many revisions are newer. */
  lemma NewerByPosition(store: Store, name: string, h: seq<Record>, i: nat)
    requires Filed(store) && IsHistory(store, name, h) && i < |h|
    ensures |Newer(store, h[i].At())| == |h| - i - 1
  {
    HistoryTail(h, i + 1);
    assert h[i] in h;
    forall k | k in Newer(store, h[i].At()) ensures k in KeysFrom(h, i + 1) {
      var j :| 0 <= j < |h| && h[j] == store[k];
    }
    forall j | i + 1 <= j < |h| ensures h[j].At() in Newer(store, h[i].At()) {
      assert h[j] in h;
    }
    assert KeysFrom(h, i + 1) == Newer(store, h[i].At());
  }

  lemma PrunableIffBeyond(store: Store, at: Key, maxKeep: nat, k: Key)
    requires Filed(store) && Newest(store, at) && store[at].status == Deployed && maxKeep >= 1
    requires k in store && k.name == at.name
    ensures Prunable(store, at.name, maxKeep, k) <==> |Newer(store, k)| >= maxKeep
  {
    if NewestDeployed(store, k) {
      assert at.revision <= k.revision;
      assert Newer(store, k) == {};
    }
  }

  /** after keeps exactly the min(n, maxKeep) newest revisions that before has of one release. */
  ghost predicate KeepsNewest(before: Store, after: Store, name: string, maxKeep: nat) {
    && RevisionsOf(after, name) <= RevisionsOf(before, name)
    && |RevisionsOf(after, name)| == (if |RevisionsOf(before, name)| <= maxKeep
        then |RevisionsOf(before, name)| else maxKeep)
    && forall k, d :: k in RevisionsOf(after, name) && d in RevisionsOf(before, name) - RevisionsOf(after, name) ==>
        d.revision < k.revision
  }

  ghost function RevisionsOf(store: Store, name: string): set<Key> {
    set k | k in store && k.name == name
  }

  lemma KeptAsSuffix(store: Store, at: Key, maxKeep: nat, h: seq<Record>)
    requires Filed(store) && IsHistory(store, at.name, h) && maxKeep >= 1
    requires Newest(store, at) && store[at].status == Deployed
    ensures RevisionsOf(Pruned(store, at.name, maxKeep), at.name)
        == KeysFrom(h, if |h| <= maxKeep then 0 else |h| - maxKeep)
  {
    hide Prunable, Newest, Newer;
    var after, cut := Pruned(store, at.name, maxKeep), if |h| <= maxKeep then 0 else |h| - maxKeep;
    forall i | 0 <= i < |h|
      ensures h[i].At() in store && h[i].At().name == at.name && (h[i].At() in after <==> i >= cut)
    {
      assert h[i] in h;
      NewerByPosition(store, at.name, h, i);
      PrunableIffBeyond(store, at, maxKeep, h[i].At());
    }
    forall k | k in RevisionsOf(after, at.name) ensures k in KeysFrom(h, cut) {
      var i :| 0 <= i < |h| && h[i] == store[k];
    }
  }

  lemma NewerShrinks(store: Store, k: Key, d: Key)
    requires k.name == d.name && d.revision >= k.revision
    ensures |Newer(store, d)| <= |Newer(store, k)|
  {
    var rest := Newer(store, k) - Newer(store, d);
    assert Newer(store, k) == Newer(store, d) + rest;
  }

  /** Main result on pruning: when the newest revision is the deployed one,
      pruning keeps exactly the min(n, maxKeep) newest revisions. */
  lemma PruningKeepsNewest(store: Store, at: Key, maxKeep: nat, h: seq<Record>)
    requires Filed(store) && IsHistory(store, at.name, h) && maxKeep >= 1
    requires Newest(store, at) && store[at].status == Deployed
    ensures KeepsNewest(store, Pruned(store, at.name, maxKeep), at.name, maxKeep)
    ensures at in Pruned(store, at.name, maxKeep)
  {
    hide Prunable, Newest, Newer, IsHistory, Filed;
    KeptAsSuffix(store, at, maxKeep, h);
    HistoryIsAscending(store, at.name, h);
    HistoryTail(h, if |h| <= maxKeep then 0 else |h| - maxKeep);
    HistoryLength(store, at.name, h);
    var after := Pruned(store, at.name, maxKeep);
    forall k, d | k in RevisionsOf(after, at.name) && d in RevisionsOf(store, at.name) - RevisionsOf(after, at.name)
      ensures d.revision < k.revision
    {
      PrunableIffBeyond(store, at, maxKeep, k);
      PrunableIffBeyond(store, at, maxKeep, d);
      if d.revision >= k.revision { NewerShrinks(store, k, d); }
    }
    NewestSurvives(store, at, maxKeep);
  }

  lemma HistoryIsAscending(store: Store, name: string, h: seq<Record>)
    requires IsHistory(store, name, h)
    ensures Ascending(h)
  {
  }

  lemma NewestSurvives(store: Store, at: Key, maxKeep: nat)
    requires Newest(store, at) && store[at].status == Deployed && maxKeep >= 1
    ensures at in store && at in Pruned(store, at.name, maxKeep)
  {
  }
}
