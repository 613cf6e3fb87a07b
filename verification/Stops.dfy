/** Upgrades that stop at their CRDs or at a forced deletion: nothing is rolled back. */
module Stops {
  import opened Records
  import opened Cluster
  import opened Steps
  import opened Upgrade

  /** The cluster holds the previous manifest and nothing deletable that only the failed revision declares. */
  ghost predicate AsBefore(objects: Objects, previous: Record, failed: Record) {
    && Holds(objects, previous.payload.manifest)
    && forall r :: r in failed.payload.manifest && r.key !in Keys(previous.payload.manifest) && !r.keep ==>
         r.id in Ids(previous.payload.manifest) || r.id !in objects
  }

  /** Applying the CRD changes nothing the previous manifest asks for and adds nothing only the failed one declares. */
  ghost predicate Harmless(c: Resource, previous: Record, failed: Record) {
    if c.id in Ids(previous.payload.manifest) then
      c.id in Desired(previous.payload.manifest) && c.body == Desired(previous.payload.manifest)[c.id]
    else
      forall r :: r in failed.payload.manifest && r.key !in Keys(previous.payload.manifest) && !r.keep ==> r.id != c.id
  }

  lemma MarkedIsRolledBackIff(s0: Store, objects: Objects, previous: Record, failed: Record)
    requires previous.At() != failed.At() && failed.status == Failed && Stored(s0, previous)
    ensures RolledBack(s0[failed.At() := failed], objects, previous, failed) <==>
            s0[previous.At()].status == Deployed && AsBefore(objects, previous, failed)
  {
    hide Holds;
    assert failed.(status := Failed) == failed;
  }

  lemma OneMoreCrd(objects: Objects, c: Resource, previous: Record, failed: Record)
    requires AsBefore(objects, previous, failed)
    ensures AsBefore(objects[c.id := c.body], previous, failed) <==> Harmless(c, previous, failed)
  {
    OverlayMeaning(map[], previous.payload.manifest);
    var after := objects[c.id := c.body];
    assert after[c.id] == c.body;
  }

  lemma {:induction false} CrdsHarmless(start: Objects, crds: Manifest, i: nat, previous: Record, failed: Record)
    requires i <= |crds| && AsBefore(start, previous, failed)
    requires forall k :: 0 <= k < i ==> Harmless(crds[k], previous, failed)
    ensures AsBefore(Laid(start, crds[..i]), previous, failed)
    decreases i
  {
    hide AsBefore, Harmless, Laid;
    if i == 0 {
      NothingLaid(start);
    } else {
      CrdsHarmless(start, crds, i - 1, previous, failed);
      assert crds[..i] == crds[..i - 1] + [crds[i - 1]];
      LaidSnoc(start, crds[..i - 1], crds[i - 1]);
      OneMoreCrd(Laid(start, crds[..i - 1]), crds[i - 1], previous, failed);
    }
  }

  /** Main result: wherever applying CRDs stops, the state is that of a rollback
      exactly when it was before, the previous revision was the deployed one, and
      every CRD is harmless. */
  lemma CrdStopIff(s0: Store, start: Objects, crds: Manifest, previous: Record, failed: Record)
    requires previous.At() != failed.At() && failed.status == Failed && Stored(s0, previous)
    ensures (forall end :: StoppedBefore(start, end, previous.payload.manifest, failed.payload.manifest, crds, Crds) ==>
               RolledBack(s0[failed.At() := failed], end, previous, failed))
            <==>
            && s0[previous.At()].status == Deployed && AsBefore(start, previous, failed)
            && forall k :: 0 <= k < |crds| ==> Harmless(crds[k], previous, failed)
  {
    hide AsBefore, Harmless, Laid, RolledBack;
    forall objects { MarkedIsRolledBackIff(s0, objects, previous, failed); }
    NothingLaid(start);
    assert crds[..0] == [];
    assert StoppedBefore(start, Laid(start, crds[..0]), previous.payload.manifest, failed.payload.manifest, crds, Crds);
    if AsBefore(start, previous, failed) {
      if forall k :: 0 <= k < |crds| ==> Harmless(crds[k], previous, failed) {
        forall end | StoppedBefore(start, end, previous.payload.manifest, failed.payload.manifest, crds, Crds)
          ensures AsBefore(end, previous, failed)
        {
          var i :| 0 <= i <= |crds| && end == Laid(start, crds[..i]);
          CrdsHarmless(start, crds, i, previous, failed);
        }
      } else {
        FirstHarm(start, crds, previous, failed);
        var i :| 0 <= i <= |crds| && !AsBefore(Laid(start, crds[..i]), previous, failed);
        assert StoppedBefore(start, Laid(start, crds[..i]), previous.payload.manifest, failed.payload.manifest, crds,
            Crds);
      }
    }
  }

  lemma FirstHarm(start: Objects, crds: Manifest, previous: Record, failed: Record)
    requires AsBefore(start, previous, failed) && exists k :: 0 <= k < |crds| && !Harmless(crds[k], previous, failed)
    ensures exists i :: 0 <= i <= |crds| && !AsBefore(Laid(start, crds[..i]), previous, failed)
  {
    hide AsBefore, Harmless, Laid;
    var k :| 0 <= k < |crds| && !Harmless(crds[k], previous, failed);
    if AsBefore(Laid(start, crds[..k]), previous, failed) {
      assert crds[..k + 1] == crds[..k] + [crds[k]];
      LaidSnoc(start, crds[..k], crds[k]);
      OneMoreCrd(Laid(start, crds[..k]), crds[k], previous, failed);
      assert !AsBefore(Laid(start, crds[..k + 1]), previous, failed);
    }
  }

  function DeletableCount(m: Manifest): nat {
    if m == [] then 0 else DeletableCount(m[..|m| - 1]) + if m[|m| - 1].keep then 0 else 1
  }

  lemma DeletableCountSnoc(m: Manifest, r: Resource)
    ensures DeletableCount(m + [r]) == DeletableCount(m) + if r.keep then 0 else 1
  {
    assert (m + [r])[..|m|] == m;
  }

  lemma {:induction false} PlacedCounts(sorted: Manifest, r: Resource, down: bool)
    ensures DeletableCount(Placed(sorted, r, down)) == DeletableCount(sorted) + if r.keep then 0 else 1
    decreases |sorted|
  {
    hide DeletableCount;
    DeletableCountSnoc(sorted, r);
    if sorted == [] {
      assert sorted + [r] == [r];
    } else {
      var n := |sorted| - 1;
      assert sorted == sorted[..n] + [sorted[n]];
      DeletableCountSnoc(sorted[..n], sorted[n]);
      PlacedCounts(sorted[..n], r, down);
      DeletableCountSnoc(Placed(sorted[..n], r, down), sorted[n]);
    }
  }

  lemma {:induction false} ArrangedCounts(m: Manifest, down: bool)
    ensures DeletableCount(Arranged(m, down)) == DeletableCount(m)
    decreases |m|
  {
    hide Placed;
    if m != [] {
      var n := |m| - 1;
      ArrangedCounts(m[..n], down);
      PlacedCounts(Arranged(m[..n], down), m[n], down);
    }
  }

  lemma {:induction false} CountPositive(m: Manifest)
    ensures DeletableCount(m) > 0 <==> exists p :: 0 <= p < |m| && !m[p].keep
    decreases |m|
  {
    if m != [] {
      var front := m[..|m| - 1];
      CountPositive(front);
      forall p | 0 <= p < |front| ensures front[p] == m[p] {}
    }
  }

  lemma {:induction false} CountSplit(m: Manifest, q: nat)
    requires q < |m|
    ensures DeletableCount(m) >= DeletableCount(m[..q]) + if m[q].keep then 0 else 1
    decreases |m|
  {
    var n := |m| - 1;
    if q < n {
      CountSplit(m[..n], q);
      assert m[..n][..q] == m[..q];
    }
  }

  lemma {:induction false} TwoDeletable(m: Manifest) returns (p: nat, k: nat)
    requires DeletableCount(m) > 1
    ensures p < k < |m| && !m[p].keep && !m[k].keep
    decreases |m|
  {
    var n := |m| - 1;
    if m[n].keep {
      p, k := TwoDeletable(m[..n]);
    } else {
      CountPositive(m[..n]);
      p :| 0 <= p < |m[..n]| && !m[..n][p].keep;
      k := n;
    }
  }

  /** Main result: wherever a forced deletion stops, the state is that of a rollback
      exactly when it was after the CRDs, the previous revision was the deployed
      one, and its manifest has no more than one resource to delete. */
  lemma ForceStopIff(s0: Store, start: Objects, crds: Manifest, previous: Record, failed: Record)
    requires previous.At() != failed.At() && failed.status == Failed && Stored(s0, previous)
    ensures (forall end :: StoppedBefore(start, end, previous.payload.manifest, failed.payload.manifest, crds,
        Stage.ForceDelete) ==>
               RolledBack(s0[failed.At() := failed], end, previous, failed))
            <==>
            && s0[previous.At()].status == Deployed && AsBefore(Laid(start, crds), previous, failed)
            && DeletableCount(previous.payload.manifest) <= 1
  {
    hide AsBefore, Laid, RolledBack, DeletableCount, PartlyDeleted;
    var m, mid := previous.payload.manifest, Laid(start, crds);
    forall objects { MarkedIsRolledBackIff(s0, objects, previous, failed); }
    NoneDeleted(mid, m);
    assert StoppedBefore(start, mid, m, failed.payload.manifest, crds, Stage.ForceDelete);
    if AsBefore(mid, previous, failed) {
      if DeletableCount(m) <= 1 {
        forall end | StoppedBefore(start, end, m, failed.payload.manifest, crds, Stage.ForceDelete) ensures end == mid {
          var only :| PartlyDeleted(mid, end, m, only);
          LoneDeletionIsAll(mid, end, m, only);
        }
      } else {
        var end := HalfDeleted(mid, previous, failed);
        assert StoppedBefore(start, end, m, failed.payload.manifest, crds, Stage.ForceDelete);
      }
    }
  }

  lemma NoneDeleted(mid: Objects, m: Manifest)
    ensures PartlyDeleted(mid, mid, m, {})
  {
  }

  lemma LoneDeletionIsAll(mid: Objects, end: Objects, m: Manifest, only: set<string>)
    requires DeletableCount(m) <= 1 && PartlyDeleted(mid, end, m, only)
    ensures end == mid
  {
    hide DeletableCount, Arranged;
    if i: nat :| StopsAt(mid, end, m, only, i) {
      var order := Arranged(m, true);
      ArrangedCounts(m, true);
      CountSplit(order, i);
      CountPositive(order[..i]);
      assert DeletableOnly(order[..i], only) == {};
    }
  }

  lemma HalfDeleted(mid: Objects, previous: Record, failed: Record) returns (end: Objects)
    requires DeletableCount(previous.payload.manifest) > 1
    ensures PartlyDeleted(mid, end, previous.payload.manifest, Keys(previous.payload.manifest))
    ensures !AsBefore(end, previous, failed)
  {
    hide DeletableCount, Arranged;
    var m := previous.payload.manifest;
    var order, only := Arranged(m, true), Keys(m);
    ArrangedCounts(m, true);
    var p, k := TwoDeletable(order);
    SameResources(m, true);
    KeysAre(m);
    end := mid - DeletableOnly(order[..k], only);
    assert order[p] in order && order[k] in order;
    assert StopsAt(mid, end, m, only, k);
    assert order[..k][p] == order[p];
    assert order[p].id in DeletableOnly(order[..k], only);
    OverlayMeaning(map[], m);
    IdsAre(m);
    assert order[p].id in Desired(m);
  }

  lemma KeysAre(m: Manifest)
    ensures forall r :: r in m ==> r.key in Keys(m)
  {
    forall r | r in m ensures r.key in Keys(m) {
      var i :| 0 <= i < |m| && m[i] == r;
    }
  }

  /** An input: of two services a forced deletion deletes the first and fails at
      the second; the previous revision, still marked deployed, lacks a service. */
  lemma ForceFailureIsNotUndone(pkg: Payload, s0: Store, failed: Record)
    requires pkg.manifest == [Resource("v1/Service//a", "services/default/a", "a", false, false, 0),
                              Resource("v1/Service//b", "services/default/b", "b", false, false, 0)]
    requires var previous := Record("web", 1, Deployed, pkg); Stored(s0, previous) && failed.At() == Key("web", 2)
    requires failed.status == Failed
    ensures var end := Desired(pkg.manifest) - {"services/default/a"};
            && StopsAt(Desired(pkg.manifest), end, pkg.manifest, Keys(pkg.manifest), 1)
            && !RolledBack(s0[failed.At() := failed], end, Record("web", 1, Deployed, pkg), failed)
  {
    hide RolledBack;
    var m := pkg.manifest;
    var end := Desired(m) - {"services/default/a"};
    assert Arranged(m[..1], true) == [m[0]] by { assert m[..1][..0] == []; }
    assert Arranged(m, true) == m;
    assert m[1].key in Keys(m) && m[0].key in Keys(m);
    assert DeletableOnly(m[..1], Keys(m)) == {"services/default/a"} by { assert m[..1][0] == m[0]; }
    OverlayMeaning(map[], m);
    assert m[0].id in Ids(m);
    assert m[0].id in Desired(m) && m[0].id !in end;
    MarkedIsRolledBackIff(s0, end, Record("web", 1, Deployed, pkg), failed);
  }
}
