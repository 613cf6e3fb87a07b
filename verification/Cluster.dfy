/** The cluster as release operations see it: objects by identity, applied and
    deleted one resource at a time, where every single call may fail. */
module Cluster {
  import opened Records

  type Objects = map<string, string>

  function Ids(m: Manifest): set<string> {
    set i | 0 <= i < |m| :: m[i].id
  }

  function Keys(m: Manifest): set<string> {
    set i | 0 <= i < |m| :: m[i].key
  }

  /** What an apply is allowed to delete: everything not marked keep. */
  function DeletableIds(m: Manifest): set<string> {
    set i | 0 <= i < |m| && !m[i].keep :: m[i].id
  }

  /** Is one resource's turn before the other's when they are put in order? */
  predicate Before(r: Resource, q: Resource, down: bool) {
    if down then r.rank > q.rank else r.rank < q.rank
  }

  function Placed(sorted: Manifest, r: Resource, down: bool): (m: Manifest)
    ensures multiset(m) == multiset(sorted) + multiset{r}
  {
    if sorted == [] then [r]
    else
      var n := |sorted| - 1;
      assert sorted == sorted[..n] + [sorted[n]];
      if Before(r, sorted[n], down) then Placed(sorted[..n], r, down) + [sorted[n]] else sorted + [r]
  }

  /** The resources in the order of their kinds, up or down; those of one kind stay as they are. */
  function Arranged(m: Manifest, down: bool): (sorted: Manifest)
    ensures multiset(sorted) == multiset(m) && |sorted| == |m|
  {
    if m == [] then []
    else
      var n := |m| - 1;
      assert m == m[..n] + [m[n]];
      var sorted := Placed(Arranged(m[..n], down), m[n], down);
      assert |sorted| == |multiset(sorted)| == |multiset(m)| == |m|;
      sorted
  }

  /** The objects after applying the resources one by one; a later one wins. */
  function Laid(objects: Objects, m: Manifest): Objects {
    if m == [] then objects else Laid(objects, m[..|m| - 1])[m[|m| - 1].id := m[|m| - 1].body]
  }

  /** The objects after applying a manifest, in the order of its kinds. */
  function Overlay(objects: Objects, m: Manifest): Objects {
    Laid(objects, Arranged(m, false))
  }

  /** What a manifest alone asks for. */
  function Desired(m: Manifest): Objects {
    Overlay(map[], m)
  }

  ghost predicate AgreeOutside(before: Objects, after: Objects, ids: set<string>) {
    && (forall id {:trigger id in before} {:trigger id in after} :: id !in ids ==> (id in before <==> id in after))
    && (forall id {:trigger after[id]} :: id in before && id in after && id !in ids ==> after[id] == before[id])
  }

  /** The cluster holds every resource of the manifest with the content asked for. */
  ghost predicate Holds(objects: Objects, m: Manifest) {
    forall id :: id in Desired(m) ==> id in objects && objects[id] == Desired(m)[id]
  }

  lemma {:induction false} LaidMeaning(objects: Objects, m: Manifest)
    ensures Laid(objects, m) == objects + Laid(map[], m) && Laid(map[], m).Keys == Ids(m)
  {
    hide Laid, Ids;
    NothingLaid(objects);
    if m != [] {
      var front, last := m[..|m| - 1], m[|m| - 1];
      assert m == front + [last];
      LaidMeaning(objects, front);
      IdsSnoc(front, last);
      LaidSnoc(objects, front, last);
      LaidSnoc(map[], front, last);
    }
  }

  lemma NothingLaid(objects: Objects)
    ensures Laid(objects, []) == objects && Laid(map[], []) == map[] && Ids([]) == {}
  {
  }

  /** Applying a manifest overlays what it alone asks for. */
  lemma OverlayMeaning(objects: Objects, m: Manifest)
    ensures Overlay(objects, m) == objects + Desired(m) && Desired(m).Keys == Ids(m)
  {
    LaidMeaning(objects, Arranged(m, false));
    SameIds(m, false);
  }

  lemma SameResources(m: Manifest, down: bool)
    ensures forall r :: r in Arranged(m, down) <==> r in m
  {
    hide Arranged;
    forall r ensures r in Arranged(m, down) <==> r in m {
      assert r in multiset(Arranged(m, down)) <==> r in multiset(m);
    }
  }

  lemma SameIds(m: Manifest, down: bool)
    ensures Ids(Arranged(m, down)) == Ids(m)
  {
    hide Arranged;
    SameResources(m, down);
    IdsAre(m);
    IdsAre(Arranged(m, down));
  }

  lemma IdsAre(m: Manifest)
    ensures forall id :: id in Ids(m) <==> exists r :: r in m && r.id == id
  {
    forall r | r in m ensures r.id in Ids(m) {
      var i :| 0 <= i < |m| && m[i] == r;
    }
    forall id | id in Ids(m) ensures exists r :: r in m && r.id == id {
      var i :| 0 <= i < |m| && m[i].id == id;
      assert m[i] in m;
    }
  }

  lemma IdsSnoc(m: Manifest, r: Resource)
    ensures Ids(m + [r]) == Ids(m) + {r.id}
  {
    var n := m + [r];
    assert n[|m|] == r;
    forall i | 0 <= i < |m| ensures n[i] == m[i] {}
  }

  lemma {:induction false} PlacedLays(objects: Objects, sorted: Manifest, r: Resource)
    requires forall q :: q in sorted && q.id == r.id ==> q.rank == r.rank
    ensures Laid(objects, Placed(sorted, r, false)) == Laid(objects, sorted)[r.id := r.body]
    decreases |sorted|
  {
    hide Laid;
    var front := if sorted == [] then [] else sorted[..|sorted| - 1];
    if sorted == [] || !Before(r, sorted[|sorted| - 1], false) {
      LaidSnoc(objects, sorted, r);
      assert sorted + [r] == Placed(sorted, r, false);
    } else {
      var last := sorted[|sorted| - 1];
      assert last in sorted && last.id != r.id;
      PlacedLays(objects, front, r);
      LaidSnoc(objects, Placed(front, r, false), last);
      LaidSnoc(objects, front, last);
      assert sorted == front + [last];
      var o := Laid(objects, front);
      assert o[r.id := r.body][last.id := last.body] == o[last.id := last.body][r.id := r.body];
    }
  }

  lemma LaidSnoc(objects: Objects, m: Manifest, r: Resource)
    ensures Laid(objects, m + [r]) == Laid(objects, m)[r.id := r.body]
  {
    assert (m + [r])[..|m|] == m;
  }

  /** Main result: where documents of one object are of one kind, the order of
      kinds leaves the same objects as the order the documents are written in. */
  lemma {:induction false} KindOrderKeepsContent(objects: Objects, m: Manifest)
    requires forall r, q :: r in m && q in m && r.id == q.id ==> r.rank == q.rank
    ensures Overlay(objects, m) == Laid(objects, m)
    decreases |m|
  {
    if m != [] {
      var n := |m| - 1;
      KindOrderKeepsContent(objects, m[..n]);
      SameResources(m[..n], false);
      assert m[n] in m;
      PlacedLays(objects, Arranged(m[..n], false), m[n]);
    }
  }

  /** Resources of lower ranks stand before those of higher ones, or after them. */
  predicate InOrder(m: Manifest, down: bool) {
    forall i, j :: 0 <= i < j < |m| ==> MayPrecede(m[i], m[j], down)
  }

  predicate MayPrecede(r: Resource, q: Resource, down: bool) {
    if down then r.rank >= q.rank else r.rank <= q.rank
  }

  lemma PlacedHas(sorted: Manifest, r: Resource, down: bool)
    ensures forall q :: q in Placed(sorted, r, down) <==> q in sorted || q == r
  {
    hide Placed;
    forall q ensures q in Placed(sorted, r, down) <==> q in sorted || q == r {
      assert q in multiset(Placed(sorted, r, down)) <==> q in multiset(sorted) + multiset{r};
    }
  }

  lemma {:induction false} PlacedInOrder(sorted: Manifest, r: Resource, down: bool)
    requires InOrder(sorted, down)
    ensures InOrder(Placed(sorted, r, down), down)
    decreases |sorted|
  {
    hide MayPrecede;
    if sorted != [] {
      var n := |sorted| - 1;
      if Before(r, sorted[n], down) {
        var front := Placed(sorted[..n], r, down);
        PlacedInOrder(sorted[..n], r, down);
        PlacedHas(sorted[..n], r, down);
        forall i | 0 <= i < |front| ensures MayPrecede(front[i], sorted[n], down) {
          assert front[i] in front;
          if front[i] == r { BeforeMay(r, sorted[n], down); }
        }
      } else {
        forall i | 0 <= i <= n ensures MayPrecede(sorted[i], r, down) {
          LastMay(sorted, r, down, i);
        }
      }
    }
  }

  lemma BeforeMay(r: Resource, q: Resource, down: bool)
    requires Before(r, q, down)
    ensures MayPrecede(r, q, down)
  {
  }

  lemma LastMay(sorted: Manifest, r: Resource, down: bool, i: nat)
    requires InOrder(sorted, down) && i < |sorted| && !Before(r, sorted[|sorted| - 1], down)
    ensures MayPrecede(sorted[i], r, down)
  {
    if i < |sorted| - 1 { assert MayPrecede(sorted[i], sorted[|sorted| - 1], down); }
  }

  /** The resources of one rank, as they come. */
  function OfRank(m: Manifest, rank: int): Manifest {
    if m == [] then []
    else OfRank(m[..|m| - 1], rank) + if m[|m| - 1].rank == rank then [m[|m| - 1]] else []
  }

  lemma OfRankSnoc(m: Manifest, r: Resource, rank: int)
    ensures OfRank(m + [r], rank) == OfRank(m, rank) + if r.rank == rank then [r] else []
  {
    assert (m + [r])[..|m|] == m;
  }

  lemma {:induction false} PlacedIsStable(sorted: Manifest, r: Resource, down: bool, rank: int)
    requires InOrder(sorted, down)
    ensures OfRank(Placed(sorted, r, down), rank) == OfRank(sorted + [r], rank)
    decreases |sorted|
  {
    hide OfRank;
    OfRankSnoc(sorted, r, rank);
    if sorted == [] {
      assert sorted + [r] == [r];
    } else {
      var n := |sorted| - 1;
      if Before(r, sorted[n], down) {
        PlacedIsStable(sorted[..n], r, down, rank);
        OfRankSnoc(Placed(sorted[..n], r, down), sorted[n], rank);
        OfRankSnoc(sorted[..n], r, rank);
        OfRankSnoc(sorted[..n], sorted[n], rank);
        assert sorted == sorted[..n] + [sorted[n]];
      }
    }
  }

  /** Main result: resources are applied in the order of their kinds and deleted
      in the opposite one, those of one kind in the order they are written in. */
  lemma {:induction false} KindsInOrder(m: Manifest, down: bool, rank: int)
    ensures InOrder(Arranged(m, down), down) && OfRank(Arranged(m, down), rank) == OfRank(m, rank)
    decreases |m|
  {
    hide Placed, InOrder;
    if m != [] {
      var n := |m| - 1;
      assert m == m[..n] + [m[n]];
      KindsInOrder(m[..n], down, rank);
      PlacedInOrder(Arranged(m[..n], down), m[n], down);
      PlacedIsStable(Arranged(m[..n], down), m[n], down, rank);
      OfRankSnoc(Arranged(m[..n], down), m[n], rank);
      OfRankSnoc(m[..n], m[n], rank);
    } else {
      assert InOrder(Arranged(m, down), down) by { NothingInOrder(down); }
    }
  }

  lemma NothingInOrder(down: bool)
    ensures InOrder([], down)
  {
  }

  /** Of several documents for one object the last to be applied decides. */
  lemma {:induction false} LastOneWins(objects: Objects, m: Manifest, i: nat)
    requires i < |m| && forall j :: i < j < |m| ==> m[j].id != m[i].id
    ensures m[i].id in Laid(objects, m) && Laid(objects, m)[m[i].id] == m[i].body
    decreases |m|
  {
    if i < |m| - 1 { LastOneWins(objects, m[..|m| - 1], i); }
  }

  lemma LaidAgrees(objects: Objects, m: Manifest)
    ensures AgreeOutside(objects, Laid(objects, m), Ids(m))
  {
    LaidMeaning(objects, m);
  }

  lemma AppliedHolds(objects: Objects, m: Manifest)
    ensures Holds(Overlay(objects, m), m)
    ensures AgreeOutside(objects, Overlay(objects, m), Ids(m))
  {
    OverlayMeaning(objects, m);
  }

  /** What a failed apply leaves: the first few resources in the order of kinds. */
  ghost predicate PartlyApplied(before: Objects, after: Objects, m: Manifest) {
    exists i :: 0 <= i <= |m| && after == Laid(before, Arranged(m, false)[..i])
  }

  /** What a failed deletion leaves: nothing done, or everything before the
      resource that failed, in the opposite order of kinds. */
  ghost predicate PartlyDeleted(before: Objects, after: Objects, m: Manifest, only: set<string>) {
    after == before || exists i: nat :: StopsAt(before, after, m, only, i)
  }

  ghost predicate StopsAt(before: Objects, after: Objects, m: Manifest, only: set<string>, i: nat) {
    var order := Arranged(m, true);
    i < |m| && !order[i].keep && order[i].key in only && after == before - DeletableOnly(order[..i], only)
  }

  lemma PartlyAppliedAgrees(before: Objects, after: Objects, m: Manifest)
    requires PartlyApplied(before, after, m)
    ensures AgreeOutside(before, after, Ids(m))
  {
    hide Laid;
    var order := Arranged(m, false);
    var i :| 0 <= i <= |m| && after == Laid(before, order[..i]);
    LaidAgrees(before, order[..i]);
    IdsPrefix(order, i);
    SameIds(m, false);
  }

  class KubeClient {
    var objects: Objects

    /** Applies in the order of kinds and stops at the first resource that
        fails, or at a CRD that is applied but not served in time. */
    method ApplyManifests(m: Manifest) returns (ok: bool)
      modifies this
      ensures ok ==> objects == Overlay(old(objects), m) && Holds(objects, m)
      ensures !ok ==> PartlyApplied(old(objects), objects, m)
      ensures AgreeOutside(old(objects), objects, Ids(m))
    {
      hide Holds, AgreeOutside, Ids, Arranged;
      AppliedHolds(objects, m);
      var order := Arranged(m, false);
      ok := *;
      if !ok {
        assert objects == Laid(old(objects), order[..0]);
        PartlyAppliedAgrees(old(objects), objects, m);
        return;
      }
      for i := 0 to |order|
        invariant ok && objects == Laid(old(objects), order[..i])
      {
        assert order[..i + 1][..i] == order[..i];
        ok := *;
        if ok {
          objects := objects[order[i].id := order[i].body];
          if order[i].crd {
            ok := *;
          }
        }
        if !ok {
          PartlyAppliedAgrees(old(objects), objects, m);
          return;
        }
      }
      assert order[..|order|] == order;
    }

    /** Applies CRDs as they come and waits until each is served. */
    method ApplyCrds(crds: Manifest) returns (ok: bool)
      modifies this
      ensures ok ==> objects == Laid(old(objects), crds)
      ensures !ok ==> exists i :: 0 <= i <= |crds| && objects == Laid(old(objects), crds[..i])
      ensures AgreeOutside(old(objects), objects, Ids(crds))
    {
      hide AgreeOutside, Ids;
      for i := 0 to |crds|
        invariant objects == Laid(old(objects), crds[..i])
      {
        ok := *;
        if !ok {
          LaidAgrees(old(objects), crds[..i]);
          IdsPrefix(crds, i);
          AgreeWider(old(objects), objects, Ids(crds[..i]), Ids(crds));
          return;
        }
        assert crds[..i + 1][..i] == crds[..i];
        objects := objects[crds[i].id := crds[i].body];
      }
      assert crds[..|crds|] == crds;
      LaidAgrees(old(objects), crds);
      ok := *;
    }

    /** Deletes every resource not marked keep and stops at the first failure. */
    method DeleteManifests(m: Manifest) returns (ok: bool)
      modifies this
      ensures ok ==> objects == old(objects) - DeletableIds(m)
      ensures !ok ==> PartlyDeleted(old(objects), objects, m, Keys(m))
      ensures AgreeOutside(old(objects), objects, DeletableIds(m))
      ensures objects.Keys <= old(objects).Keys
    {
      var only := Keys(m);
      ok := DeleteResources(m, only);
      assert DeletableOnly(m, only) == DeletableIds(m);
    }

    /** Deletes the resources not marked keep whose key is listed, in the opposite order of kinds. */
    method DeleteResources(m: Manifest, only: set<string>) returns (ok: bool)
      modifies this
      ensures ok ==> objects == old(objects) - DeletableOnly(m, only)
      ensures !ok ==> PartlyDeleted(old(objects), objects, m, only)
      ensures AgreeOutside(old(objects), objects, DeletableOnly(m, only))
      ensures objects.Keys <= old(objects).Keys
    {
      hide Arranged;
      SameDeletable(m, only);
      var order := Arranged(m, true);
      ok := *;
      if !ok {
        return;
      }
      for i := 0 to |order|
        invariant ok && objects == old(objects) - DeletableOnly(order[..i], only)
        invariant DeletableOnly(order[..i], only) <= DeletableOnly(order, only)
      {
        DeletableSnoc(order, i, only);
        if order[i].keep || order[i].key !in only {
          continue;
        }
        ok := *;
        if !ok {
          assert StopsAt(old(objects), objects, m, only, i);
          return;
        }
        objects := objects - {order[i].id};
      }
      assert order[..|order|] == order;
    }
  }

  function DeletableOnly(m: Manifest, only: set<string>): set<string> {
    set i | 0 <= i < |m| && !m[i].keep && m[i].key in only :: m[i].id
  }

  lemma DeletableAre(m: Manifest, only: set<string>)
    ensures forall id :: id in DeletableOnly(m, only) <==> exists r :: r in m && !r.keep && r.key in only && r.id == id
  {
    forall r | r in m && !r.keep && r.key in only ensures r.id in DeletableOnly(m, only) {
      var i :| 0 <= i < |m| && m[i] == r;
    }
    forall id | id in DeletableOnly(m, only) ensures exists r :: r in m && !r.keep && r.key in only && r.id == id {
      var i :| 0 <= i < |m| && !m[i].keep && m[i].key in only && m[i].id == id;
      assert m[i] in m;
    }
  }

  lemma SameDeletable(m: Manifest, only: set<string>)
    ensures DeletableOnly(Arranged(m, true), only) == DeletableOnly(m, only)
  {
    hide Arranged, DeletableOnly;
    SameResources(m, true);
    DeletableAre(m, only);
    DeletableAre(Arranged(m, true), only);
  }

  lemma DeletableSnoc(m: Manifest, i: nat, only: set<string>)
    requires i < |m|
    ensures DeletableOnly(m[..i + 1], only) ==
            DeletableOnly(m[..i], only) + if m[i].keep || m[i].key !in only then {} else {m[i].id}
    ensures DeletableOnly(m[..i + 1], only) <= DeletableOnly(m, only)
  {
    forall j | 0 <= j < i ensures m[..i + 1][j] == m[..i][j] {}
    assert m[..i + 1][i] == m[i];
  }

  lemma AgreeWider(a: Objects, b: Objects, some: set<string>, more: set<string>)
    requires AgreeOutside(a, b, some) && some <= more
    ensures AgreeOutside(a, b, more)
  {
  }

  lemma AgreeTwice(a: Objects, b: Objects, c: Objects, first: set<string>, second: set<string>, all: set<string>)
    requires AgreeOutside(a, b, first) && AgreeOutside(b, c, second) && first <= all && second <= all
    ensures AgreeOutside(a, c, all)
  {
  }

  lemma AgreeWithSelf(a: Objects, ids: set<string>)
    ensures AgreeOutside(a, a, ids)
  {
  }

  lemma IdsPrefix(m: Manifest, i: nat)
    requires i <= |m|
    ensures Ids(m[..i]) <= Ids(m)
  {
  }

  // ----- what one manifest has and another lacks -----

  /** The resources of `from` whose key `other` does not have. */
  function Missing(from: Manifest, other: Manifest): Manifest {
    if from == [] then []
    else
      var front := Missing(from[..|from| - 1], other);
      if from[|from| - 1].key in Keys(other) then front else front + [from[|from| - 1]]
  }

  lemma {:induction false} MissingMeaning(from: Manifest, other: Manifest)
    ensures forall r :: r in Missing(from, other) <==> r in from && r.key !in Keys(other)
  {
    if from != [] {
      MissingMeaning(from[..|from| - 1], other);
      assert from == from[..|from| - 1] + [from[|from| - 1]];
    }
  }

  function WithoutCrds(m: Manifest): Manifest {
    if m == [] then []
    else
      var front := WithoutCrds(m[..|m| - 1]);
      if m[|m| - 1].crd then front else front + [m[|m| - 1]]
  }

  lemma {:induction false} WithoutCrdsMeaning(m: Manifest)
    ensures forall r :: r in WithoutCrds(m) <==> r in m && !r.crd
  {
    if m != [] {
      WithoutCrdsMeaning(m[..|m| - 1]);
      assert m == m[..|m| - 1] + [m[|m| - 1]];
    }
  }
}
