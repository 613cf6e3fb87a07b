/** Releases with dependencies: cycles, topological orders, and the order that
    always takes the least ready name next. */
module ReleaseGraph {
  import opened StringOrder

  /** One entry of keramos-releases.yaml; the fields the sort never reads are folded into `spec`. */
  datatype Entry = Entry(name: string, spec: string, dependsOn: seq<string>)

  function Names(input: seq<Entry>): set<string> {
    set i | 0 <= i < |input| :: input[i].name
  }

  function NamesInOrder(order: seq<Entry>): (r: seq<string>)
    ensures |r| == |order| && forall i :: 0 <= i < |order| ==> r[i] == order[i].name
  {
    seq(|order|, i requires 0 <= i < |order| => order[i].name)
  }

  function Deps(input: seq<Entry>, n: string): set<string> {
    set i, j | 0 <= i < |input| && input[i].name == n && 0 <= j < |input[i].dependsOn| :: input[i].dependsOn[j]
  }

  predicate NamesPresent(input: seq<Entry>) {
    forall i :: 0 <= i < |input| ==> input[i].name != ""
  }

  predicate DepsKnown(input: seq<Entry>) {
    forall i, d :: 0 <= i < |input| && d in input[i].dependsOn ==> d in Names(input)
  }

  predicate WellFormed(input: seq<Entry>) {
    NamesPresent(input) && DepsKnown(input) && Distinct(NamesInOrder(input))
  }

  // ----- walks and cycles -----

  /** A walk along dependsOn. */
  ghost predicate IsWalk(input: seq<Entry>, p: seq<string>) {
    && |p| > 0 && p[0] in Names(input)
    && forall i {:trigger p[i]} :: 0 < i < |p| ==> p[i] in Deps(input, p[i - 1])
  }

  ghost predicate IsCycle(input: seq<Entry>, p: seq<string>) {
    IsWalk(input, p) && |p| > 1 && p[0] == p[|p| - 1]
  }

  ghost predicate HasCycle(input: seq<Entry>) {
    exists p :: IsCycle(input, p)
  }

  /** Some walk from n comes back to a name it has been at. */
  ghost predicate Revisits(input: seq<Entry>, n: string, p: seq<string>) {
    IsWalk(input, p) && p[0] == n && !Distinct(p)
  }

  ghost predicate ReachesCycle(input: seq<Entry>, n: string) {
    exists p :: Revisits(input, n, p)
  }

  lemma CycleIsReached(input: seq<Entry>, p: seq<string>)
    requires IsCycle(input, p)
    ensures ReachesCycle(input, p[0])
  {
    hide Deps, Names;
    assert p[0] == p[|p| - 1];
    assert Revisits(input, p[0], p);
  }

  lemma RevisitClosesCycle(input: seq<Entry>, p: seq<string>, i: nat, j: nat)
    requires IsWalk(input, p) && i < j < |p| && p[i] == p[j]
    ensures IsCycle(input, p[i..j + 1])
  {
    var c := p[i..j + 1];
    WalkStaysInside(input, p, i);
    forall k | 0 < k < |c| ensures c[k] in Deps(input, c[k - 1]) {
      assert p[i + k] in Deps(input, p[i + k - 1]);
    }
  }

  lemma CycleIffReached(input: seq<Entry>)
    ensures HasCycle(input) <==> exists n :: ReachesCycle(input, n)
  {
    hide Deps, Names, IsWalk, IsCycle;
    if p :| IsCycle(input, p) {
      CycleIsReached(input, p);
    }
    if n :| ReachesCycle(input, n) {
      var p :| Revisits(input, n, p);
      var i, j :| 0 <= i < j < |p| && p[i] == p[j];
      RevisitClosesCycle(input, p, i, j);
    }
  }

  lemma WalkStaysInside(input: seq<Entry>, p: seq<string>, i: nat)
    requires IsWalk(input, p) && i + 1 < |p|
    ensures p[i] in Names(input)
  {
    assert p[i + 1] in Deps(input, p[i]);
  }

  // ----- topological orders -----

  /** Every entry once, each after everything it depends on. */
  ghost predicate IsTopological(input: seq<Entry>, order: seq<Entry>) {
    && multiset(order) == multiset(input)
    && forall i, d :: 0 <= i < |order| && d in order[i].dependsOn ==> exists j :: 0 <= j < i && order[j].name == d
  }

  /** xs is a prefix of ys, or has the lower name where the two first differ. */
  ghost predicate ListLessEq(xs: seq<string>, ys: seq<string>) {
    || xs <= ys
    || exists k: nat :: k < |xs| && k < |ys| && xs[..k] == ys[..k] && xs[k] != ys[k] && LessEq(xs[k], ys[k])
  }

  predicate Ready(input: seq<Entry>, done: seq<string>, n: string) {
    n in Names(input) && n !in done && Deps(input, n) <= Elements(done)
  }

  /** done lists ready names, each the least of those ready at its turn. */
  ghost predicate LeastFirst(input: seq<Entry>, done: seq<string>) {
    forall k :: 0 <= k < |done| ==>
      && Ready(input, done[..k], done[k])
      && forall m :: Ready(input, done[..k], m) ==> LessEq(done[k], m)
  }

  /** The entry with a given name. */
  predicate IsEntryOf(input: seq<Entry>, e: Entry, n: string) {
    e in input && e.name == n
  }

  lemma EntryDeps(input: seq<Entry>, e: Entry)
    requires WellFormed(input) && e in input
    ensures Deps(input, e.name) == Elements(e.dependsOn)
  {
    var i :| 0 <= i < |input| && input[i] == e;
    forall j | 0 <= j < |input| && input[j].name == e.name ensures j == i {
      assert NamesInOrder(input)[i] == NamesInOrder(input)[j];
    }
    forall d | d in e.dependsOn ensures d in Deps(input, e.name) {
      var k :| 0 <= k < |e.dependsOn| && e.dependsOn[k] == d;
    }
  }

  lemma DistinctEntries(xs: seq<Entry>)
    requires Distinct(NamesInOrder(xs))
    ensures forall e :: multiset(xs)[e] <= 1
  {
    if xs != [] {
      var names := NamesInOrder(xs);
      assert names[1..] == NamesInOrder(xs[1..]);
      DistinctEntries(xs[1..]);
      assert xs == [xs[0]] + xs[1..];
      assert xs[0] !in xs[1..] by {
        forall k | 0 <= k < |xs[1..]| ensures xs[1..][k] != xs[0] {
          assert names[0] != names[k + 1];
        }
      }
    }
  }

  /** Each name was ready at its turn. */
  ghost predicate Orderly(input: seq<Entry>, done: seq<string>) {
    forall k :: 0 <= k < |done| ==> Ready(input, done[..k], done[k])
  }

  lemma LeastFirstIsOrderly(input: seq<Entry>, done: seq<string>)
    requires LeastFirst(input, done)
    ensures Orderly(input, done)
  {
  }

  lemma OrderlyIsDistinct(input: seq<Entry>, done: seq<string>)
    requires Orderly(input, done)
    ensures Distinct(done) && Elements(done) <= Names(input)
  {
    forall i, j | 0 <= i < j < |done| ensures done[i] != done[j] {
      assert Ready(input, done[..j], done[j]);
      assert done[i] == done[..j][i];
    }
    forall n | n in done ensures n in Names(input) {
      var k :| 0 <= k < |done| && done[k] == n;
      assert Ready(input, done[..k], done[k]);
    }
  }

  lemma LeastFirstIsDistinct(input: seq<Entry>, done: seq<string>)
    requires LeastFirst(input, done)
    ensures Distinct(done) && Elements(done) <= Names(input)
  {
    LeastFirstIsOrderly(input, done);
    OrderlyIsDistinct(input, done);
  }

  /** A complete least-first list is a topological order of the entries it names. */
  lemma LeastFirstIsTopological(input: seq<Entry>, order: seq<Entry>)
    requires WellFormed(input) && LeastFirst(input, NamesInOrder(order))
    requires |order| == |input| && forall k :: 0 <= k < |order| ==> order[k] in input
    ensures IsTopological(input, order)
  {
    var done := NamesInOrder(order);
    LeastFirstIsDistinct(input, done);
    SameEntries(input, order);
    forall i, d | 0 <= i < |order| && d in order[i].dependsOn
      ensures exists j :: 0 <= j < i && order[j].name == d
    {
      EntryDeps(input, order[i]);
      assert Ready(input, done[..i], done[i]);
      assert d in Elements(order[i].dependsOn);
      assert d in done[..i];
      var j :| 0 <= j < i && done[..i][j] == d;
      assert order[j].name == d;
    }
  }

  lemma SameEntries(input: seq<Entry>, order: seq<Entry>)
    requires Distinct(NamesInOrder(input)) && Distinct(NamesInOrder(order))
    requires |order| == |input| && forall k :: 0 <= k < |order| ==> order[k] in input
    ensures multiset(order) == multiset(input)
  {
    DistinctEntries(input);
    DistinctEntries(order);
    var a, b := multiset(order), multiset(input);
    forall e ensures a[e] <= b[e] {
      if e in a { assert e in order; assert e in input; assert e in b; }
    }
    assert a <= b;
    assert |b - a| == |b| - |a| == 0;
    assert b == a + (b - a);
  }

  /** Main result on the order: no topological order has a smaller list of names. */
  lemma LeastFirstIsLeast(input: seq<Entry>, done: seq<string>, other: seq<Entry>)
    requires WellFormed(input) && LeastFirst(input, done) && |done| == |input|
    requires IsTopological(input, other)
    ensures ListLessEq(done, NamesInOrder(other))
  {
    assert |other| == |multiset(other)| == |multiset(input)| == |input|;
    TopologicalIsReady(input, other);
    LeastFrom(input, done, NamesInOrder(other), 0);
  }

  lemma TopologicalIsReady(input: seq<Entry>, other: seq<Entry>)
    requires WellFormed(input) && IsTopological(input, other)
    ensures forall k :: 0 <= k < |other| ==> Ready(input, NamesInOrder(other)[..k], other[k].name)
  {
    var names := NamesInOrder(other);
    forall k | 0 <= k < |other| ensures Ready(input, names[..k], other[k].name) {
      assert other[k] in multiset(other);
      assert other[k] in input;
      EntryDeps(input, other[k]);
      forall d | d in other[k].dependsOn ensures d in names[..k] {
        var j :| 0 <= j < k && other[j].name == d;
        assert names[..k][j] == d;
      }
      if names[k] in names[..k] {
        var j :| 0 <= j < k && names[..k][j] == names[k];
        DistinctEntries(input);
        SameNameSameEntry(input, other[j], other[k]);
        CountsTwo(other, j, k);
      }
    }
  }

  lemma SameNameSameEntry(input: seq<Entry>, e: Entry, f: Entry)
    requires Distinct(NamesInOrder(input)) && e in multiset(input) && f in multiset(input) && e.name == f.name
    ensures e == f
  {
    var i :| 0 <= i < |input| && input[i] == e;
    var j :| 0 <= j < |input| && input[j] == f;
    assert NamesInOrder(input)[i] == NamesInOrder(input)[j];
  }

  lemma {:induction false} LeastFrom(input: seq<Entry>, done: seq<string>, other: seq<string>, k: nat)
    requires LeastFirst(input, done) && |done| == |other| && k <= |done|
    requires done[..k] == other[..k]
    requires forall i :: 0 <= i < |other| ==> Ready(input, other[..i], other[i])
    ensures ListLessEq(done, other)
    decreases |done| - k
  {
    hide Ready, LessEq;
    if k == |done| {
      assert done == done[..k] && other == other[..k];
    } else if done[k] == other[k] {
      assert done[..k + 1] == done[..k] + [done[k]] && other[..k + 1] == other[..k] + [other[k]];
      LeastFrom(input, done, other, k + 1);
    } else {
      assert Ready(input, done[..k], other[k]);
    }
  }

  /** The least-first list of a given length is one list only. */
  lemma {:induction false} LeastFirstIsUnique(input: seq<Entry>, a: seq<string>, b: seq<string>, k: nat)
    requires LeastFirst(input, a) && LeastFirst(input, b) && |a| == |b| && k <= |a| && a[..k] == b[..k]
    ensures a == b
    decreases |a| - k
  {
    hide Ready, LessEq;
    if k == |a| {
      assert a[..k] == a && b[..k] == b;
    } else {
      assert Ready(input, a[..k], a[k]) && Ready(input, b[..k], b[k]);
      Antisymmetric(a[k], b[k]);
      assert a[..k + 1] == a[..k] + [a[k]] && b[..k + 1] == b[..k] + [b[k]];
      LeastFirstIsUnique(input, a, b, k + 1);
    }
  }

  /** The entry of a name that a later entry of the same name does not replace. */
  ghost predicate IsLastOf(input: seq<Entry>, e: Entry) {
    exists i :: 0 <= i < |input| && input[i] == e && forall j :: i < j < |input| ==> input[j].name != e.name
  }

  // ----- entries that share a name -----

  /** Names seen so far come up no more often than they are declared, and a name
      that still waits for something has not come up at all. */
  ghost predicate Sparing(input: seq<Entry>, seen: multiset<string>, indeg: map<string, int>) {
    && seen <= multiset(NamesInOrder(input))
    && forall n {:trigger indeg[n]} :: n in indeg && indeg[n] > 0 ==> seen[n] == 0
  }

  lemma DeclaredNames(input: seq<Entry>)
    ensures forall n :: n in Names(input) <==> n in multiset(NamesInOrder(input))
  {
    var names := NamesInOrder(input);
    forall n | n in Names(input) ensures n in names {
      var i :| 0 <= i < |input| && input[i].name == n;
      assert names[i] == n;
    }
    forall n | n in names ensures n in Names(input) {
      var i :| 0 <= i < |names| && names[i] == n;
      assert input[i].name == n;
    }
  }

  /** A name comes up when it has just stopped waiting, and only then. */
  lemma StaysSparing(input: seq<Entry>, seen: multiset<string>, indeg: map<string, int>, n: string)
    requires Sparing(input, seen, indeg) && n in indeg && n in Names(input)
    ensures Sparing(input, if indeg[n] == 1 then seen + multiset{n} else seen, indeg[n := indeg[n] - 1])
  {
    DeclaredNames(input);
    var less := indeg[n := indeg[n] - 1];
    forall k | k in less && less[k] > 0 ensures indeg[k] > 0 {}
  }

  /** Different entries have different names. */
  ghost predicate NamesTellApart(input: seq<Entry>) {
    forall e, f :: e in input && f in input && e.name == f.name ==> e == f
  }

  lemma LastIsOne(input: seq<Entry>, e: Entry, f: Entry)
    requires IsLastOf(input, e) && IsLastOf(input, f) && e.name == f.name
    ensures e == f
  {
    var i :| 0 <= i < |input| && input[i] == e && forall j :: i < j < |input| ==> input[j].name != e.name;
    var k :| 0 <= k < |input| && input[k] == f && forall j :: k < j < |input| ==> input[j].name != f.name;
    assert !(i < k) && !(k < i);
  }

  /** Main result: of a complete list of last entries, one for each declared name,
      nothing is missing exactly when different entries have different names. */
  lemma NothingLostIff(input: seq<Entry>, order: seq<Entry>)
    requires multiset(NamesInOrder(order)) == multiset(NamesInOrder(input))
    requires forall k :: 0 <= k < |order| ==> IsLastOf(input, order[k])
    ensures (forall e :: e in input ==> e in order) <==> NamesTellApart(input)
  {
    hide IsLastOf;
    forall k | 0 <= k < |order| ensures order[k] in input {
      LastIsDeclared(input, order[k]);
    }
    if NamesTellApart(input) {
      forall e | e in input ensures e in order {
        DeclaredNames(input);
        DeclaredNames(order);
        var i :| 0 <= i < |input| && input[i] == e;
        assert e.name in Names(input);
        assert e.name in Names(order);
        var k :| 0 <= k < |order| && order[k].name == e.name;
        assert order[k] == e;
      }
    }
    if forall e :: e in input ==> e in order {
      forall e, f | e in input && f in input && e.name == f.name ensures e == f {
        assert e in order && f in order;
        LastIsOne(input, e, f);
      }
    }
  }

  lemma LastIsDeclared(input: seq<Entry>, e: Entry)
    requires IsLastOf(input, e)
    ensures e in input
  {
  }

  // ----- what gets stuck -----

  /** Names listed after their dependencies start no walk that revisits a name. */
  lemma {:induction false} WalkDescends(input: seq<Entry>, done: seq<string>, p: seq<string>, r: nat, i: nat)
    requires Orderly(input, done) && IsWalk(input, p) && r < |done| && p[0] == done[r]
    requires 0 < i < |p|
    ensures p[i] in done[..r]
    decreases i
  {
    if i == 1 {
      assert Ready(input, done[..r], done[r]);
      assert p[1] in Deps(input, p[0]);
    } else {
      WalkDescends(input, done, p, r, i - 1);
      var s :| 0 <= s < r && done[..r][s] == p[i - 1];
      assert Ready(input, done[..s], done[s]);
      assert p[i] in Deps(input, p[i - 1]);
      var t :| 0 <= t < s && done[..s][t] == p[i];
      assert done[..r][t] == p[i];
    }
  }

  lemma WalkFromDone(input: seq<Entry>, done: seq<string>, p: seq<string>, i: nat)
    requires Orderly(input, done) && IsWalk(input, p) && p[0] in done && i < |p|
    ensures p[i] in done
  {
    hide Deps, Names, Orderly, IsWalk;
    var r :| 0 <= r < |done| && done[r] == p[0];
    if i > 0 { WalkDescends(input, done, p, r, i); }
  }

  lemma WalkFromDoneIsDistinct(input: seq<Entry>, done: seq<string>, p: seq<string>)
    requires Orderly(input, done) && IsWalk(input, p) && p[0] in done
    ensures Distinct(p)
  {
    hide Deps, Names, Orderly, IsWalk;
    OrderlyIsDistinct(input, done);
    forall i, j | 0 <= i < j < |p| ensures p[i] != p[j] {
      WalkFromDone(input, done, p, i);
      var s :| 0 <= s < |done| && done[s] == p[i];
      SuffixIsWalk(input, p, i, s, done);
      WalkDescends(input, done, p[i..], s, j - i);
    }
  }

  lemma DoneReachesNoCycle(input: seq<Entry>, done: seq<string>, n: string)
    requires Orderly(input, done) && n in done
    ensures !ReachesCycle(input, n)
  {
    hide Deps, Names, Orderly, IsWalk;
    forall p ensures !Revisits(input, n, p) {
      if Revisits(input, n, p) { WalkFromDoneIsDistinct(input, done, p); }
    }
  }

  lemma SuffixIsWalk(input: seq<Entry>, p: seq<string>, i: nat, s: nat, done: seq<string>)
    requires IsWalk(input, p) && i < |p| && Orderly(input, done) && s < |done| && done[s] == p[i]
    ensures IsWalk(input, p[i..])
  {
    var q := p[i..];
    assert Ready(input, done[..s], done[s]);
    forall k | 0 < k < |q| ensures q[k] in Deps(input, q[k - 1]) {
      assert p[i + k] in Deps(input, p[i + k - 1]);
    }
  }

  /** Nothing is ready any more. */
  ghost predicate Exhausted(input: seq<Entry>, done: seq<string>) {
    forall n :: !Ready(input, done, n)
  }

  /** From a name that is left over one can walk on among left-over names for as long as one likes. */
  lemma {:induction false} LeftOverWalk(input: seq<Entry>, done: seq<string>, n: string, length: nat)
      returns (p: seq<string>)
    requires DepsKnown(input) && Exhausted(input, done) && n in Names(input) && n !in done
    ensures IsWalk(input, p) && p[0] == n && |p| == length + 1 && Elements(p) <= Names(input)
    decreases length
  {
    if length == 0 {
      p := [n];
    } else {
      assert !Ready(input, done, n);
      var d :| d in Deps(input, n) && d !in done;
      DepIsName(input, n, d);
      var rest := LeftOverWalk(input, done, d, length - 1);
      p := [n] + rest;
      forall i | 0 < i < |p| ensures p[i] in Deps(input, p[i - 1]) {
        if i > 1 { assert rest[i - 1] in Deps(input, rest[i - 2]); }
      }
    }
  }

  lemma DepIsName(input: seq<Entry>, n: string, d: string)
    requires DepsKnown(input) && d in Deps(input, n)
    ensures d in Names(input)
  {
    var i, j :| 0 <= i < |input| && input[i].name == n && 0 <= j < |input[i].dependsOn| && input[i].dependsOn[j] == d;
    assert d in input[i].dependsOn;
  }

  lemma LeftOverReachesCycle(input: seq<Entry>, done: seq<string>, n: string)
    requires DepsKnown(input) && Exhausted(input, done) && n in Names(input) && n !in done
    ensures ReachesCycle(input, n)
  {
    var p := LeftOverWalk(input, done, n, |Names(input)|);
    if Distinct(p) {
      DistinctSize(p);
      SubsetSize(Elements(p), Names(input));
    }
    assert Revisits(input, n, p);
  }

  lemma {:induction false} SubsetSize(a: set<string>, b: set<string>)
    requires a <= b
    ensures |a| <= |b|
  {
    assert |b| == |a| + |b - a| by { assert b == a + (b - a); }
  }

  /** Main result on failure: what is left over is exactly what reaches a cycle. */
  lemma LeftOverIffReachesCycle(input: seq<Entry>, done: seq<string>, n: string)
    requires DepsKnown(input) && Orderly(input, done) && Exhausted(input, done)
    ensures n in Names(input) && n !in done <==> n in Names(input) && ReachesCycle(input, n)
  {
    if n in done {
      DoneReachesNoCycle(input, done, n);
    } else if n in Names(input) {
      LeftOverReachesCycle(input, done, n);
    }
  }

  // ----- counting what a name waits for -----

  /** What n still waits for while the dependents of `name` are told one by one. */
  ghost function Waits(input: seq<Entry>, released: set<string>, name: string, scanned: set<string>,
      n: string): set<string> {
    (Deps(input, n) - released) - (if n in scanned then {name} else {})
  }

  lemma WaitsAfter(input: seq<Entry>, released: set<string>, name: string, scanned: set<string>, n: string, k: string)
    ensures Waits(input, released, name, scanned + {n}, k) ==
            if k == n then Waits(input, released, name, scanned, n) - {name}
                else Waits(input, released, name, scanned, k)
  {
    hide Deps;
  }
}
