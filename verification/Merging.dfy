/** When merging ends: the lists a merge goes through, and the ones it comes back to. */
module Merging {
  import opened Basics
  import opened Trees
  import opened Substitute
  import opened Control

  /** How merging a value ends within n nested lists: Endless when it does not. */
  datatype Fate = Fine | Fails | Endless

  function FateOf(g: Engine, scope: Scope, value: Tree, n: nat): Fate
    decreases n, 1, 0
  {
    match Resolve(g, scope, value)
    case None => Fails
    case Some(v) =>
      match ParseMerge(g, v)
      case Null => Fine
      case Map(_) => Fine
      case List(items) => if n == 0 then Endless else FateOfEach(g, scope, items, n)
      case _ => Fails
  }

  function FateOfEach(g: Engine, scope: Scope, items: seq<Tree>, n: nat): Fate
    requires n > 0
    decreases n, 0, |items|
  {
    if items == [] then Fine
    else
      var before := FateOfEach(g, scope, items[..|items| - 1], n);
      var item := items[|items| - 1];
      if before != Fine || item.Omit? || item.Null? then before else FateOf(g, scope, item, n - 1)
  }

  lemma {:induction false} FateIsMerge(g: Engine, scope: Scope, fields: map<string, Tree>, value: Tree, n: nat)
    ensures ApplyMerge(g, scope, fields, value, n).Some? <==> FateOf(g, scope, value, n) == Fine
    decreases n, 1, 0
  {
    hide Resolve, ParseMerge;
    if Resolve(g, scope, value).Some? && n > 0 {
      var v := ParseMerge(g, Resolve(g, scope, value).value);
      if v.List? { FateIsEach(g, scope, fields, v.items, n); }
    }
  }

  lemma {:induction false} FateIsEach(g: Engine, scope: Scope, fields: map<string, Tree>, items: seq<Tree>, n: nat)
    requires n > 0
    ensures ApplyEach(g, scope, fields, items, n).Some? <==> FateOfEach(g, scope, items, n) == Fine
    decreases n, 0, |items|
  {
    hide ApplyMerge, FateOf;
    if items != [] {
      FateIsEach(g, scope, fields, items[..|items| - 1], n);
      var done := ApplyEach(g, scope, fields, items[..|items| - 1], n);
      if done.Some? { FateIsMerge(g, scope, done.value, items[|items| - 1], n - 1); }
    }
  }

  /** Once a merge ends within some number of nested lists, a larger
      bound gives the same result, so the bound shows in endless merges only. */
  lemma {:induction false} EndingIsSettled(g: Engine, scope: Scope, fields: map<string, Tree>, value: Tree, n: nat,
      more: nat)
    requires n <= more && FateOf(g, scope, value, n) != Endless
    ensures FateOf(g, scope, value, more) == FateOf(g, scope, value, n)
    ensures ApplyMerge(g, scope, fields, value, more) == ApplyMerge(g, scope, fields, value, n)
    decreases n, 1, 0
  {
    hide Resolve, ParseMerge;
    if Resolve(g, scope, value).Some? && n > 0 {
      var v := ParseMerge(g, Resolve(g, scope, value).value);
      if v.List? { EachIsSettled(g, scope, fields, v.items, n, more); }
    }
  }

  lemma {:induction false} EachIsSettled(g: Engine, scope: Scope, fields: map<string, Tree>, items: seq<Tree>, n: nat,
      more: nat)
    requires 0 < n <= more && FateOfEach(g, scope, items, n) != Endless
    ensures FateOfEach(g, scope, items, more) == FateOfEach(g, scope, items, n)
    ensures ApplyEach(g, scope, fields, items, more) == ApplyEach(g, scope, fields, items, n)
    decreases n, 0, |items|
  {
    hide ApplyMerge, FateOf;
    if items != [] {
      var last := items[|items| - 1];
      EachIsSettled(g, scope, fields, items[..|items| - 1], n, more);
      FateIsEach(g, scope, fields, items[..|items| - 1], n);
      var done := ApplyEach(g, scope, fields, items[..|items| - 1], n);
      if done.Some? && !last.Omit? && !last.Null? { EndingIsSettled(g, scope, done.value, last, n - 1, more - 1); }
    }
  }

  // ----- chains of nested lists -----

  /** The items of the list a value merges as, if it does as a list. */
  function Nested(g: Engine, scope: Scope, value: Tree): Option<seq<Tree>> {
    match Resolve(g, scope, value)
    case None => None
    case Some(v) => match ParseMerge(g, v) case List(items) => Some(items) case _ => None
  }

  predicate Skipped(item: Tree) {
    item.Omit? || item.Null?
  }

  /** Merging the value ends well, within some number of nested lists. */
  ghost predicate Ends(g: Engine, scope: Scope, value: Tree) {
    exists n: nat :: FateOf(g, scope, value, n) == Fine
  }

  /** Merging the value comes to the item: it is in its list and those before it merge well. */
  ghost predicate LeadsTo(g: Engine, scope: Scope, value: Tree, item: Tree) {
    Nested(g, scope, value).Some? && exists p: nat :: ReachesAt(g, scope, Nested(g, scope, value).value, p, item)
  }

  ghost predicate ReachesAt(g: Engine, scope: Scope, items: seq<Tree>, p: nat, item: Tree) {
    && p < |items| && items[p] == item && !Skipped(item)
    && forall q :: 0 <= q < p ==> Skipped(items[q]) || Ends(g, scope, items[q])
  }

  /** Lists each of which the merge comes to in the one before. */
  ghost predicate IsChain(g: Engine, scope: Scope, c: seq<Tree>) {
    && c != [] && (forall k :: 0 <= k < |c| ==> Nested(g, scope, c[k]).Some?)
    && forall k :: 0 <= k < |c| - 1 ==> LeadsTo(g, scope, c[k], c[k + 1])
  }

  ghost predicate ChainFrom(g: Engine, scope: Scope, value: Tree, c: seq<Tree>) {
    IsChain(g, scope, c) && c[0] == value
  }

  lemma {:induction false} EachIsFine(g: Engine, scope: Scope, items: seq<Tree>, n: nat)
    requires n > 0
    ensures FateOfEach(g, scope, items, n) == Fine <==>
            forall q :: 0 <= q < |items| ==> Skipped(items[q]) || FateOf(g, scope, items[q], n - 1) == Fine
    decreases |items|
  {
    hide FateOf;
    if items != [] {
      var front := items[..|items| - 1];
      EachIsFine(g, scope, front, n);
      forall q | 0 <= q < |front| ensures front[q] == items[q] {}
    }
  }

  /** The items merge without end exactly when one does and those before it merge well. */
  lemma {:induction false} EachIsEndless(g: Engine, scope: Scope, items: seq<Tree>, n: nat)
    requires n > 0
    ensures FateOfEach(g, scope, items, n) == Endless <==> exists p: nat :: EndlessAt(g, scope, items, n, p)
    decreases |items|
  {
    hide FateOf;
    if items != [] {
      var last := |items| - 1;
      var front := items[..last];
      EachIsEndless(g, scope, front, n);
      EachIsFine(g, scope, front, n);
      forall q | 0 <= q < last ensures front[q] == items[q] {}
      if p: nat :| EndlessAt(g, scope, front, n, p) {
        assert EndlessAt(g, scope, items, n, p);
      } else if FateOfEach(g, scope, items, n) == Endless {
        assert EndlessAt(g, scope, items, n, last);
      }
      if p: nat :| EndlessAt(g, scope, items, n, p) {
        if p < last { assert EndlessAt(g, scope, front, n, p); }
      }
    }
  }

  ghost predicate EndlessAt(g: Engine, scope: Scope, items: seq<Tree>, n: nat, p: nat)
    requires n > 0
  {
    && p < |items| && !Skipped(items[p]) && FateOf(g, scope, items[p], n - 1) == Endless
    && forall q :: 0 <= q < p ==> Skipped(items[q]) || FateOf(g, scope, items[q], n - 1) == Fine
  }

  lemma ListIsEndless(g: Engine, scope: Scope, value: Tree, n: nat)
    ensures FateOf(g, scope, value, n) == Endless <==>
            Nested(g, scope, value).Some? && (n == 0
                || FateOfEach(g, scope, Nested(g, scope, value).value, n) == Endless)
  {
    hide Resolve, ParseMerge;
  }

  /** What ends well at all either does so within n lists or is still under way there. */
  lemma EndsOrGoesOn(g: Engine, scope: Scope, value: Tree, n: nat)
    requires Ends(g, scope, value)
    ensures FateOf(g, scope, value, n) != Fails
  {
    hide FateOf;
    var k: nat :| FateOf(g, scope, value, k) == Fine;
    if FateOf(g, scope, value, n) == Fails {
      var more := if n < k then k else n;
      EndingIsSettled(g, scope, map[], value, n, more);
      EndingIsSettled(g, scope, map[], value, k, more);
    }
  }

  lemma Prepended(g: Engine, scope: Scope, value: Tree, c: seq<Tree>)
    requires Nested(g, scope, value).Some? && IsChain(g, scope, c) && LeadsTo(g, scope, value, c[0])
    ensures ChainFrom(g, scope, value, [value] + c)
  {
    hide LeadsTo, Nested;
    var d := [value] + c;
    forall k | 0 <= k < |d| - 1 ensures LeadsTo(g, scope, d[k], d[k + 1]) {
      if k > 0 { assert LeadsTo(g, scope, c[k - 1], c[k - 1 + 1]); }
    }
  }

  lemma ChainTail(g: Engine, scope: Scope, c: seq<Tree>)
    requires IsChain(g, scope, c) && |c| > 1
    ensures ChainFrom(g, scope, c[1], c[1..]) && LeadsTo(g, scope, c[0], c[1])
  {
    hide LeadsTo, Nested;
    var d := c[1..];
    assert LeadsTo(g, scope, c[0], c[0 + 1]);
    forall k | 0 <= k < |d| - 1 ensures LeadsTo(g, scope, d[k], d[k + 1]) {
      assert LeadsTo(g, scope, c[k + 1], c[k + 1 + 1]);
    }
  }

  lemma {:induction false} EndlessHasChain(g: Engine, scope: Scope, value: Tree, n: nat) returns (c: seq<Tree>)
    requires FateOf(g, scope, value, n) == Endless
    ensures ChainFrom(g, scope, value, c) && |c| == n + 1
    decreases n
  {
    hide FateOf, FateOfEach, Nested;
    ListIsEndless(g, scope, value, n);
    if n == 0 {
      c := [value];
    } else {
      var items := Nested(g, scope, value).value;
      EachIsEndless(g, scope, items, n);
      var p: nat :| EndlessAt(g, scope, items, n, p);
      var rest := EndlessHasChain(g, scope, items[p], n - 1);
      assert ReachesAt(g, scope, items, p, items[p]);
      assert LeadsTo(g, scope, value, rest[0]);
      c := [value] + rest;
      Prepended(g, scope, value, rest);
    }
  }

  lemma {:induction false} ChainIsEndless(g: Engine, scope: Scope, value: Tree, c: seq<Tree>)
    requires ChainFrom(g, scope, value, c)
    ensures FateOf(g, scope, value, |c| - 1) == Endless
    decreases |c|
  {
    hide FateOf, FateOfEach, Nested, Ends;
    var n := |c| - 1;
    ListIsEndless(g, scope, value, n);
    if n > 0 {
      ChainTail(g, scope, c);
      ChainIsEndless(g, scope, c[1], c[1..]);
      var items := Nested(g, scope, value).value;
      var p: nat :| ReachesAt(g, scope, items, p, c[1]);
      StopsNoLater(g, scope, items, n, p);
      EachIsEndless(g, scope, items, n);
    }
  }

  /** With well-ending items before an endless one, the first that is not fine is endless. */
  lemma {:induction false} StopsNoLater(g: Engine, scope: Scope, items: seq<Tree>, n: nat, p: nat)
    requires n > 0 && p < |items| && !Skipped(items[p]) && FateOf(g, scope, items[p], n - 1) == Endless
    requires forall q :: 0 <= q < p ==> Skipped(items[q]) || Ends(g, scope, items[q])
    ensures exists k: nat :: EndlessAt(g, scope, items, n, k)
    decreases p
  {
    hide FateOf, Ends;
    if q: nat :| q < p && !Skipped(items[q]) && FateOf(g, scope, items[q], n - 1) != Fine {
      EndsOrGoesOn(g, scope, items[q], n - 1);
      StopsNoLater(g, scope, items, n, q);
    } else {
      assert EndlessAt(g, scope, items, n, p);
    }
  }

  /** Main result: merging is still under way after n nested lists exactly when
      there is a chain of one more, each come to in the list before it. */
  lemma EndlessIffChain(g: Engine, scope: Scope, value: Tree, n: nat)
    ensures FateOf(g, scope, value, n) == Endless <==> exists c :: ChainFrom(g, scope, value, c) && |c| == n + 1
  {
    hide FateOf, IsChain;
    if FateOf(g, scope, value, n) == Endless {
      var c := EndlessHasChain(g, scope, value, n);
    }
    if c :| ChainFrom(g, scope, value, c) && |c| == n + 1 {
      ChainIsEndless(g, scope, value, c);
    }
  }

  // ----- coming back -----

  /** Merging the value comes to some list, and from there to it again. */
  ghost predicate ComesBack(g: Engine, scope: Scope, value: Tree) {
    exists c, i: nat, j: nat :: Loops(g, scope, value, c, i, j)
  }

  ghost predicate Loops(g: Engine, scope: Scope, value: Tree, c: seq<Tree>, i: nat, j: nat) {
    ChainFrom(g, scope, value, c) && i < j < |c| && c[i] == c[j]
  }

  /** Everything a merge of the value comes to is in the set. */
  ghost predicate Closed(g: Engine, scope: Scope, value: Tree, reached: set<Tree>) {
    value in reached && forall v, w :: v in reached && LeadsTo(g, scope, v, w) ==> w in reached
  }

  lemma Longer(g: Engine, scope: Scope, c: seq<Tree>, w: Tree)
    requires IsChain(g, scope, c) && LeadsTo(g, scope, c[|c| - 1], w) && Nested(g, scope, w).Some?
    ensures IsChain(g, scope, c + [w])
  {
    hide LeadsTo, Nested;
    var d := c + [w];
    forall k | 0 <= k < |d| - 1 ensures LeadsTo(g, scope, d[k], d[k + 1]) {
      if k + 1 < |c| { assert LeadsTo(g, scope, c[k], c[k + 1]); }
    }
  }

  /** Going round the loop gives chains of any length, all ending in it. */
  lemma {:induction false} Unrolled(g: Engine, scope: Scope, value: Tree, c: seq<Tree>, i: nat, j: nat, n: nat)
    returns (d: seq<Tree>, at: nat)
    requires Loops(g, scope, value, c, i, j)
    ensures ChainFrom(g, scope, value, d) && |d| == n + 1 && at < j && d[n] == c[at]
    decreases n
  {
    hide LeadsTo, Nested;
    if n == 0 {
      d, at := [value], 0;
    } else {
      d, at := Unrolled(g, scope, value, c, i, j, n - 1);
      assert LeadsTo(g, scope, c[at], c[at + 1]);
      Longer(g, scope, d, c[at + 1]);
      d := d + [c[at + 1]];
      at := if at + 1 == j then i else at + 1;
    }
  }

  lemma {:induction false} ChainStaysIn(g: Engine, scope: Scope, value: Tree, reached: set<Tree>, c: seq<Tree>, k: nat)
    requires Closed(g, scope, value, reached) && ChainFrom(g, scope, value, c) && k < |c|
    ensures c[k] in reached
    decreases k
  {
    hide LeadsTo, Nested;
    if k > 0 {
      ChainStaysIn(g, scope, value, reached, c, k - 1);
      assert LeadsTo(g, scope, c[k - 1], c[k - 1 + 1]);
    }
  }

  /** More positions than values: two of them hold the same one. */
  lemma {:induction false} Pigeonhole(c: seq<Tree>, values: set<Tree>) returns (i: nat, j: nat)
    requires |c| > |values| && forall k :: 0 <= k < |c| ==> c[k] in values
    ensures i < j < |c| && c[i] == c[j]
    decreases |c|
  {
    var n := |c| - 1;
    if k: nat :| k < n && c[k] == c[n] {
      i, j := k, n;
    } else {
      i, j := Pigeonhole(c[..n], values - {c[n]});
    }
  }

  /** Merging the value ends, well or with an error, within n nested lists. */
  ghost predicate EndsBy(g: Engine, scope: Scope, value: Tree, n: nat) {
    FateOf(g, scope, value, n) != Endless
  }

  /** Main result: where the values come to are finitely many, merging ends, well
      or with an error, exactly when it comes back to nothing; and if it has not
      ended after as many nested lists as there are values, it never does. */
  lemma MergingEndsIff(g: Engine, scope: Scope, value: Tree, reached: set<Tree>)
    requires Closed(g, scope, value, reached)
    ensures (exists n: nat :: EndsBy(g, scope, value, n)) <==> !ComesBack(g, scope, value)
    ensures FateOf(g, scope, value, |reached|) == Endless ==> forall n: nat :: FateOf(g, scope, value, n) == Endless
  {
    hide FateOf, IsChain, LeadsTo;
    if FateOf(g, scope, value, |reached|) == Endless {
      var c := EndlessHasChain(g, scope, value, |reached|);
      forall k | 0 <= k < |c| ensures c[k] in reached {
        ChainStaysIn(g, scope, value, reached, c, k);
      }
      var i, j := Pigeonhole(c, reached);
      assert Loops(g, scope, value, c, i, j);
    }
    if ComesBack(g, scope, value) {
      LoopIsEndless(g, scope, value);
    } else {
      assert EndsBy(g, scope, value, |reached|);
    }
  }

  /** Whatever comes back never ends, finitely many values or not. */
  lemma LoopIsEndless(g: Engine, scope: Scope, value: Tree)
    requires ComesBack(g, scope, value)
    ensures forall n: nat :: FateOf(g, scope, value, n) == Endless
  {
    hide FateOf, IsChain, LeadsTo;
    var c, i: nat, j: nat :| Loops(g, scope, value, c, i, j);
    forall n: nat ensures FateOf(g, scope, value, n) == Endless {
      var d, at := Unrolled(g, scope, value, c, i, j, n);
      ChainIsEndless(g, scope, value, d);
    }
  }

  /** An input: a value that is a list naming itself comes back at once. */
  lemma SelfMergeIsEndless(g: Engine, scope: Scope, n: nat)
    requires g.e.eval("x", scope) == Some(List([Str("${x}")]))
    ensures FateOf(g, scope, Str("${x}"), n) == Endless
  {
    hide FateOf;
    var x := Str("${x}");
    LoneExpression();
    assert Nested(g, scope, x) == Some([x]);
    assert ReachesAt(g, scope, [x], 0, x);
    assert LeadsTo(g, scope, x, x);
    assert Loops(g, scope, x, [x, x], 0, 1);
    LoopIsEndless(g, scope, x);
  }
}
