/** Grouping an edit script into hunks with three lines of context, and the
    patch those hunks describe. */
module Hunks {
  import opened Basics
  import opened LineDiff

  const CONTEXT: nat := 3

  /** A hunk with the four numbers of its header. */
  datatype Hunk = Hunk(startOld: int, countOld: int, startNew: int, countNew: int, edits: seq<Edit>)

  /** The half-open range [lo, hi) of an edit script that a hunk shows. */
  datatype Window = Window(lo: nat, hi: nat)

  /** Some change at a position in [from, to) lies within three edits of position k. */
  ghost predicate NearChange(es: seq<Edit>, from: nat, to: nat, k: int)
    requires to <= |es|
  {
    exists c :: from <= c < to && !es[c].op.Equal? && c - 3 <= k <= c + 3
  }

  ghost predicate Covered(ws: seq<Window>, k: int) {
    exists n :: 0 <= n < |ws| && ws[n].lo <= k < ws[n].hi
  }

  /** Non-empty windows from left to right with at least one hidden edit between two. */
  ghost predicate Separated(ws: seq<Window>) {
    && (forall n :: 0 <= n < |ws| ==> ws[n].lo < ws[n].hi)
    && (forall m, n :: 0 <= m < n < |ws| ==> ws[m].hi < ws[n].lo)
  }

  /** The windows show exactly the edits within three of a change. */
  ghost predicate ShowsChanges(es: seq<Edit>, ws: seq<Window>) {
    && Separated(ws)
    && (forall n :: 0 <= n < |ws| ==> ws[n].hi <= |es|)
    && (forall k {:trigger Covered(ws, k)} :: 0 <= k < |es| ==> (Covered(ws, k) <==> NearChange(es, 0, |es|, k)))
  }

  /** The hunk for one window: headers count from one. */
  function HunkOf(es: seq<Edit>, w: Window): Hunk
    requires w.lo <= w.hi <= |es|
  {
    Hunk(1 + |OldLines(es[..w.lo])|, |OldLines(es[w.lo..w.hi])|,
         1 + |NewLines(es[..w.lo])|, |NewLines(es[w.lo..w.hi])|, es[w.lo..w.hi])
  }

  ghost predicate HunksFor(es: seq<Edit>, ws: seq<Window>, hunks: seq<Hunk>) {
    && |hunks| == |ws|
    && forall n :: 0 <= n < |ws| ==> ws[n].lo <= ws[n].hi <= |es| && hunks[n] == HunkOf(es, ws[n])
  }

  // ----- counting lines -----

  function OldCount(es: seq<Edit>, i: nat): nat
    requires i <= |es|
  {
    if i == 0 then 0 else OldCount(es, i - 1) + if es[i - 1].op.Insert? then 0 else 1
  }

  function NewCount(es: seq<Edit>, i: nat): nat
    requires i <= |es|
  {
    if i == 0 then 0 else NewCount(es, i - 1) + if es[i - 1].op.Delete? then 0 else 1
  }

  lemma {:induction false} CountsAreLengths(es: seq<Edit>, i: nat)
    requires i <= |es|
    ensures OldCount(es, i) == |OldLines(es[..i])| && NewCount(es, i) == |NewLines(es[..i])|
  {
    if i > 0 {
      CountsAreLengths(es, i - 1);
      assert es[..i] == es[..i - 1] + [es[i - 1]];
      LinesSnoc(es[..i - 1], es[i - 1]);
    }
  }

  /** The running line counters at position i. */
  ghost predicate Counters(es: seq<Edit>, i: nat, lineOld: int, lineNew: int) {
    i <= |es| && lineOld == 1 + OldCount(es, i) && lineNew == 1 + NewCount(es, i)
  }

  lemma {:induction false} CountRun(es: seq<Edit>, i: nat, j: nat, lineOld: int, lineNew: int)
    requires i <= j <= |es|
    requires forall k :: i <= k < j ==> es[k].op.Equal?
    ensures Counters(es, i, lineOld, lineNew) <==> Counters(es, j, lineOld + (j - i), lineNew + (j - i))
  {
    if i < j {
      CountRun(es, i, j - 1, lineOld, lineNew);
    }
  }

  method CountLines(es: seq<Edit>) returns (countOld: nat, countNew: nat)
    ensures countOld == |OldLines(es)| && countNew == |NewLines(es)|
  {
    countOld, countNew := 0, 0;
    for i := 0 to |es|
      invariant Counters(es, i, 1 + countOld, 1 + countNew)
    {
      if !es[i].op.Insert? {
        countOld := countOld + 1;
      }
      if !es[i].op.Delete? {
        countNew := countNew + 1;
      }
    }
    CountsAreLengths(es, |es|);
    assert es[..|es|] == es;
  }

  // ----- building -----

  /** Length of the run of Equal edits that starts at i. */
  method RunLength(es: seq<Edit>, i: nat) returns (count: nat)
    requires i <= |es|
    ensures i + count <= |es| && (forall k :: i <= k < i + count ==> es[k].op.Equal?)
    ensures i + count < |es| ==> !es[i + count].op.Equal?
  {
    count := 0;
    var j := i;
    while j < |es| && es[j].op.Equal?
      invariant i <= j <= |es| && count == j - i
      invariant forall k :: i <= k < j ==> es[k].op.Equal?
    {
      count := count + 1;
      j := j + 1;
    }
  }

  /** The changes at positions [from, to) call for showing exactly [lo, hi), as far as es reaches. */
  ghost predicate Shows(es: seq<Edit>, from: nat, to: nat, lo: nat, hi: nat)
    requires to <= |es|
  {
    forall k {:trigger NearChange(es, from, to, k)} :: 0 <= k < |es| ==> (NearChange(es, from, to, k) <==> lo <= k < hi)
  }

  lemma ShowsPastEquals(es: seq<Edit>, from: nat, i: nat, j: nat, lo: nat, hi: nat)
    requires i <= j <= |es| && forall k :: i <= k < j ==> es[k].op.Equal?
    requires Shows(es, from, i, lo, hi)
    ensures Shows(es, from, j, lo, hi)
    ensures |es| < hi ==> Shows(es, from, j, lo, |es|)
  {
    forall k | 0 <= k < |es| ensures NearChange(es, from, j, k) <==> NearChange(es, from, i, k) {}
  }

  lemma ShowsFirstChange(es: seq<Edit>, first: nat, lo: nat)
    requires first < |es| && !es[first].op.Equal?
    requires lo == if first < CONTEXT then 0 else first - CONTEXT
    ensures Shows(es, first, first + 1, lo, first + 1 + CONTEXT)
  {
  }

  /** A change at i soon after the change at `last` extends the shown range without a hole. */
  lemma ShowsNextChange(es: seq<Edit>, first: nat, lo: nat, last: nat, i: nat)
    requires first <= last < i < |es| && i <= last + 1 + 2 * CONTEXT
    requires lo == if first < CONTEXT then 0 else first - CONTEXT
    requires !es[i].op.Equal?
    requires Shows(es, first, i, lo, last + 1 + CONTEXT)
    ensures Shows(es, first, i + 1, lo, i + 1 + CONTEXT)
  {
    forall k {:trigger NearChange(es, first, i + 1, k)} | 0 <= k < |es|
      ensures NearChange(es, first, i + 1, k) <==> lo <= k < i + 1 + CONTEXT
    {
      assert NearChange(es, first, i + 1, k) <==> NearChange(es, first, i, k) || i - CONTEXT <= k <= i + CONTEXT;
    }
  }

  method AppendRun(acc: seq<Edit>, es: seq<Edit>, ghost lo: nat, i: nat, count: nat) returns (r: seq<Edit>)
    requires lo <= i && i + count <= |es| && acc == es[lo..i]
    ensures r == es[lo..i + count]
  {
    r := acc;
    for k := 0 to count
      invariant r == es[lo..i + k]
    {
      r := r + [es[i + k]];
    }
  }

  /** A hunk being grown from the change at `first`: position, edits taken and counters. */
  datatype Growth = Growth(i: nat, edits: seq<Edit>, lineOld: int, lineNew: int)

  ghost predicate Growing(es: seq<Edit>, lo: nat, first: nat, last: nat, g: Growth) {
    && lo <= first <= last < g.i <= |es|
    && g.i <= last + 1 + 2 * CONTEXT
    && (forall k :: last < k < g.i ==> es[k].op.Equal?)
    && (g.i < |es| && es[g.i].op.Equal? ==> g.i == last + 1)
    && Shows(es, first, g.i, lo, last + 1 + CONTEXT)
    && g.edits == es[lo..g.i]
    && Counters(es, g.i, g.lineOld, g.lineNew)
  }

  ghost predicate Starting(es: seq<Edit>, lo: nat, first: nat, g: Growth) {
    && g.i == first < |es| && !es[first].op.Equal?
    && lo <= first && g.edits == es[lo..first]
    && Counters(es, g.i, g.lineOld, g.lineNew)
  }

  ghost predicate Grown(es: seq<Edit>, lo: nat, first: nat, hi: nat, g: Growth) {
    && lo <= first < hi <= g.i <= |es|
    && g.edits == es[lo..hi]
    && Shows(es, first, g.i, lo, hi)
    && (g.i < |es| ==> hi + CONTEXT < g.i && !es[g.i].op.Equal?)
    && (forall k :: hi <= k < g.i ==> es[k].op.Equal?)
    && Counters(es, g.i, g.lineOld, g.lineNew)
  }

  /** Takes the run of Equal edits at g.i: all of it inside a hunk, at most CONTEXT of it at the end. */
  method TakeRun(es: seq<Edit>, ghost lo: nat, ghost first: nat, ghost last: nat, g: Growth)
    returns (g': Growth, ends: bool, ghost hi: nat)
    requires lo <= first && g.i < |es| && es[g.i].op.Equal? && Growing(es, lo, first, last, g)
    ensures g.i < g'.i <= |es|
    ensures if ends then Grown(es, lo, first, hi, g') else g'.i < |es| && Growing(es, lo, first, last, g')
  {
    var contextCount := RunLength(es, g.i);
    ends := g.i + contextCount >= |es| || contextCount > 2 * CONTEXT;
    var shown := if ends && contextCount > CONTEXT then CONTEXT else contextCount;
    var taken := AppendRun(g.edits, es, lo, g.i, shown);
    hi := g.i + shown;
    g' := Growth(g.i + contextCount, taken, g.lineOld + contextCount, g.lineNew + contextCount);
    ShowsPastEquals(es, first, g.i, g'.i, lo, last + 1 + CONTEXT);
    CountRun(es, g.i, g'.i, g.lineOld, g.lineNew);
  }

  method TakeChange(es: seq<Edit>, ghost lo: nat, ghost first: nat, ghost last: nat, g: Growth)
    returns (g': Growth)
    requires g.i < |es| && !es[g.i].op.Equal?
    requires lo == if first < CONTEXT then 0 else first - CONTEXT
    requires Starting(es, lo, first, g) || Growing(es, lo, first, last, g)
    ensures g'.i == g.i + 1 && Growing(es, lo, first, g.i, g')
    ensures g'.i == |es| ==> Grown(es, lo, first, g'.i, g')
  {
    if g.i == first { ShowsFirstChange(es, first, lo); } else { ShowsNextChange(es, first, lo, last, g.i); }
    var taken := AppendRun(g.edits, es, lo, g.i, 1);
    if es[g.i].op.Delete? {
      g' := Growth(g.i + 1, taken, g.lineOld + 1, g.lineNew);
    } else {
      g' := Growth(g.i + 1, taken, g.lineOld, g.lineNew + 1);
    }
  }

  /** Grows one hunk from the change at `first`, whose context starts at lo. */
  method GrowHunk(es: seq<Edit>, ghost lo: nat, ghost first: nat, start: Growth) returns (g: Growth, ghost hi: nat)
    requires lo == if first < CONTEXT then 0 else first - CONTEXT
    requires Starting(es, lo, first, start)
    ensures Grown(es, lo, first, hi, g)
  {
    g, hi := start, first;
    ghost var last := first;
    while g.i < |es|
      invariant g.i <= |es|
      invariant Starting(es, lo, first, g) || Growing(es, lo, first, last, g)
      invariant g.i == |es| ==> Grown(es, lo, first, hi, g)
    {
      if es[g.i].op.Equal? {
        var ends;
        g, ends, hi := TakeRun(es, lo, first, last, g);
        if ends {
          break;
        }
      } else {
        ghost var change := g.i;
        g := TakeChange(es, lo, first, last, g);
        last, hi := change, g.i;
      }
    }
  }

  /** The up to CONTEXT edits in front of i. */
  method ContextBefore(es: seq<Edit>, i: nat) returns (context: seq<Edit>)
    requires i <= |es|
    ensures |context| == (if i < CONTEXT then i else CONTEXT) && context == es[i - |context|..i]
  {
    context := [];
    var backtrack := i - 1;
    while |context| < CONTEXT && backtrack >= 0
      invariant -1 <= backtrack == i - 1 - |context| && |context| <= CONTEXT
      invariant context == es[backtrack + 1..i]
    {
      assert [es[backtrack]] + es[backtrack + 1..i] == es[backtrack..i];
      context := [es[backtrack]] + context;
      backtrack := backtrack - 1;
    }
  }

  /** At position i the windows so far show what the changes before i call for. */
  ghost predicate ShownSoFar(es: seq<Edit>, ws: seq<Window>, i: nat) {
    && i <= |es|
    && Separated(ws)
    && (forall n :: 0 <= n < |ws| ==> ws[n].hi <= i)
    && (forall k {:trigger Covered(ws, k)} :: 0 <= k < |es| ==> (Covered(ws, k) <==> NearChange(es, 0, i, k)))
    && (i < |es| ==> forall n :: 0 <= n < |ws| ==> ws[n].hi + CONTEXT < i)
    && (i < |es| ==> forall k :: 0 <= k < i && i - CONTEXT <= k ==> es[k].op.Equal?)
  }

  lemma SkipEquals(es: seq<Edit>, ws: seq<Window>, i: nat, j: nat)
    requires ShownSoFar(es, ws, i) && i < |es| && i <= j <= |es|
    requires forall k :: i <= k < j ==> es[k].op.Equal?
    ensures ShownSoFar(es, ws, j)
  {
    forall k | 0 <= k < |es| ensures NearChange(es, 0, j, k) <==> NearChange(es, 0, i, k) {}
  }

  lemma OneMoreWindow(es: seq<Edit>, ws: seq<Window>, first: nat, lo: nat, hi: nat, i: nat)
    requires first <= |es| && ShownSoFar(es, ws, first) && first < |es|
    requires lo == if first < CONTEXT then 0 else first - CONTEXT
    requires first < hi <= i <= |es| && Shows(es, first, i, lo, hi)
    requires i < |es| ==> hi + CONTEXT < i
    requires forall k :: hi <= k < i ==> es[k].op.Equal?
    ensures ShownSoFar(es, ws + [Window(lo, hi)], i)
  {
    var ws' := ws + [Window(lo, hi)];
    assert ws'[|ws|] == Window(lo, hi);
    forall k | 0 <= k < |es|
      ensures Covered(ws', k) <==> NearChange(es, 0, i, k)
    {
      if Covered(ws, k) {
        var n :| 0 <= n < |ws| && ws[n].lo <= k < ws[n].hi;
        assert ws'[n] == ws[n];
      }
      assert Covered(ws', k) <==> Covered(ws, k) || lo <= k < hi;
      assert NearChange(es, 0, i, k) <==> NearChange(es, 0, first, k) || NearChange(es, first, i, k);
    }
  }

  lemma NoHunks(es: seq<Edit>)
    ensures HunksFor(es, [], []) && Counters(es, 0, 1, 1)
  {
  }

  lemma HunkAdded(es: seq<Edit>, ws: seq<Window>, hunks: seq<Hunk>, w: Window, h: Hunk)
    requires HunksFor(es, ws, hunks) && w.lo <= w.hi <= |es| && h == HunkOf(es, w)
    ensures HunksFor(es, ws + [w], hunks + [h])
  {
    hide HunkOf;
  }

  /** Main result of the grouping: the hunks are cut along windows that show
      exactly what lies within three edits of a change. */
  method BuildHunks(es: seq<Edit>) returns (hunks: seq<Hunk>)
    ensures exists ws :: ShowsChanges(es, ws) && HunksFor(es, ws, hunks)
  {
    hide HunksFor, OldLines, NewLines;
    NoHunks(es);
    hunks := [];
    var lineOld, lineNew, i := 1, 1, 0;
    ghost var ws: seq<Window> := [];
    while i < |es|
      invariant ShownSoFar(es, ws, i) && Counters(es, i, lineOld, lineNew) && HunksFor(es, ws, hunks)
    {
      var skipped := RunLength(es, i);
      SkipEquals(es, ws, i, i + skipped);
      CountRun(es, i, i + skipped, lineOld, lineNew);
      i, lineOld, lineNew := i + skipped, lineOld + skipped, lineNew + skipped;
      if i >= |es| {
        break;
      }
      var context := ContextBefore(es, i);
      var hunkOld, hunkNew := lineOld - |context|, lineNew - |context|;
      ghost var lo, first := i - |context|, i;
      CountRun(es, lo, i, hunkOld, hunkNew);
      var g, hi := GrowHunk(es, lo, first, Growth(i, context, lineOld, lineNew));
      var countOld, countNew := CountLines(g.edits);
      CountsAreLengths(es, lo);
      HunkAdded(es, ws, hunks, Window(lo, hi), Hunk(hunkOld, countOld, hunkNew, countNew, g.edits));
      hunks := hunks + [Hunk(hunkOld, countOld, hunkNew, countNew, g.edits)];
      OneMoreWindow(es, ws, first, lo, hi, g.i);
      ws := ws + [Window(lo, hi)];
      i, lineOld, lineNew := g.i, g.lineOld, g.lineNew;
    }
    assert ShowsChanges(es, ws) && HunksFor(es, ws, hunks);
  }
}
