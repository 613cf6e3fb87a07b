/** What the hunks of a unified diff mean: a strict patch. */
module Patch {
  import opened Basics
  import opened LineDiff
  import opened Hunks

  /** Applies the hunks to a from line `pos` on, with `emitted` lines written so far. */
  function ApplyFrom(a: seq<string>, hunks: seq<Hunk>, pos: nat, emitted: nat): Option<seq<string>>
    requires pos <= |a|
    decreases |hunks|
  {
    if hunks == [] then Some(a[pos..])
    else
      var h := hunks[0];
      var at := h.startOld - 1;
      if !(pos <= at && at + h.countOld <= |a| && h.countOld >= 0) then None
      else if a[at..at + h.countOld] != OldLines(h.edits) then None
      else if h.startNew - 1 != emitted + (at - pos) || h.countNew != |NewLines(h.edits)| then None
      else
        match ApplyFrom(a, hunks[1..], at + h.countOld, emitted + (at - pos) + h.countNew)
        case None => None
        case Some(rest) => Some(a[pos..at] + NewLines(h.edits) + rest)
  }

  function Apply(a: seq<string>, hunks: seq<Hunk>): Option<seq<string>> {
    ApplyFrom(a, hunks, 0, 0)
  }

  lemma {:induction false} HiddenEdits(es: seq<Edit>)
    requires Unchanged(es)
    ensures OldLines(es) == NewLines(es)
  {
    NoChangesMeansSame(es);
  }

  lemma SplitAt(es: seq<Edit>, i: nat)
    requires i <= |es|
    ensures OldLines(es) == OldLines(es[..i]) + OldLines(es[i..])
    ensures NewLines(es) == NewLines(es[..i]) + NewLines(es[i..])
  {
    assert es == es[..i] + es[i..];
    LinesConcat(es[..i], es[i..]);
  }

  lemma SplitPrefix(es: seq<Edit>, i: nat, j: nat)
    requires i <= j <= |es|
    ensures OldLines(es[..j]) == OldLines(es[..i]) + OldLines(es[i..j])
    ensures NewLines(es[..j]) == NewLines(es[..i]) + NewLines(es[i..j])
    ensures OldLines(es[i..]) == OldLines(es[i..j]) + OldLines(es[j..])
    ensures NewLines(es[i..]) == NewLines(es[i..j]) + NewLines(es[j..])
  {
    assert es[..j] == es[..i] + es[i..j];
    LinesConcat(es[..i], es[i..j]);
    assert es[i..] == es[i..j] + es[j..];
    LinesConcat(es[i..j], es[j..]);
  }

  /** One step of the patch, on named parts: hidden lines are copied, shown ones replaced. */
  lemma ApplyStep(before: seq<string>, hidden: seq<string>, shown: seq<string>, after: seq<string>,
                  h: Hunk, more: seq<Hunk>, emitted: nat, rest: seq<string>)
    requires shown == OldLines(h.edits)
    requires h.startOld == 1 + |before| + |hidden| && h.countOld == |shown|
    requires h.startNew == 1 + emitted + |hidden| && h.countNew == |NewLines(h.edits)|
    requires ApplyFrom(before + hidden + shown + after, more, |before| + |hidden| + |shown|,
        emitted + |hidden| + h.countNew) == Some(rest)
    ensures ApplyFrom(before + hidden + shown + after, [h] + more, |before|, emitted)
        == Some(hidden + NewLines(h.edits) + rest)
  {
    var a := before + hidden + shown + after;
    assert ([h] + more)[1..] == more;
    assert a[|before|..|before| + |hidden|] == hidden;
    assert a[|before| + |hidden|..|before| + |hidden| + |shown|] == shown;
  }

  /** Every change from position p on lies in one of the windows. */
  ghost predicate ChangesCovered(es: seq<Edit>, ws: seq<Window>, p: nat) {
    forall c :: p <= c < |es| && !es[c].op.Equal? ==> Covered(ws, c)
  }

  lemma WindowStep(es: seq<Edit>, p: nat, w: Window, more: seq<Hunk>)
    requires p <= w.lo <= w.hi <= |es| && Unchanged(es[p..w.lo])
    requires |OldLines(es[..w.hi])| <= |OldLines(es)|
    requires ApplyFrom(OldLines(es), more, |OldLines(es[..w.hi])|, |NewLines(es[..w.hi])|) == Some(NewLines(es[w.hi..]))
    ensures |OldLines(es[..p])| <= |OldLines(es)|
    ensures ApplyFrom(OldLines(es), [HunkOf(es, w)] + more, |OldLines(es[..p])|, |NewLines(es[..p])|)
        == Some(NewLines(es[p..]))
  {
    hide OldLines, NewLines, ApplyFrom, Unchanged;
    var before, hidden, shown, after := OldLines(es[..p]), OldLines(es[p..w.lo]), OldLines(es[w.lo..w.hi]),
        OldLines(es[w.hi..]);
    HiddenEdits(es[p..w.lo]);
    SplitPrefix(es, p, w.lo);
    SplitPrefix(es, w.lo, w.hi);
    SplitAt(es, w.hi);
    assert OldLines(es) == before + hidden + shown + after;
    ApplyStep(before, hidden, shown, after, HunkOf(es, w), more, |NewLines(es[..p])|, NewLines(es[w.hi..]));
    assert NewLines(es[p..]) == hidden + NewLines(es[w.lo..w.hi]) + NewLines(es[w.hi..]);
  }

  lemma NoWindows(es: seq<Edit>, p: nat)
    requires p <= |es| && ChangesCovered(es, [], p)
    ensures |OldLines(es[..p])| <= |OldLines(es)|
    ensures OldLines(es)[|OldLines(es[..p])|..] == NewLines(es[p..])
  {
    SplitAt(es, p);
    forall k | 0 <= k < |es| - p ensures es[p..][k].op.Equal? {
      assert !Covered([], p + k);
    }
    HiddenEdits(es[p..]);
  }

  /** After the part before p has been patched, the remaining windows patch the rest. */
  lemma {:induction false} WindowsPatch(es: seq<Edit>, ws: seq<Window>, hunks: seq<Hunk>, p: nat)
    requires Separated(ws) && HunksFor(es, ws, hunks) && p <= |es|
    requires ws != [] ==> p <= ws[0].lo
    requires ChangesCovered(es, ws, p)
    ensures |OldLines(es[..p])| <= |OldLines(es)|
    ensures ApplyFrom(OldLines(es), hunks, |OldLines(es[..p])|, |NewLines(es[..p])|) == Some(NewLines(es[p..]))
    decreases |ws|
  {
    hide OldLines, NewLines;
    if ws == [] {
      NoWindows(es, p);
    } else {
      var w := ws[0];
      assert hunks[0] == HunkOf(es, w);
      RestCovered(es, ws);
      WindowsPatch(es, ws[1..], hunks[1..], w.hi);
      HiddenPrefix(es, ws, p);
      WindowStep(es, p, w, hunks[1..]);
      assert [hunks[0]] + hunks[1..] == hunks;
    }
  }

  lemma RestCovered(es: seq<Edit>, ws: seq<Window>)
    requires Separated(ws) && ws != [] && ChangesCovered(es, ws, ws[0].lo)
    ensures ChangesCovered(es, ws[1..], ws[0].hi)
  {
    forall c | ws[0].hi <= c < |es| && !es[c].op.Equal? ensures Covered(ws[1..], c) {
      var n :| 0 <= n < |ws| && ws[n].lo <= c < ws[n].hi;
      assert ws[1..][n - 1] == ws[n];
    }
  }

  lemma HiddenPrefix(es: seq<Edit>, ws: seq<Window>, p: nat)
    requires Separated(ws) && ws != [] && p <= ws[0].lo <= |es| && ChangesCovered(es, ws, p)
    ensures Unchanged(es[p..ws[0].lo])
  {
    forall k | 0 <= k < ws[0].lo - p ensures es[p..ws[0].lo][k].op.Equal? {
      assert !Covered(ws, p + k);
    }
  }

  /** Main result: whatever the script, its hunks patch the old lines into the new ones. */
  lemma HunksPatch(es: seq<Edit>, ws: seq<Window>, hunks: seq<Hunk>)
    requires ShowsChanges(es, ws) && HunksFor(es, ws, hunks)
    ensures Apply(OldLines(es), hunks) == Some(NewLines(es))
  {
    forall c | 0 <= c < |es| && !es[c].op.Equal? ensures Covered(ws, c) {
      assert NearChange(es, 0, |es|, c);
    }
    WindowsPatch(es, ws, hunks, 0);
    assert es[..0] == [] && es[0..] == es;
  }

  // ----- reading the same hunks backwards -----

  function FlipEdit(e: Edit): Edit {
    Edit(match e.op { case Equal => Equal case Delete => Insert case Insert => Delete }, e.line)
  }

  function FlipEdits(es: seq<Edit>): (r: seq<Edit>)
    ensures |r| == |es| && forall k :: 0 <= k < |es| ==> r[k] == FlipEdit(es[k])
  {
    seq(|es|, k requires 0 <= k < |es| => FlipEdit(es[k]))
  }

  function FlipHunk(h: Hunk): Hunk {
    Hunk(h.startNew, h.countNew, h.startOld, h.countOld, FlipEdits(h.edits))
  }

  function FlipHunks(hunks: seq<Hunk>): (r: seq<Hunk>)
    ensures |r| == |hunks| && forall k :: 0 <= k < |hunks| ==> r[k] == FlipHunk(hunks[k])
  {
    seq(|hunks|, k requires 0 <= k < |hunks| => FlipHunk(hunks[k]))
  }

  lemma {:induction false} FlipSwapsSides(es: seq<Edit>)
    ensures OldLines(FlipEdits(es)) == NewLines(es) && NewLines(FlipEdits(es)) == OldLines(es)
  {
    if es != [] {
      FlipSwapsSides(es[..|es| - 1]);
      assert FlipEdits(es)[..|es| - 1] == FlipEdits(es[..|es| - 1]);
    }
  }

  lemma FlipOne(es: seq<Edit>, w: Window)
    requires w.lo <= w.hi <= |es|
    ensures HunkOf(FlipEdits(es), w) == FlipHunk(HunkOf(es, w))
  {
    assert FlipEdits(es)[..w.lo] == FlipEdits(es[..w.lo]);
    assert FlipEdits(es)[w.lo..w.hi] == FlipEdits(es[w.lo..w.hi]);
    FlipSwapsSides(es[..w.lo]);
    FlipSwapsSides(es[w.lo..w.hi]);
  }

  lemma FlipNear(es: seq<Edit>, k: int)
    ensures NearChange(FlipEdits(es), 0, |es|, k) <==> NearChange(es, 0, |es|, k)
  {
    if NearChange(es, 0, |es|, k) {
      var c :| 0 <= c < |es| && !es[c].op.Equal? && c - CONTEXT <= k <= c + CONTEXT;
      assert !FlipEdits(es)[c].op.Equal?;
    }
  }

  /** The reverse patch: the flipped hunks turn the new lines back into the old ones. */
  lemma HunksPatchBack(es: seq<Edit>, ws: seq<Window>, hunks: seq<Hunk>)
    requires ShowsChanges(es, ws) && HunksFor(es, ws, hunks)
    ensures Apply(NewLines(es), FlipHunks(hunks)) == Some(OldLines(es))
  {
    var flipped := FlipEdits(es);
    forall k | 0 <= k < |es| ensures Covered(ws, k) <==> NearChange(flipped, 0, |es|, k) {
      FlipNear(es, k);
    }
    forall n | 0 <= n < |ws| ensures FlipHunks(hunks)[n] == HunkOf(flipped, ws[n]) {
      FlipOne(es, ws[n]);
    }
    HunksPatch(flipped, ws, FlipHunks(hunks));
    FlipSwapsSides(es);
  }

  // ----- the windows are determined -----

  lemma CoverageStart(ws: seq<Window>, vs: seq<Window>, limit: nat)
    requires Separated(ws) && Separated(vs) && ws != [] && ws[0].lo < limit
    requires forall k {:trigger Covered(vs, k)} :: 0 <= k < limit ==> (Covered(ws, k) <==> Covered(vs, k))
    ensures vs != [] && vs[0].lo <= ws[0].lo
  {
    assert Covered(ws, ws[0].lo) && Covered(vs, ws[0].lo);
    var n :| 0 <= n < |vs| && vs[n].lo <= ws[0].lo < vs[n].hi;
  }

  lemma CoverageEnd(ws: seq<Window>, vs: seq<Window>, limit: nat)
    requires Separated(ws) && Separated(vs) && ws != [] && vs != [] && ws[0].lo == vs[0].lo
    requires ws[0].hi <= limit && vs[0].hi <= limit
    requires forall k {:trigger Covered(vs, k)} :: 0 <= k < limit ==> (Covered(ws, k) <==> Covered(vs, k))
    ensures vs[0].hi <= ws[0].hi
  {
    if ws[0].hi < vs[0].hi {
      assert Covered(vs, ws[0].hi);
    }
  }

  lemma CoveredTail(ws: seq<Window>, k: int)
    requires Separated(ws) && ws != []
    ensures Covered(ws[1..], k) <==> Covered(ws, k) && !(ws[0].lo <= k < ws[0].hi)
  {
    if Covered(ws, k) {
      var n :| 0 <= n < |ws| && ws[n].lo <= k < ws[n].hi;
      if n > 0 { assert ws[1..][n - 1] == ws[n]; }
    }
  }

  lemma {:induction false} SameCoverage(ws: seq<Window>, vs: seq<Window>, limit: nat)
    requires Separated(ws) && Separated(vs)
    requires forall n :: 0 <= n < |ws| ==> ws[n].hi <= limit
    requires forall n :: 0 <= n < |vs| ==> vs[n].hi <= limit
    requires forall k {:trigger Covered(vs, k)} :: 0 <= k < limit ==> (Covered(ws, k) <==> Covered(vs, k))
    ensures ws == vs
    decreases |ws|
  {
    if ws == [] {
      if vs != [] { assert Covered(vs, vs[0].lo); }
    } else {
      CoverageStart(ws, vs, limit);
      CoverageStart(vs, ws, limit);
      CoverageEnd(ws, vs, limit);
      CoverageEnd(vs, ws, limit);
      forall k | 0 <= k < limit ensures Covered(ws[1..], k) <==> Covered(vs[1..], k) {
        CoveredTail(ws, k);
        CoveredTail(vs, k);
      }
      SameCoverage(ws[1..], vs[1..], limit);
    }
  }

  /** Showing what lies near a change, with a gap between any two windows,
      leaves no choice: a script has exactly one list of hunks. */
  lemma HunksAreDetermined(es: seq<Edit>, ws: seq<Window>, hunks: seq<Hunk>, vs: seq<Window>, others: seq<Hunk>)
    requires ShowsChanges(es, ws) && HunksFor(es, ws, hunks)
    requires ShowsChanges(es, vs) && HunksFor(es, vs, others)
    ensures hunks == others
  {
    SameCoverage(ws, vs, |es|);
  }
}
