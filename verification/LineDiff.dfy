/** The edit script behind `keramos diff`: an LCS table and a backtrack. */
module LineDiff {
  import opened Basics

  datatype Op = Equal | Delete | Insert
  datatype Edit = Edit(op: Op, line: string)

  function OldPart(e: Edit): seq<string> {
    if e.op.Insert? then [] else [e.line]
  }

  function NewPart(e: Edit): seq<string> {
    if e.op.Delete? then [] else [e.line]
  }

  /** The lines a script consumes: its Equal and Delete lines in order. */
  function OldLines(es: seq<Edit>): seq<string> {
    if es == [] then [] else OldLines(es[..|es| - 1]) + OldPart(es[|es| - 1])
  }

  /** The lines a script produces: its Equal and Insert lines in order. */
  function NewLines(es: seq<Edit>): seq<string> {
    if es == [] then [] else NewLines(es[..|es| - 1]) + NewPart(es[|es| - 1])
  }

  function EqualCount(es: seq<Edit>): nat {
    if es == [] then 0 else EqualCount(es[..|es| - 1]) + if es[|es| - 1].op.Equal? then 1 else 0
  }

  function ChangeCount(es: seq<Edit>): nat {
    if es == [] then 0 else ChangeCount(es[..|es| - 1]) + if es[|es| - 1].op.Equal? then 0 else 1
  }

  predicate IsScript(es: seq<Edit>, a: seq<string>, b: seq<string>) {
    OldLines(es) == a && NewLines(es) == b
  }

  lemma {:induction false} LinesConcat(x: seq<Edit>, y: seq<Edit>)
    ensures OldLines(x + y) == OldLines(x) + OldLines(y)
    ensures NewLines(x + y) == NewLines(x) + NewLines(y)
  {
    if y == [] {
      assert x + y == x;
    } else {
      assert (x + y)[..|x + y| - 1] == x + y[..|y| - 1];
      LinesConcat(x, y[..|y| - 1]);
    }
  }

  lemma LinesSnoc(x: seq<Edit>, e: Edit)
    ensures OldLines(x + [e]) == OldLines(x) + OldPart(e)
    ensures NewLines(x + [e]) == NewLines(x) + NewPart(e)
    ensures EqualCount(x + [e]) == EqualCount(x) + if e.op.Equal? then 1 else 0
  {
    assert (x + [e])[..|x|] == x;
  }

  // ----- longest common subsequence -----

  /** What the table cell dp[i][j] stands for. */
  function Lcs(a: seq<string>, b: seq<string>, i: nat, j: nat): nat
    requires i <= |a| && j <= |b|
    decreases i + j
  {
    if i == 0 || j == 0 then 0
    else if a[i - 1] == b[j - 1] then Lcs(a, b, i - 1, j - 1) + 1
    else if Lcs(a, b, i - 1, j) >= Lcs(a, b, i, j - 1) then Lcs(a, b, i - 1, j)
    else Lcs(a, b, i, j - 1)
  }

  /** f picks strictly increasing positions below n. */
  predicate Picks(f: seq<nat>, n: nat) {
    && (forall k :: 0 <= k < |f| ==> f[k] < n)
    && (forall k, l :: 0 <= k < l < |f| ==> f[k] < f[l])
  }

  /** s is read off t at the positions f. */
  ghost predicate ReadsOff(s: seq<string>, t: seq<string>, f: seq<nat>) {
    |f| == |s| && Picks(f, |t|) && forall k :: 0 <= k < |s| ==> t[f[k]] == s[k]
  }

  ghost predicate IsSubsequence(s: seq<string>, t: seq<string>) {
    exists f :: ReadsOff(s, t, f)
  }

  /** The exchange argument: no two matched selections are longer than the table entry. */
  lemma {:induction false} LcsBounds(a: seq<string>, b: seq<string>, i: nat, j: nat, f: seq<nat>, g: seq<nat>)
    requires i <= |a| && j <= |b| && |f| == |g|
    requires Picks(f, i) && Picks(g, j)
    requires forall k :: 0 <= k < |f| ==> a[f[k]] == b[g[k]]
    ensures |f| <= Lcs(a, b, i, j)
    decreases i + j
  {
    if |f| > 0 {
      var n := |f| - 1;
      assert f[n] < i && g[n] < j;
      if a[i - 1] == b[j - 1] {
        LcsBounds(a, b, i - 1, j - 1, f[..n], g[..n]);
      } else if f[n] != i - 1 {
        LcsBounds(a, b, i - 1, j, f, g);
      } else {
        LcsBounds(a, b, i, j - 1, f, g);
      }
    }
  }

  /** The Equal lines of any script are matched selections of both sides. */
  lemma {:induction false} EqualLinesMatch(es: seq<Edit>) returns (f: seq<nat>, g: seq<nat>)
    ensures |f| == |g| == EqualCount(es)
    ensures Picks(f, |OldLines(es)|) && Picks(g, |NewLines(es)|)
    ensures forall k :: 0 <= k < |f| ==> OldLines(es)[f[k]] == NewLines(es)[g[k]]
  {
    f, g := [], [];
    if es != [] {
      var front := es[..|es| - 1];
      f, g := EqualLinesMatch(front);
      if es[|es| - 1].op.Equal? {
        f, g := f + [|OldLines(front)|], g + [|NewLines(front)|];
      }
    }
  }

  lemma {:induction false} LengthsAddUp(es: seq<Edit>)
    ensures |OldLines(es)| + |NewLines(es)| == 2 * EqualCount(es) + ChangeCount(es)
  {
    if es != [] {
      LengthsAddUp(es[..|es| - 1]);
    }
  }

  // ----- the script -----

  /** The step the backtrack takes at cell (i, j). */
  function Choice(a: seq<string>, b: seq<string>, i: nat, j: nat): (op: Op)
    requires i <= |a| && j <= |b| && i + j > 0
    ensures op != Insert ==> i > 0
    ensures op != Delete ==> j > 0
    ensures op == Equal ==> a[i - 1] == b[j - 1]
  {
    if i > 0 && j > 0 && a[i - 1] == b[j - 1] then Equal
    else if j > 0 && (i == 0 || Lcs(a, b, i, j - 1) >= Lcs(a, b, i - 1, j)) then Insert
    else Delete
  }

  function Back(op: Op, stays: Op, i: nat): nat
    requires op == stays || i > 0
  {
    if op == stays then i else i - 1
  }

  /** The script the backtrack reads off the table from cell (i, j). */
  function Script(a: seq<string>, b: seq<string>, i: nat, j: nat): seq<Edit>
    requires i <= |a| && j <= |b|
    decreases i + j
  {
    if i == 0 && j == 0 then []
    else
      var op := Choice(a, b, i, j);
      Script(a, b, Back(op, Insert, i), Back(op, Delete, j)) + [Edit(op, if op.Insert? then b[j - 1] else a[i - 1])]
  }

  lemma ChoiceKeepsLcs(a: seq<string>, b: seq<string>, i: nat, j: nat)
    requires i <= |a| && j <= |b| && i + j > 0
    ensures var op := Choice(a, b, i, j);
            Lcs(a, b, i, j) == Lcs(a, b, Back(op, Insert, i), Back(op, Delete, j)) + if op.Equal? then 1 else 0
  {
  }

  lemma SpellsStep(a: seq<string>, b: seq<string>, i: nat, j: nat, es: seq<Edit>, e: Edit)
    requires i <= |a| && j <= |b| && IsScript(es, a[..i], b[..j])
    requires e.op != Insert ==> i < |a| && a[i] == e.line
    requires e.op != Delete ==> j < |b| && b[j] == e.line
    ensures IsScript(es + [e], a[..if e.op.Insert? then i else i + 1], b[..if e.op.Delete? then j else j + 1])
    ensures EqualCount(es + [e]) == EqualCount(es) + if e.op.Equal? then 1 else 0
  {
    LinesSnoc(es, e);
  }

  lemma {:induction false} ScriptSpells(a: seq<string>, b: seq<string>, i: nat, j: nat)
    requires i <= |a| && j <= |b|
    ensures IsScript(Script(a, b, i, j), a[..i], b[..j])
    ensures EqualCount(Script(a, b, i, j)) == Lcs(a, b, i, j)
    decreases i + j
  {
    if i + j > 0 {
      var op := Choice(a, b, i, j);
      var i', j' := Back(op, Insert, i), Back(op, Delete, j);
      ScriptSpells(a, b, i', j');
      ChoiceKeepsLcs(a, b, i, j);
      var front, e := Script(a, b, i', j'), Edit(op, if op.Insert? then b[j - 1] else a[i - 1]);
      assert Script(a, b, i, j) == front + [e];
      SpellsStep(a, b, i', j', front, e);
    }
  }

  lemma WholeScript(a: seq<string>, b: seq<string>)
    ensures IsScript(Script(a, b, |a|, |b|), a, b)
    ensures EqualCount(Script(a, b, |a|, |b|)) == Lcs(a, b, |a|, |b|)
  {
    ScriptSpells(a, b, |a|, |b|);
    assert a[..|a|] == a && b[..|b|] == b;
  }

  lemma CommonSubsequenceBound(a: seq<string>, b: seq<string>, s: seq<string>)
    requires IsSubsequence(s, a) && IsSubsequence(s, b)
    ensures |s| <= Lcs(a, b, |a|, |b|)
  {
    var f :| ReadsOff(s, a, f);
    var g :| ReadsOff(s, b, g);
    LcsBounds(a, b, |a|, |b|, f, g);
  }

  lemma ScriptBound(a: seq<string>, b: seq<string>, es: seq<Edit>)
    requires IsScript(es, a, b)
    ensures EqualCount(es) <= Lcs(a, b, |a|, |b|)
    ensures exists s :: IsSubsequence(s, a) && IsSubsequence(s, b) && |s| == EqualCount(es)
  {
    var f, g := EqualLinesMatch(es);
    LcsBounds(a, b, |a|, |b|, f, g);
    var s := seq(|f|, k requires 0 <= k < |f| => a[f[k]]);
    assert ReadsOff(s, a, f) && ReadsOff(s, b, g);
  }

  /** Main result: the script turns a into b, keeps as many lines as any common
      subsequence has, and no script from a to b has fewer changes. */
  lemma ScriptIsMinimal(a: seq<string>, b: seq<string>)
    ensures IsScript(Script(a, b, |a|, |b|), a, b)
    ensures forall s :: IsSubsequence(s, a) && IsSubsequence(s, b) ==> |s| <= EqualCount(Script(a, b, |a|, |b|))
    ensures exists s :: IsSubsequence(s, a) && IsSubsequence(s, b) && |s| == EqualCount(Script(a, b, |a|, |b|))
    ensures forall es :: IsScript(es, a, b) ==> ChangeCount(Script(a, b, |a|, |b|)) <= ChangeCount(es)
  {
    var best := Script(a, b, |a|, |b|);
    WholeScript(a, b);
    ScriptBound(a, b, best);
    LengthsAddUp(best);
    forall s | IsSubsequence(s, a) && IsSubsequence(s, b) ensures |s| <= EqualCount(best) {
      CommonSubsequenceBound(a, b, s);
    }
    forall es | IsScript(es, a, b) ensures ChangeCount(best) <= ChangeCount(es) {
      LengthsAddUp(es);
      ScriptBound(a, b, es);
    }
  }

  predicate Unchanged(es: seq<Edit>) {
    forall k :: 0 <= k < |es| ==> es[k].op.Equal?
  }

  lemma {:induction false} NoChangesMeansSame(es: seq<Edit>)
    requires Unchanged(es)
    ensures OldLines(es) == NewLines(es)
  {
    if es != [] {
      NoChangesMeansSame(es[..|es| - 1]);
    }
  }

  lemma {:induction false} SameMeansNoChanges(a: seq<string>, i: nat)
    requires i <= |a|
    ensures Unchanged(Script(a, a, i, i))
  {
    if i > 0 {
      SameMeansNoChanges(a, i - 1);
    }
  }

  /** The script is free of changes exactly when the two sides are equal. */
  lemma UnchangedIffSame(a: seq<string>, b: seq<string>)
    ensures Unchanged(Script(a, b, |a|, |b|)) <==> a == b
  {
    WholeScript(a, b);
    if a == b {
      SameMeansNoChanges(a, |a|);
    }
    if Unchanged(Script(a, b, |a|, |b|)) {
      NoChangesMeansSame(Script(a, b, |a|, |b|));
    }
  }

  lemma LcsGrows(a: seq<string>, b: seq<string>, i: nat, j: nat)
    requires i < |a| && j <= |b|
    ensures Lcs(a, b, i, j) <= Lcs(a, b, i + 1, j)
  {
    ScriptSpells(a, b, i, j);
    var f, g := EqualLinesMatch(Script(a, b, i, j));
    LcsBounds(a, b, i + 1, j, f, g);
  }

  /** The backtrack deletes at (i, j) only where the table drops, so the edit
      in front of that deletion is no insertion. */
  lemma NoInsertBeforeDelete(a: seq<string>, b: seq<string>, i: nat, j: nat)
    requires 0 < i <= |a| && 0 < j <= |b| && Choice(a, b, i, j) == Delete
    ensures Script(a, b, i - 1, j) != [] && !Script(a, b, i - 1, j)[|Script(a, b, i - 1, j)| - 1].op.Insert?
  {
    LcsGrows(a, b, i - 1, j - 1);
    assert Choice(a, b, i - 1, j) != Insert;
  }

  predicate DeletesBeforeInserts(es: seq<Edit>) {
    forall k :: 0 <= k < |es| - 1 ==> !(es[k].op.Insert? && es[k + 1].op.Delete?)
  }

  /** How ties are broken, seen from outside: inside a block of changes every
      deletion comes before every insertion. */
  lemma {:induction false} DeletionsComeFirst(a: seq<string>, b: seq<string>, i: nat, j: nat)
    requires i <= |a| && j <= |b|
    ensures DeletesBeforeInserts(Script(a, b, i, j))
    decreases i + j
  {
    if i + j > 0 {
      var op := Choice(a, b, i, j);
      DeletionsComeFirst(a, b, Back(op, Insert, i), Back(op, Delete, j));
      if op.Delete? {
        if j > 0 { NoInsertBeforeDelete(a, b, i, j); } else { OnlyDeletes(a, b, i - 1); }
      }
    }
  }

  lemma {:induction false} OnlyDeletes(a: seq<string>, b: seq<string>, i: nat)
    requires i <= |a|
    ensures forall k :: 0 <= k < |Script(a, b, i, 0)| ==> Script(a, b, i, 0)[k].op.Delete?
  {
    if i > 0 {
      OnlyDeletes(a, b, i - 1);
    }
  }

  // ----- the method -----

  lemma ScriptStep(a: seq<string>, b: seq<string>, i: nat, j: nat, collected: seq<Edit>)
    requires i <= |a| && j <= |b| && i + j > 0
    ensures var op := Choice(a, b, i, j);
            Script(a, b, i, j) + Reversed(collected) ==
            Script(a, b, Back(op, Insert, i), Back(op, Delete, j)) +
            Reversed(collected + [Edit(op, if op.Insert? then b[j - 1] else a[i - 1])])
  {
    hide Reversed;
    var op := Choice(a, b, i, j);
    var e := Edit(op, if op.Insert? then b[j - 1] else a[i - 1]);
    var rest := Script(a, b, Back(op, Insert, i), Back(op, Delete, j));
    assert Script(a, b, i, j) == rest + [e];
    MovesOver(rest, e, collected);
  }

  lemma MovesOver(rest: seq<Edit>, e: Edit, collected: seq<Edit>)
    ensures rest + [e] + Reversed(collected) == rest + Reversed(collected + [e])
  {
    assert Reversed(collected + [e]) == [e] + Reversed(collected);
  }

  /** The first n rows of the table hold the LCS lengths. */
  ghost predicate RowsFilled(a: seq<string>, b: seq<string>, dp: array2<nat>, n: nat)
    reads dp
  {
    && dp.Length0 == |a| + 1 && dp.Length1 == |b| + 1 && n <= |a| + 1
    && forall x, y {:trigger dp[x, y]} :: 0 <= x < n && 0 <= y <= |b| ==> dp[x, y] == Lcs(a, b, x, y)
  }

  method FillTable(a: seq<string>, b: seq<string>) returns (dp: array2<nat>)
    ensures fresh(dp) && RowsFilled(a, b, dp, |a| + 1)
  {
    dp := new nat[|a| + 1, |b| + 1]((_, _) => 0);
    for i := 1 to |a| + 1
      invariant RowsFilled(a, b, dp, i)
      invariant forall x :: 0 <= x <= |a| ==> dp[x, 0] == 0
    {
      FillRow(a, b, dp, i);
    }
  }

  method FillRow(a: seq<string>, b: seq<string>, dp: array2<nat>, i: nat)
    requires 1 <= i <= |a| && RowsFilled(a, b, dp, i)
    requires dp[i, 0] == 0
    modifies dp
    ensures RowsFilled(a, b, dp, i + 1)
    ensures forall x :: 0 <= x <= |a| ==> dp[x, 0] == old(dp[x, 0])
  {
    for j := 1 to |b| + 1
      invariant RowsFilled(a, b, dp, i)
      invariant forall y {:trigger dp[i, y]} :: 0 <= y < j ==> dp[i, y] == Lcs(a, b, i, y)
      invariant forall x :: 0 <= x <= |a| ==> dp[x, 0] == old(dp[x, 0])
    {
      if a[i - 1] == b[j - 1] {
        dp[i, j] := dp[i - 1, j - 1] + 1;
      } else if dp[i - 1, j] >= dp[i, j - 1] {
        dp[i, j] := dp[i - 1, j];
      } else {
        dp[i, j] := dp[i, j - 1];
      }
    }
  }

  lemma ScriptStart(a: seq<string>, b: seq<string>)
    ensures Script(a, b, |a|, |b|) + Reversed([]) == Script(a, b, |a|, |b|)
    ensures Script(a, b, 0, 0) == []
  {
  }

  /** Walks the table from its last cell to the first, collecting the edits last to first. */
  method Backtrack(a: seq<string>, b: seq<string>, dp: array2<nat>) returns (collected: seq<Edit>)
    requires RowsFilled(a, b, dp, |a| + 1)
    ensures Reversed(collected) == Script(a, b, |a|, |b|)
  {
    hide Script;
    collected := [];
    var i, j := |a|, |b|;
    ScriptStart(a, b);
    while i > 0 || j > 0
      invariant 0 <= i <= |a| && 0 <= j <= |b|
      invariant Script(a, b, |a|, |b|) == Script(a, b, i, j) + Reversed(collected)
      decreases i + j
    {
      ghost var i', j', before := i, j, collected;
      if i > 0 && j > 0 && a[i - 1] == b[j - 1] {
        collected := collected + [Edit(Equal, a[i - 1])];
        i, j := i - 1, j - 1;
      } else if j > 0 && (i == 0 || dp[i, j - 1] >= dp[i - 1, j]) {
        collected := collected + [Edit(Insert, b[j - 1])];
        j := j - 1;
      } else {
        collected := collected + [Edit(Delete, a[i - 1])];
        i := i - 1;
      }
      ScriptStep(a, b, i', j', before);
    }
  }

  /** Reverses the collected edits in place. */
  method ReverseInPlace(es: array<Edit>)
    modifies es
    ensures es[..] == Reversed(old(es[..]))
  {
    var left, right := 0, es.Length - 1;
    while left < right
      invariant 0 <= left && right == es.Length - 1 - left && left <= right + 1
      invariant forall k :: 0 <= k < es.Length ==>
        es[k] == if k < left || right < k then old(es[es.Length - 1 - k]) else old(es[k])
    {
      es[left], es[right] := es[right], es[left];
      left, right := left + 1, right - 1;
    }
  }

  /** Returns no edits at all for equal inputs, otherwise the script. */
  method ComputeEdits(a: seq<string>, b: seq<string>) returns (edits: seq<Edit>)
    ensures edits == if a == b then [] else Script(a, b, |a|, |b|)
  {
    var dp := FillTable(a, b);
    var collected := Backtrack(a, b, dp);
    var buffer := new Edit[|collected|](k requires 0 <= k < |collected| => collected[k]);
    assert buffer[..] == collected;
    ReverseInPlace(buffer);
    edits := buffer[..];

    UnchangedIffSame(a, b);
    var hasChanges := HasChanges(edits);
    if !hasChanges {
      edits := [];
    }
  }

  method HasChanges(edits: seq<Edit>) returns (hasChanges: bool)
    ensures hasChanges <==> !Unchanged(edits)
  {
    hasChanges := false;
    for k := 0 to |edits|
      invariant !hasChanges && Unchanged(edits[..k])
    {
      if !edits[k].op.Equal? {
        hasChanges := true;
        break;
      }
    }
  }
}
