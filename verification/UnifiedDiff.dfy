/** From two texts to hunks: line splitting, the edit script and the grouping together. */
module UnifiedDiff {
  import opened Basics
  import opened LineDiff
  import opened Hunks
  import opened Patch

  /** The pieces of s between newlines; there is always at least one. */
  function Split(s: string): (pieces: seq<string>)
    ensures |pieces| > 0
  {
    if s == "" then [""] else Prepend(s[0], Split(s[1..]))
  }

  function Prepend(c: char, pieces: seq<string>): seq<string>
    requires |pieces| > 0
  {
    if c == '\n' then [""] + pieces else [[c] + pieces[0]] + pieces[1..]
  }

  /** The lines of a text; one empty piece after a final newline is dropped. */
  function SplitLines(s: string): seq<string> {
    if s == "" then []
    else
      var lines := Split(s);
      if Last(lines) == "" then lines[..|lines| - 1] else lines
  }

  function EndsInNewline(s: string): bool {
    |s| > 0 && s[|s| - 1] == '\n'
  }

  /** The text with its last line terminated. */
  function Terminated(s: string): string {
    if s == "" || EndsInNewline(s) then s else s + "\n"
  }

  function Unlines(lines: seq<string>): string {
    if lines == [] then "" else lines[0] + ("\n" + Unlines(lines[1..]))
  }

  lemma UnlinesCons(line: string, rest: seq<string>)
    ensures Unlines([line] + rest) == line + ("\n" + Unlines(rest))
  {
    assert ([line] + rest)[1..] == rest;
  }

  lemma Associative(x: string, y: string, z: string)
    ensures (x + y) + z == x + (y + z)
  {
  }

  lemma UnlinesPrepend(c: char, pieces: seq<string>)
    requires |pieces| > 0
    ensures Unlines(Prepend(c, pieces)) == [c] + Unlines(pieces)
  {
    hide Unlines;
    if c == '\n' {
      UnlinesCons("", pieces);
      assert "" + ("\n" + Unlines(pieces)) == "\n" + Unlines(pieces);
    } else {
      var first, rest := pieces[0], pieces[1..];
      UnlinesCons([c] + first, rest);
      UnlinesCons(first, rest);
      assert [first] + rest == pieces;
      Associative([c], first, "\n" + Unlines(rest));
    }
  }

  lemma {:induction false} UnlinesSplit(s: string)
    ensures Unlines(Split(s)) == s + "\n"
  {
    if s == "" {
      assert Unlines([""]) == "" + "\n" + Unlines([]);
    } else {
      UnlinesSplit(s[1..]);
      UnlinesPrepend(s[0], Split(s[1..]));
      assert [s[0]] + (s[1..] + "\n") == s + "\n";
    }
  }

  function Last(lines: seq<string>): string
    requires lines != []
  {
    lines[|lines| - 1]
  }

  lemma LastAfterPrepend(c: char, pieces: seq<string>)
    requires |pieces| > 0
    ensures Last(Prepend(c, pieces)) == "" <==> Last(pieces) == "" && (|pieces| > 1 || c == '\n')
  {
  }

  lemma {:induction false} OnePiece(s: string)
    requires |Split(s)| == 1
    ensures Split(s) == [s] && !EndsInNewline(s)
  {
    if s != "" {
      OnePiece(s[1..]);
      assert [s[0]] + s[1..] == s;
    }
  }

  lemma {:induction false} LastPiece(s: string)
    ensures Last(Split(s)) == "" <==> s == "" || EndsInNewline(s)
  {
    if s != "" {
      LastPiece(s[1..]);
      LastAfterPrepend(s[0], Split(s[1..]));
      if |Split(s[1..])| == 1 {
        OnePiece(s[1..]);
      }
    }
  }

  lemma {:induction false} UnlinesSnoc(lines: seq<string>, line: string)
    ensures Unlines(lines + [line]) == Unlines(lines) + (line + "\n")
  {
    if lines == [] {
      assert [] + [line] == [line] + [];
      UnlinesCons(line, []);
    } else {
      assert (lines + [line])[1..] == lines[1..] + [line];
      UnlinesSnoc(lines[1..], line);
      assert lines[0] + ("\n" + (Unlines(lines[1..]) + (line + "\n"))) == (lines[0] + ("\n" + Unlines(lines[1..])))
          + (line + "\n");
    }
  }

  /** Joining the lines gives the text back, up to termination of its last line. */
  lemma UnlinesInvertsSplitLines(s: string)
    ensures Unlines(SplitLines(s)) == Terminated(s)
  {
    if s != "" {
      UnlinesSplit(s);
      LastPiece(s);
      var lines := Split(s);
      if Last(lines) == "" {
        var front := lines[..|lines| - 1];
        assert lines == front + [""];
        UnlinesSnoc(front, "");
        assert Unlines(front) == (Unlines(front) + ("" + "\n"))[..|Unlines(front)|] == s;
      }
    }
  }

  lemma {:induction false} SplitSnoc(s: string)
    ensures Split(s + "\n") == Split(s) + [""]
  {
    if s != "" {
      assert (s + "\n")[1..] == s[1..] + "\n";
      SplitSnoc(s[1..]);
    }
  }

  lemma SplitLinesTerminated(s: string)
    ensures SplitLines(Terminated(s)) == SplitLines(s)
  {
    if s != "" && !EndsInNewline(s) {
      SplitSnoc(s);
      LastPiece(s);
    }
  }

  /** Two texts have the same lines exactly when they differ in no more than a
      newline at the very end. */
  lemma SameLinesIff(s: string, t: string)
    ensures SplitLines(s) == SplitLines(t) <==> Terminated(s) == Terminated(t)
  {
    UnlinesInvertsSplitLines(s);
    UnlinesInvertsSplitLines(t);
    SplitLinesTerminated(s);
    SplitLinesTerminated(t);
  }

  /** Main result for the command: no hunks exactly when the texts agree up to a
      final newline; otherwise the hunks patch one text into the other and back. */
  method Diff(a: string, b: string) returns (hunks: seq<Hunk>)
    ensures hunks == [] <==> Terminated(a) == Terminated(b)
    ensures Apply(SplitLines(a), hunks) == Some(SplitLines(b))
    ensures Apply(SplitLines(b), FlipHunks(hunks)) == Some(SplitLines(a))
  {
    var oldLines, newLines := SplitLines(a), SplitLines(b);
    SameLinesIff(a, b);
    var edits := ComputeEdits(oldLines, newLines);
    if |edits| == 0 {
      Untouched(oldLines, newLines);
      return [];
    }
    hunks := BuildHunks(edits);
    ghost var ws :| ShowsChanges(edits, ws) && HunksFor(edits, ws, hunks);
    WholeScript(oldLines, newLines);
    HunksPatch(edits, ws, hunks);
    HunksPatchBack(edits, ws, hunks);
    SomeHunk(oldLines, newLines, edits, ws);
  }

  lemma Untouched(a: seq<string>, b: seq<string>)
    requires |if a == b then [] else Script(a, b, |a|, |b|)| == 0
    ensures a == b && Apply(a, []) == Some(b) && Apply(b, FlipHunks([])) == Some(a)
  {
    WholeScript(a, b);
  }

  lemma SomeHunk(a: seq<string>, b: seq<string>, es: seq<Edit>, ws: seq<Window>)
    requires a != b && es == Script(a, b, |a|, |b|) && ShowsChanges(es, ws)
    ensures ws != []
  {
    UnchangedIffSame(a, b);
    var k :| 0 <= k < |es| && !es[k].op.Equal?;
    assert NearChange(es, 0, |es|, k);
    assert Covered(ws, k);
  }
}
