/** Splitting an expression into pipeline segments at bars outside quotes and parentheses. */
module Pipeline {

  /** Parenthesis depth and open quote; only a scan in the neutral state may split. */
  datatype Lex = Lex(depth: int, inSingle: bool, inDouble: bool)

  const NEUTRAL := Lex(0, false, false)

  function Read(st: Lex, c: char): Lex {
    if c == '\'' && !st.inDouble then st.(inSingle := !st.inSingle)
    else if c == '"' && !st.inSingle then st.(inDouble := !st.inDouble)
    else if c == '(' && !st.inSingle && !st.inDouble then st.(depth := st.depth + 1)
    else if c == ')' && !st.inSingle && !st.inDouble then st.(depth := st.depth - 1)
    else st
  }

  /** The segments of s from i on, the first of which began at start. */
  function SplitFrom(s: string, start: nat, i: nat, st: Lex): (segments: seq<string>)
    requires start <= i <= |s|
    ensures segments != []
    decreases |s| - i
  {
    if i == |s| then [s[start..]]
    else if s[i] == '\\' && i + 1 < |s| then SplitFrom(s, start, i + 2, st)
    else if s[i] == '|' && st == NEUTRAL then [s[start..i]] + SplitFrom(s, i + 1, i + 1, st)
    else SplitFrom(s, start, i + 1, Read(st, s[i]))
  }

  function Split(s: string): seq<string> {
    SplitFrom(s, 0, 0, NEUTRAL)
  }

  method SplitPipeline(expr: string) returns (segments: seq<string>)
    ensures segments == Split(expr)
  {
    segments := [];
    var depth, inSingle, inDouble, start := 0, false, false, 0;
    var i := 0;
    while i < |expr|
      invariant 0 <= start <= i <= |expr|
      invariant Split(expr) == segments + SplitFrom(expr, start, i, Lex(depth, inSingle, inDouble))
    {
      var ch := expr[i];
      if ch == '\\' && i + 1 < |expr| {
        i := i + 1;
      } else if ch == '\'' && !inDouble {
        inSingle := !inSingle;
      } else if ch == '"' && !inSingle {
        inDouble := !inDouble;
      } else if ch == '(' && !inSingle && !inDouble {
        depth := depth + 1;
      } else if ch == ')' && !inSingle && !inDouble {
        depth := depth - 1;
      } else if ch == '|' && !inSingle && !inDouble && depth == 0 {
        assert segments + ([expr[start..i]] + SplitFrom(expr, i + 1, i + 1, NEUTRAL)) == segments + [expr[start..i]]
            + SplitFrom(expr, i + 1, i + 1, NEUTRAL);
        segments := segments + [expr[start..i]];
        start := i + 1;
      }
      i := i + 1;
    }
    segments := segments + [expr[start..]];
  }

  function Join(segments: seq<string>): string
    requires segments != []
  {
    if |segments| == 1 then segments[0] else segments[0] + "|" + Join(segments[1..])
  }

  lemma {:induction false} JoinFrom(s: string, start: nat, i: nat, st: Lex)
    requires start <= i <= |s|
    ensures Join(SplitFrom(s, start, i, st)) == s[start..]
    decreases |s| - i
  {
    if i == |s| {
    } else if s[i] == '\\' && i + 1 < |s| {
      JoinFrom(s, start, i + 2, st);
    } else if s[i] == '|' && st == NEUTRAL {
      var rest := SplitFrom(s, i + 1, i + 1, st);
      JoinFrom(s, i + 1, i + 1, st);
      assert ([s[start..i]] + rest)[1..] == rest;
      assert s[start..i] + "|" + s[i + 1..] == s[start..];
    } else {
      JoinFrom(s, start, i + 1, Read(st, s[i]));
    }
  }

  /** Main result: no character is lost, the bars put back give the expression. */
  lemma JoinUndoesSplit(s: string)
    ensures Join(Split(s)) == s
  {
    JoinFrom(s, 0, 0, NEUTRAL);
    assert s[0..] == s;
  }

  /** Scanned from i on, s has no bar to split at, and leaves the scan neutral
      with no backslash waiting for a character. */
  predicate Whole(s: string, i: nat, st: Lex)
    requires i <= |s|
    decreases |s| - i
  {
    if i == |s| then st == NEUTRAL
    else if s[i] == '\\' then i + 1 < |s| && Whole(s, i + 2, st)
    else !(s[i] == '|' && st == NEUTRAL) && Whole(s, i + 1, Read(st, s[i]))
  }

  /** Scanned from i on, s has no bar to split at; how the scan ends does not matter. */
  predicate Unsplit(s: string, i: nat, st: Lex)
    requires i <= |s|
    decreases |s| - i
  {
    if i == |s| then true
    else if s[i] == '\\' && i + 1 < |s| then Unsplit(s, i + 2, st)
    else !(s[i] == '|' && st == NEUTRAL) && Unsplit(s, i + 1, Read(st, s[i]))
  }

  lemma {:induction false} UnsplitStays(s: string, i: nat, st: Lex)
    requires i <= |s| && Unsplit(s, i, st)
    ensures SplitFrom(s, 0, i, st) == [s]
    decreases |s| - i
  {
    if i < |s| {
      if s[i] == '\\' && i + 1 < |s| { UnsplitStays(s, i + 2, st); } else { UnsplitStays(s, i + 1, Read(st, s[i])); }
    } else {
      assert s[0..] == s;
    }
  }

  /** Where a segment begins makes no difference to the ones after it. */
  lemma {:induction false} ShiftedSplit(p: string, s: string, start: nat, i: nat, st: Lex)
    requires start <= i <= |s|
    ensures SplitFrom(p + s, |p| + start, |p| + i, st) == SplitFrom(s, start, i, st)
    decreases |s| - i
  {
    var t := p + s;
    assert t[|p| + start..] == s[start..];
    if i < |s| {
      assert t[|p| + i] == s[i];
      assert t[|p| + start..|p| + i] == s[start..i];
      if s[i] == '\\' && i + 1 < |s| {
        ShiftedSplit(p, s, start, i + 2, st);
      } else if s[i] == '|' && st == NEUTRAL {
        ShiftedSplit(p, s, i + 1, i + 1, st);
      } else {
        ShiftedSplit(p, s, start, i + 1, Read(st, s[i]));
      }
    }
  }

  lemma {:induction false} WholeThenBar(a: string, b: string, i: nat, st: Lex)
    requires i <= |a| && Whole(a, i, st)
    ensures SplitFrom(a + "|" + b, 0, i, st) == [a] + Split(b)
    decreases |a| - i
  {
    var s := a + "|" + b;
    if i == |a| {
      assert s[i] == '|' && s[..i] == a;
      assert s == (a + "|") + b;
      ShiftedSplit(a + "|", b, 0, 0, NEUTRAL);
    } else {
      assert s[i] == a[i];
      if a[i] == '\\' { WholeThenBar(a, b, i + 2, st); } else { WholeThenBar(a, b, i + 1, Read(st, a[i])); }
    }
  }

  ghost predicate Segments(segments: seq<string>) {
    && segments != []
    && (forall i :: 0 <= i < |segments| - 1 ==> Whole(segments[i], 0, NEUTRAL))
    && Unsplit(segments[|segments| - 1], 0, NEUTRAL)
  }

  /** Main result: segments joined by bars are found again, provided each leaves
      quotes and parentheses as it found them and none has a bar of its own to split at. */
  lemma {:induction false} SplitUndoesJoin(segments: seq<string>)
    requires Segments(segments)
    ensures Split(Join(segments)) == segments
    decreases |segments|
  {
    if |segments| == 1 {
      UnsplitStays(segments[0], 0, NEUTRAL);
    } else {
      var rest := segments[1..];
      assert forall i :: 0 <= i < |rest| - 1 ==> rest[i] == segments[i + 1];
      SplitUndoesJoin(rest);
      WholeThenBar(segments[0], Join(rest), 0, NEUTRAL);
      assert segments == [segments[0]] + rest;
    }
  }

  lemma {:induction false} PiecesAreSegments(s: string, start: nat, i: nat, st: Lex)
    requires start <= i <= |s| && Reaches(s[start..i], 0, NEUTRAL, st)
    ensures Segments(SplitFrom(s, start, i, st))
    decreases |s| - i
  {
    hide Reaches, Whole, Unsplit, Read;
    if i == |s| {
      assert s[start..i] == s[start..];
      ReachedEnd(s[start..], 0, NEUTRAL, st);
    } else if s[i] == '\\' && i + 1 < |s| {
      ReachesOn(s[start..i], s[i..i + 2], 0, NEUTRAL, st);
      assert s[start..i] + s[i..i + 2] == s[start..i + 2];
      PiecesAreSegments(s, start, i + 2, st);
    } else if s[i] == '|' && st == NEUTRAL {
      ReachedWhole(s[start..i], 0, NEUTRAL);
      ReachesNothing(NEUTRAL);
      assert s[i + 1..i + 1] == "";
      PiecesAreSegments(s, i + 1, i + 1, NEUTRAL);
      OneSegmentMore(s[start..i], SplitFrom(s, i + 1, i + 1, st));
    } else if s[i] == '\\' {
      assert SplitFrom(s, start, i, st) == [s[start..]];
      DanglingEnd(s[start..i], 0, NEUTRAL, st);
      assert s[start..i] + "\\" == s[start..];
    } else {
      ReachesOn(s[start..i], s[i..i + 1], 0, NEUTRAL, st);
      assert s[start..i] + s[i..i + 1] == s[start..i + 1];
      PiecesAreSegments(s, start, i + 1, Read(st, s[i]));
    }
  }

  lemma ReachesNothing(st: Lex)
    ensures Reaches("", 0, st, st)
  {
  }

  lemma OneSegmentMore(first: string, rest: seq<string>)
    requires Whole(first, 0, NEUTRAL) && Segments(rest)
    ensures Segments([first] + rest)
  {
    hide Whole, Unsplit;
    var all := [first] + rest;
    assert forall j :: 0 < j < |all| ==> all[j] == rest[j - 1];
  }

  /** Scanning s from i in one state ends in another without splitting or a waiting backslash. */
  predicate Reaches(s: string, i: nat, from: Lex, to: Lex)
    requires i <= |s|
    decreases |s| - i
  {
    if i == |s| then from == to
    else if s[i] == '\\' then i + 1 < |s| && Reaches(s, i + 2, from, to)
    else !(s[i] == '|' && from == NEUTRAL) && Reaches(s, i + 1, Read(from, s[i]), to)
  }

  lemma {:induction false} ReachedWhole(s: string, i: nat, from: Lex)
    requires i <= |s| && Reaches(s, i, from, NEUTRAL)
    ensures Whole(s, i, from)
    decreases |s| - i
  {
    if i < |s| {
      if s[i] == '\\' { ReachedWhole(s, i + 2, from); } else { ReachedWhole(s, i + 1, Read(from, s[i])); }
    }
  }

  lemma {:induction false} ReachedEnd(s: string, i: nat, from: Lex, to: Lex)
    requires i <= |s| && Reaches(s, i, from, to)
    ensures Unsplit(s, i, from)
    decreases |s| - i
  {
    if i < |s| {
      if s[i] == '\\' { ReachedEnd(s, i + 2, from, to); } else { ReachedEnd(s, i + 1, Read(from, s[i]), to); }
    }
  }

  lemma {:induction false} DanglingEnd(s: string, i: nat, from: Lex, to: Lex)
    requires i <= |s| && Reaches(s, i, from, to)
    ensures Unsplit(s + "\\", i, from)
    decreases |s| - i
  {
    var t := s + "\\";
    if i < |s| {
      assert t[i] == s[i];
      if s[i] == '\\' { DanglingEnd(s, i + 2, from, to); } else { DanglingEnd(s, i + 1, Read(from, s[i]), to); }
    } else {
      assert t[i] == '\\';
      assert Unsplit(t, i + 1, Read(from, '\\'));
    }
  }

  /** One more character, or an escaped one, that is no bar to split at. */
  lemma {:induction false} ReachesOn(s: string, more: string, i: nat, from: Lex, to: Lex)
    requires i <= |s| && Reaches(s, i, from, to)
    requires (|more| == 2 && more[0] == '\\') || (|more| == 1 && more[0] != '\\' && !(more[0] == '|' && to == NEUTRAL))
    ensures Reaches(s + more, i, from, if |more| == 2 then to else Read(to, more[0]))
    decreases |s| - i
  {
    var t := s + more;
    if i < |s| {
      assert t[i] == s[i];
      if s[i] == '\\' { ReachesOn(s, more, i + 2, from, to); } else { ReachesOn(s, more, i + 1, Read(from, s[i]), to); }
    } else {
      assert t[i] == more[0];
    }
  }

  /** Main result: what an expression is split into are such segments, so
      splitting and joining are inverse to each other on exactly these lists. */
  lemma SplitGivesSegments(s: string)
    ensures Segments(Split(s))
    ensures forall i :: 0 <= i < |Split(s)| ==> Split(Split(s)[i]) == [Split(s)[i]]
  {
    hide Reaches, Whole, Unsplit;
    assert s[0..0] == "";
    ReachesNothing(NEUTRAL);
    PiecesAreSegments(s, 0, 0, NEUTRAL);
    forall i | 0 <= i < |Split(s)| ensures Split(Split(s)[i]) == [Split(s)[i]] {
      var piece := Split(s)[i];
      if i < |Split(s)| - 1 { WholeIsUnsplit(piece, 0, NEUTRAL); }
      UnsplitStays(piece, 0, NEUTRAL);
    }
  }

  lemma {:induction false} WholeIsUnsplit(s: string, i: nat, st: Lex)
    requires i <= |s| && Whole(s, i, st)
    ensures Unsplit(s, i, st)
    decreases |s| - i
  {
    if i < |s| {
      if s[i] == '\\' { WholeIsUnsplit(s, i + 2, st); } else { WholeIsUnsplit(s, i + 1, Read(st, s[i])); }
    }
  }
}
