/** Where a pipeline is split, told from what its segments are made of. */
module PipelineLaws {
  import opened Atoms
  import opened Pipeline

  /** No bar outside quotes and parentheses. */
  predicate Unbarred(atoms: seq<Atom>) {
    forall a :: a in atoms ==> a != Single(Bare('|'))
  }

  lemma {:induction false} OverLetters(s: string, i: nat, double: bool, body: seq<Letter>, depth: int)
    requires ProperBody(double, body) && Reads(s, i, Letters(body))
    ensures Whole(s, i, Lex(depth, !double, double)) <==>
            Whole(s, i + |Letters(body)|, Lex(depth, !double, double))
    decreases |body|
  {
    if body != [] {
      var l := body[0];
      var x := if l.Bare? then [l.c] else ['\\', l.c];
      assert l in body;
      ReadsBoth(s, i, x, Letters(body[1..]));
      assert s[i..i + |x|][0] == s[i];
      OverLetters(s, i + |x|, double, body[1..], depth);
    }
  }

  lemma OverQuoted(s: string, i: nat, double: bool, body: seq<Letter>, depth: int)
    requires ProperBody(double, body) && Reads(s, i, WrittenOne(Quoted(double, body), '(', ')'))
    ensures Whole(s, i, Lex(depth, false, false)) <==> Whole(s, i + |Letters(body)| + 2, Lex(depth, false, false))
  {
    hide Letters, Reads, ProperBody;
    var q := [Quote(double)];
    ReadsBoth(s, i, q + Letters(body), q);
    ReadsBoth(s, i, q, Letters(body));
    ReadsChar(s, i, Quote(double));
    ReadsChar(s, i + 1 + |Letters(body)|, Quote(double));
    OverLetters(s, i + 1, double, body, depth);
  }

  lemma {:induction false} OverAtom(s: string, i: nat, a: Atom, depth: int)
    requires ProperOne(a, '(', ')') && Reads(s, i, WrittenOne(a, '(', ')'))
    requires depth >= 0 && (depth == 0 ==> a != Single(Bare('|')))
    ensures Whole(s, i, Lex(depth, false, false)) <==>
            Whole(s, i + |WrittenOne(a, '(', ')')|, Lex(depth, false, false))
    decreases a, 0
  {
    hide Reads, Written, Letters;
    match a {
      case Single(l) =>
        LetterWritten(l);
        ReadsChar(s, i, if l.Bare? then l.c else '\\');
        ReadsBoth(s, i, [Letters([l])[0]], Letters([l])[1..]);
        assert [Letters([l])[0]] + Letters([l])[1..] == Letters([l]);
        if l.Escaped? {
          assert Letters([l])[1..] == [l.c];
          ReadsChar(s, i + 1, l.c);
        }
      case Quoted(double, body) => OverQuoted(s, i, double, body, depth);
      case Group(inside) =>
        var w := Written(inside, '(', ')');
        ReadsBoth(s, i, "(" + w, ")");
        ReadsBoth(s, i, "(", w);
        ReadsChar(s, i, '(');
        ReadsChar(s, i + 1 + |w|, ')');
        OverAtoms(s, i + 1, inside, depth + 1);
    }
  }

  /** The scan goes over atoms without a split and without a change of its state. */
  lemma {:induction false} OverAtoms(s: string, i: nat, atoms: seq<Atom>, depth: int)
    requires Proper(atoms, '(', ')') && Reads(s, i, Written(atoms, '(', ')'))
    requires depth >= 0 && (depth == 0 ==> Unbarred(atoms))
    ensures Whole(s, i, Lex(depth, false, false)) <==>
            Whole(s, i + |Written(atoms, '(', ')')|, Lex(depth, false, false))
    decreases atoms, 1
  {
    hide Whole, Reads;
    if atoms != [] {
      assert atoms[0] in atoms;
      assert forall a :: a in atoms[1..] ==> a in atoms;
      var x := WrittenOne(atoms[0], '(', ')');
      ReadsBoth(s, i, x, Written(atoms[1..], '(', ')'));
      OverAtom(s, i, atoms[0], depth);
      OverAtoms(s, i + |x|, atoms[1..], depth);
    }
  }

  lemma {:induction false} WholeIsUnsplit(s: string, i: nat, st: Lex)
    requires i <= |s| && Whole(s, i, st)
    ensures Unsplit(s, i, st)
    decreases |s| - i
  {
    if i < |s| {
      if s[i] == '\\' { WholeIsUnsplit(s, i + 2, st); } else { WholeIsUnsplit(s, i + 1, Read(st, s[i])); }
    }
  }

  function Texts(segments: seq<seq<Atom>>): (texts: seq<string>)
    ensures |texts| == |segments|
  {
    seq(|segments|, i requires 0 <= i < |segments| => Written(segments[i], '(', ')'))
  }

  /** Main result: a pipeline is split at exactly the bars between its segments:
      a bar in quotes, in parentheses or behind a backslash splits nothing. */
  lemma SplitsBetweenSegments(segments: seq<seq<Atom>>)
    requires segments != []
    requires forall segment :: segment in segments ==> Proper(segment, '(', ')') && Unbarred(segment)
    ensures Split(Join(Texts(segments))) == Texts(segments)
  {
    var texts := Texts(segments);
    forall i | 0 <= i < |texts| ensures Whole(texts[i], 0, NEUTRAL) {
      assert segments[i] in segments;
      assert texts[i][0..0 + |texts[i]|] == texts[i];
      OverAtoms(texts[i], 0, segments[i], 0);
    }
    WholeIsUnsplit(texts[|texts| - 1], 0, NEUTRAL);
    SplitUndoesJoin(texts);
  }
}
