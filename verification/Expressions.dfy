/** Where an expression ends, told from what its text is made of. */
module Expressions {
  import opened Basics
  import opened Atoms
  import S = Stash

  /** One step of the scan inside quotes. */
  lemma QuotedStep(s: string, j: nat, double: bool, depth: nat)
    requires depth > 0 && j <= |s|
    ensures S.CloseFrom(s, j, depth, !double, double) ==
      if j == |s| then None
      else if s[j] == '\\' && j + 1 < |s| then S.CloseFrom(s, j + 2, depth, !double, double)
      else if s[j] == Quote(double) then S.CloseFrom(s, j + 1, depth, false, false)
      else S.CloseFrom(s, j + 1, depth, !double, double)
  {
  }

  /** Inside quotes the scan goes on to the quote that ends them. */
  lemma {:induction false} OverLetters(s: string, i: nat, double: bool, body: seq<Letter>, depth: nat)
    requires depth > 0 && ProperBody(double, body) && Reads(s, i, Letters(body))
    ensures S.CloseFrom(s, i, depth, !double, double) == S.CloseFrom(s, i + |Letters(body)|, depth, !double, double)
    decreases |body|
  {
    hide S.CloseFrom;
    if body != [] {
      QuotedStep(s, i, double, depth);
      var l := body[0];
      var x := if l.Bare? then [l.c] else ['\\', l.c];
      assert l in body;
      ReadsBoth(s, i, x, Letters(body[1..]));
      assert s[i..i + |x|][0] == s[i];
      if l.Escaped? { assert i + 1 < |s|; }
      OverLetters(s, i + |x|, double, body[1..], depth);
    }
  }

  lemma OverQuoted(s: string, i: nat, double: bool, body: seq<Letter>, depth: nat)
    requires depth > 0 && ProperBody(double, body) && Reads(s, i, WrittenOne(Quoted(double, body), '{', '}'))
    ensures S.CloseFrom(s, i, depth, false, false) == S.CloseFrom(s, i + |Letters(body)| + 2, depth, false, false)
  {
    hide Letters, Reads, ProperBody;
    var q := [Quote(double)];
    ReadsBoth(s, i, q + Letters(body), q);
    ReadsBoth(s, i, q, Letters(body));
    ReadsChar(s, i, Quote(double));
    ReadsChar(s, i + 1 + |Letters(body)|, Quote(double));
    OverLetters(s, i + 1, double, body, depth);
  }

  lemma {:induction false} OverAtom(s: string, i: nat, a: Atom, depth: nat)
    requires depth > 0 && ProperOne(a, '{', '}') && Reads(s, i, WrittenOne(a, '{', '}'))
    ensures S.CloseFrom(s, i, depth, false, false) ==
            S.CloseFrom(s, i + |WrittenOne(a, '{', '}')|, depth, false, false)
    decreases a, 0
  {
    hide Reads, Written, Letters;
    match a {
      case Single(l) =>
        LetterWritten(l);
        ReadsChar(s, i, if l.Bare? then l.c else '\\');
        ReadsBoth(s, i, [Letters([l])[0]], Letters([l])[1..]);
        assert [Letters([l])[0]] + Letters([l])[1..] == Letters([l]);
      case Quoted(double, body) => OverQuoted(s, i, double, body, depth);
      case Group(inside) =>
        var w := Written(inside, '{', '}');
        ReadsBoth(s, i, "{" + w, "}");
        ReadsBoth(s, i, "{", w);
        ReadsChar(s, i, '{');
        ReadsChar(s, i + 1 + |w|, '}');
        OverAtoms(s, i + 1, inside, depth + 1);
    }
  }

  /** The scan goes over atoms without a change of its state. */
  lemma {:induction false} OverAtoms(s: string, i: nat, atoms: seq<Atom>, depth: nat)
    requires depth > 0 && Proper(atoms, '{', '}') && Reads(s, i, Written(atoms, '{', '}'))
    ensures S.CloseFrom(s, i, depth, false, false) ==
            S.CloseFrom(s, i + |Written(atoms, '{', '}')|, depth, false, false)
    decreases atoms, 1
  {
    if atoms != [] {
      assert atoms[0] in atoms;
      var x := WrittenOne(atoms[0], '{', '}');
      ReadsBoth(s, i, x, Written(atoms[1..], '{', '}'));
      OverAtom(s, i, atoms[0], depth);
      OverAtoms(s, i + |x|, atoms[1..], depth);
    }
  }

  // ----- what closes is written in atoms -----

  /** The letters up to the quote that ends them, and where the scan goes on. */
  lemma {:induction false} UpToQuote(s: string, j: nat, double: bool, depth: nat, end: nat)
      returns (body: seq<Letter>, k: nat)
    requires depth > 0 && j <= |s| && S.CloseFrom(s, j, depth, !double, double) == Some(end)
    ensures ProperBody(double, body) && j < k <= end && Reads(s, j, Letters(body) + [Quote(double)])
    ensures k == j + |Letters(body)| + 1 && S.CloseFrom(s, k, depth, false, false) == Some(end)
    decreases |s| - j
  {
    hide S.CloseFrom, Reads, Letters;
    QuotedStep(s, j, double, depth);
    if s[j] == '\\' && j + 1 < |s| {
      body, k := UpToQuote(s, j + 2, double, depth, end);
      LetterReads(s, j, Escaped(s[j + 1]));
      LetterInFront(s, j, Escaped(s[j + 1]), body, [Quote(double)]);
      body := [Escaped(s[j + 1])] + body;
    } else if s[j] == Quote(double) {
      body, k := [], j + 1;
      ReadsChar(s, j, s[j]);
      assert Letters([]) + [Quote(double)] == [s[j]] by { NoLetters(s[j]); }
    } else {
      body, k := UpToQuote(s, j + 1, double, depth, end);
      LetterReads(s, j, Bare(s[j]));
      LetterInFront(s, j, Bare(s[j]), body, [Quote(double)]);
      body := [Bare(s[j])] + body;
    }
  }

  lemma NoLetters(c: char)
    ensures Letters([]) + [c] == [c]
  {
  }

  lemma LetterReads(s: string, j: nat, l: Letter)
    requires j < |s| && (if l.Bare? then s[j] == l.c else j + 1 < |s| && s[j] == '\\' && s[j + 1] == l.c)
    ensures Reads(s, j, Letters([l])) && |Letters([l])| == if l.Bare? then 1 else 2
  {
    LetterWritten(l);
  }

  lemma LetterInFront(s: string, j: nat, l: Letter, body: seq<Letter>, rest: string)
    requires Reads(s, j, Letters([l])) && Reads(s, j + |Letters([l])|, Letters(body) + rest)
    ensures |Letters([l])| == if l.Bare? then 1 else 2
    ensures Reads(s, j, Letters([l] + body) + rest)
    ensures |Letters([l] + body)| == |Letters([l])| + |Letters(body)|
  {
    LetterWritten(l);
    ReadsBoth(s, j, Letters([l]), Letters(body) + rest);
    assert ([l] + body)[1..] == body;
    assert Letters([l]) + (Letters(body) + rest) == Letters([l] + body) + rest;
  }

  /** Layer after layer, each ended by a brace. */
  function Layered(layers: seq<seq<Atom>>): string {
    if layers == [] then "" else Written(layers[0], '{', '}') + ("}" + Layered(layers[1..]))
  }

  predicate AllProper(layers: seq<seq<Atom>>) {
    forall layer :: layer in layers ==> Proper(layer, '{', '}')
  }

  /** The layers spell s from j to the end. */
  predicate Spelt(s: string, j: nat, layers: seq<seq<Atom>>, depth: nat, end: nat) {
    && |layers| == depth && AllProper(layers)
    && Reads(s, j, Layered(layers)) && end == j + |Layered(layers)|
  }

  lemma AtomInFront(s: string, j: nat, a: Atom, layers: seq<seq<Atom>>, depth: nat, end: nat)
    requires depth > 0 && ProperOne(a, '{', '}') && Reads(s, j, WrittenOne(a, '{', '}'))
    requires Spelt(s, j + |WrittenOne(a, '{', '}')|, layers, depth, end)
    ensures Spelt(s, j, [[a] + layers[0]] + layers[1..], depth, end)
  {
    hide Reads, WrittenOne, ProperOne;
    var first := [a] + layers[0];
    var more := [first] + layers[1..];
    assert first[1..] == layers[0] && more[1..] == layers[1..];
    var x, w, rest := WrittenOne(a, '{', '}'), Written(layers[0], '{', '}'), "}" + Layered(layers[1..]);
    assert Written(first, '{', '}') == x + w;
    assert x + (w + rest) == (x + w) + rest;
    ReadsBoth(s, j, x, w + rest);
    assert layers[0] in layers;
    forall layer | layer in more ensures Proper(layer, '{', '}') {
      if layer != first { assert layer in layers; }
    }
  }

  lemma GroupInFront(s: string, j: nat, layers: seq<seq<Atom>>, depth: nat, end: nat)
    requires depth > 0 && j < |s| && s[j] == '{' && Spelt(s, j + 1, layers, depth + 1, end)
    ensures Spelt(s, j, [[Group(layers[0])] + layers[1]] + layers[2..], depth, end)
  {
    hide Reads, AllProper;
    var w, below := Written(layers[0], '{', '}'), layers[1..];
    ReadsBoth(s, j + 1, w, "}" + Layered(below));
    ReadsBoth(s, j + 1 + |w|, "}", Layered(below));
    ReadsBoth(s, j + 1, w, "}");
    ReadsChar(s, j, '{');
    ReadsBoth(s, j, "{", w + "}");
    assert "{" + (w + "}") == WrittenOne(Group(layers[0]), '{', '}');
    assert ProperOne(Group(layers[0]), '{', '}') && AllProper(below) by { ProperLayers(layers); }
    assert below[0] == layers[1] && below[1..] == layers[2..];
    AtomInFront(s, j, Group(layers[0]), below, depth, end);
  }

  lemma ProperLayers(layers: seq<seq<Atom>>)
    requires layers != [] && AllProper(layers)
    ensures Proper(layers[0], '{', '}') && AllProper(layers[1..])
  {
  }

  lemma BraceInFront(s: string, j: nat, layers: seq<seq<Atom>>, depth: nat, end: nat)
    requires j < |s| && s[j] == '}' && Spelt(s, j + 1, layers, depth, end)
    ensures Spelt(s, j, [[]] + layers, depth + 1, end)
  {
    hide Reads;
    assert ([[]] + layers)[1..] == layers;
    ReadsChar(s, j, '}');
    ReadsBoth(s, j, "}", Layered(layers));
    assert "" + ("}" + Layered(layers)) == "}" + Layered(layers);
  }

  lemma NoLayers(s: string, end: nat) returns (layers: seq<seq<Atom>>)
    requires end <= |s|
    ensures Spelt(s, end, layers, 0, end)
  {
    layers := [];
    assert s[end..end] == "";
  }

  lemma LetterBefore(s: string, j: nat, l: Letter, below: seq<seq<Atom>>, depth: nat, end: nat)
      returns (layers: seq<seq<Atom>>)
    requires depth > 0 && j < |s| && (l.Bare? ==> s[j] == l.c && l.c !in {'\\', '\'', '"', '{', '}'})
    requires l.Escaped? ==> j + 1 < |s| && s[j] == '\\' && s[j + 1] == l.c
    requires Spelt(s, j + if l.Bare? then 1 else 2, below, depth, end)
    ensures Spelt(s, j, layers, depth, end)
  {
    LetterReads(s, j, l);
    AtomInFront(s, j, Single(l), below, depth, end);
    layers := [[Single(l)] + below[0]] + below[1..];
  }

  lemma QuotedBefore(s: string, j: nat, double: bool, body: seq<Letter>, below: seq<seq<Atom>>, depth: nat, end: nat)
      returns (layers: seq<seq<Atom>>)
    requires depth > 0 && j < |s| && s[j] == Quote(double) && ProperBody(double, body)
    requires Reads(s, j + 1, Letters(body) + [Quote(double)])
    requires Spelt(s, j + |Letters(body)| + 2, below, depth, end)
    ensures Spelt(s, j, layers, depth, end)
  {
    hide Reads, ProperBody;
    var q := [Quote(double)];
    ReadsChar(s, j, Quote(double));
    ReadsBoth(s, j, q, Letters(body) + q);
    assert q + (Letters(body) + q) == WrittenOne(Quoted(double, body), '{', '}');
    AtomInFront(s, j, Quoted(double, body), below, depth, end);
    layers := [[Quoted(double, body)] + below[0]] + below[1..];
  }

  lemma GroupBefore(s: string, j: nat, below: seq<seq<Atom>>, depth: nat, end: nat) returns (layers: seq<seq<Atom>>)
    requires depth > 0 && j < |s| && s[j] == '{' && Spelt(s, j + 1, below, depth + 1, end)
    ensures Spelt(s, j, layers, depth, end)
  {
    GroupInFront(s, j, below, depth, end);
    layers := [[Group(below[0])] + below[1]] + below[2..];
  }

  lemma {:induction false} ClosedIsSpelt(s: string, j: nat, depth: nat, end: nat) returns (layers: seq<seq<Atom>>)
    requires depth > 0 && j <= |s| && S.CloseFrom(s, j, depth, false, false) == Some(end)
    ensures Spelt(s, j, layers, depth, end)
    decreases |s| - j
  {
    hide Spelt, Reads;
    if s[j] == '\\' && j + 1 < |s| {
      layers := ClosedIsSpelt(s, j + 2, depth, end);
      layers := LetterBefore(s, j, Escaped(s[j + 1]), layers, depth, end);
    } else if s[j] == '\'' || s[j] == '"' {
      var body, k := UpToQuote(s, j + 1, s[j] == '"', depth, end);
      layers := ClosedIsSpelt(s, k, depth, end);
      layers := QuotedBefore(s, j, s[j] == '"', body, layers, depth, end);
    } else if s[j] == '{' {
      layers := ClosedIsSpelt(s, j + 1, depth + 1, end);
      layers := GroupBefore(s, j, layers, depth, end);
    } else if s[j] == '}' {
      if depth == 1 {
        layers := NoLayers(s, end);
      } else {
        layers := ClosedIsSpelt(s, j + 1, depth - 1, end);
      }
      BraceInFront(s, j, layers, depth - 1, end);
      layers := [[]] + layers;
    } else {
      layers := ClosedIsSpelt(s, j + 1, depth, end);
      layers := LetterBefore(s, j, Bare(s[j]), layers, depth, end);
    }
  }

  /** Main result: an expression that starts at i ends at the first brace before
      which its text is made of letters, quoted texts and braces that match; a
      brace inside quotes or behind a backslash neither opens nor closes. */
  lemma ClosesIff(s: string, i: nat, end: nat)
    requires i < |s| && S.OpensAt(s, i)
    ensures S.ExprAt(s, i) == Some(end) <==>
            exists atoms :: Proper(atoms, '{', '}') && Reads(s, i + 2, Written(atoms, '{', '}') + "}")
                            && end == i + 3 + |Written(atoms, '{', '}')|
  {
    hide Proper, Written;
    if S.ExprAt(s, i) == Some(end) {
      var layers := ClosedIsSpelt(s, i + 2, 1, end);
      assert layers[1..] == [] && layers[0] in layers;
      assert "}" + Layered(layers[1..]) == "}";
      assert Reads(s, i + 2, Written(layers[0], '{', '}') + "}");
    }
    forall atoms | Proper(atoms, '{', '}') && Reads(s, i + 2, Written(atoms, '{', '}') + "}")
      ensures S.ExprAt(s, i) == Some(i + 3 + |Written(atoms, '{', '}')|)
    {
      AtomsClose(s, i, atoms);
    }
  }

  lemma AtomsClose(s: string, i: nat, atoms: seq<Atom>)
    requires S.OpensAt(s, i) && Proper(atoms, '{', '}') && Reads(s, i + 2, Written(atoms, '{', '}') + "}")
    ensures S.ExprAt(s, i) == Some(i + 3 + |Written(atoms, '{', '}')|)
  {
    hide Proper, Reads;
    var w := Written(atoms, '{', '}');
    ReadsBoth(s, i + 2, w, "}");
    ReadsChar(s, i + 2 + |w|, '}');
    OverAtoms(s, i + 2, atoms, 1);
  }
}
