/** Text with quotes, escapes and brackets, as it is written. */
module Atoms {

  datatype Letter = Bare(c: char) | Escaped(c: char)

  /** A letter, a text in quotes, or atoms in brackets. */
  datatype Atom = Single(l: Letter) | Quoted(double: bool, body: seq<Letter>) | Group(inside: seq<Atom>)

  function Quote(double: bool): char {
    if double then '"' else '\''
  }

  function Letters(ls: seq<Letter>): string {
    if ls == [] then "" else (match ls[0] case Bare(c) => [c] case Escaped(c) => ['\\', c]) + Letters(ls[1..])
  }

  function WrittenOne(a: Atom, open: char, close: char): string
    decreases a, 0
  {
    match a
    case Single(l) => Letters([l])
    case Quoted(double, body) => [Quote(double)] + Letters(body) + [Quote(double)]
    case Group(inside) => [open] + Written(inside, open, close) + [close]
  }

  function Written(atoms: seq<Atom>, open: char, close: char): string
    decreases atoms, 1
  {
    if atoms == [] then ""
    else
      assert atoms[0] in atoms;
      WrittenOne(atoms[0], open, close) + Written(atoms[1..], open, close)
  }

  /** Bare letters are neither a backslash nor, outside quotes, a quote or a
      bracket; inside quotes they are not the quote that ends them. */
  predicate Proper(atoms: seq<Atom>, open: char, close: char) {
    forall a :: a in atoms ==> ProperOne(a, open, close)
  }

  predicate ProperOne(a: Atom, open: char, close: char) {
    match a
    case Single(l) => l.Bare? ==> l.c !in {'\\', '\'', '"', open, close}
    case Quoted(double, body) => ProperBody(double, body)
    case Group(inside) => Proper(inside, open, close)
  }

  predicate ProperBody(double: bool, body: seq<Letter>) {
    forall l :: l in body && l.Bare? ==> l.c != '\\' && l.c != Quote(double)
  }

  lemma LetterWritten(l: Letter)
    ensures Letters([l]) == if l.Bare? then [l.c] else ['\\', l.c]
  {
    assert [l][1..] == [];
    assert Letters([l][1..]) == "";
  }

  /** At i, s goes on with x. */
  predicate Reads(s: string, i: nat, x: string) {
    i + |x| <= |s| && s[i..i + |x|] == x
  }

  lemma ReadsBoth(s: string, i: nat, x: string, y: string)
    ensures Reads(s, i, x + y) <==> Reads(s, i, x) && Reads(s, i + |x|, y)
  {
    if i + |x + y| <= |s| {
      var t := s[i..i + |x + y|];
      assert t == s[i..i + |x|] + s[i + |x|..i + |x| + |y|];
      assert t[..|x|] == s[i..i + |x|] && t[|x|..] == s[i + |x|..i + |x| + |y|];
      assert (x + y)[..|x|] == x && (x + y)[|x|..] == y;
    }
  }

  lemma ReadsChar(s: string, i: nat, c: char)
    ensures Reads(s, i, [c]) <==> i < |s| && s[i] == c
  {
    if i < |s| { assert s[i..i + 1] == [s[i]]; }
  }
}
