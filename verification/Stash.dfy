/** Hiding `${...}` expressions from the YAML parser behind tokens and putting
    them back into the parsed strings. */
module Stash {
  import opened Decimal
  import opened Basics
  import opened Trees

  const PREFIX := "__KERAMOS_EXPR_"
  const SUFFIX := "__"
  const TO_STRING := " | toString"

  // ----- where the expressions are -----

  /** The position after the brace that closes the expression, if any does. */
  function CloseFrom(s: string, j: nat, depth: nat, inSingle: bool, inDouble: bool): (end: Option<nat>)
    requires j <= |s| && depth > 0
    ensures end.Some? ==> j < end.value <= |s| && s[end.value - 1] == '}'
    decreases |s| - j
  {
    if j == |s| then None
    else if s[j] == '\\' && j + 1 < |s| then CloseFrom(s, j + 2, depth, inSingle, inDouble)
    else if s[j] == '\'' && !inDouble then CloseFrom(s, j + 1, depth, !inSingle, inDouble)
    else if s[j] == '"' && !inSingle then CloseFrom(s, j + 1, depth, inSingle, !inDouble)
    else if s[j] == '{' && !inSingle && !inDouble then CloseFrom(s, j + 1, depth + 1, inSingle, inDouble)
    else if s[j] == '}' && !inSingle && !inDouble then
      if depth == 1 then Some(j + 1) else CloseFrom(s, j + 1, depth - 1, inSingle, inDouble)
    else CloseFrom(s, j + 1, depth, inSingle, inDouble)
  }

  predicate OpensAt(s: string, i: nat) {
    i + 1 < |s| && s[i] == '$' && s[i + 1] == '{'
  }

  /** The end of the expression starting at i, if one does. */
  function ExprAt(s: string, i: nat): (end: Option<nat>)
    requires i < |s|
    ensures end.Some? ==> OpensAt(s, i) && i + 2 < end.value <= |s| && s[end.value - 1] == '}'
  {
    if OpensAt(s, i) then CloseFrom(s, i + 2, 1, false, false) else None
  }

  datatype Part = Text(c: char) | Expr(start: nat, end: nat)

  /** The content from position i on, cut into expressions and single characters. */
  function Parts(s: string, i: nat): seq<Part>
    requires i <= |s|
    decreases |s| - i
  {
    if i == |s| then []
    else
      match ExprAt(s, i)
      case Some(j) => [Expr(i, j)] + Parts(s, j)
      case None => [Text(s[i])] + Parts(s, i + 1)
  }

  // ----- quoted expressions -----

  /** Going left over blanks, does a scalar start here? */
  predicate ScalarStarts(s: string, n: nat)
    requires n <= |s|
  {
    n > 0 &&
    if s[n - 1] == ' ' || s[n - 1] == '\t' then ScalarStarts(s, n - 1)
    else s[n - 1] in {':', '-', ',', '[', '{'}
  }

  predicate Quoted(s: string, start: nat, end: nat)
    requires start <= end <= |s|
  {
    && 0 < start && end < |s|
    && (s[start - 1] == '"' || s[start - 1] == '\'') && s[end] == s[start - 1]
    && ScalarStarts(s, start - 1)
  }

  lemma {:induction false} ScalarStartsIff(s: string, n: nat)
    requires n <= |s|
    ensures ScalarStarts(s, n) <==>
      exists k: nat :: k < n && s[k] in {':', '-', ',', '[', '{'} && forall j :: k < j < n ==> s[j] in {' ', '\t'}
    decreases n
  {
    if n > 0 && s[n - 1] in {' ', '\t'} { ScalarStartsIff(s, n - 1); }
  }

  /** Same quotes around it, and nothing but blanks back to what starts a scalar. */
  ghost predicate StandsInQuotes(s: string, start: nat, end: nat)
    requires start <= end <= |s|
  {
    && 0 < start && end < |s| && s[start - 1] in {'"', '\''} && s[end] == s[start - 1]
    && exists k: nat ::
         && k < start - 1 && s[k] in {':', '-', ',', '[', '{'}
         && forall j :: k < j < start - 1 ==> s[j] in {' ', '\t'}
  }

  lemma QuotedIff(s: string, start: nat, end: nat)
    requires start <= end <= |s|
    ensures Quoted(s, start, end) <==> StandsInQuotes(s, start, end)
  {
    if start > 0 { ScalarStartsIff(s, start - 1); }
  }

  method ScalarIsQuotedExpression(s: string, start: nat, end: nat) returns (quoted: bool)
    requires start <= end <= |s|
    ensures quoted == Quoted(s, start, end) == StandsInQuotes(s, start, end)
  {
    QuotedIff(s, start, end);
    if 0 >= start || end >= |s| {
      return false;
    }
    var opening := s[start - 1];
    if opening != '"' && opening != '\'' {
      return false;
    }
    if s[end] != opening {
      return false;
    }
    var k := start - 2;
    while k >= 0
      invariant -1 <= k <= start - 2
      invariant ScalarStarts(s, start - 1) == ScalarStarts(s, k + 1)
    {
      if s[k] == ' ' || s[k] == '\t' {
        k := k - 1;
        continue;
      }
      return s[k] in {':', '-', ',', '[', '{'};
    }
    quoted := false;
  }

  function TrimPrefix(s: string, prefix: string): string {
    if prefix <= s then s[|prefix|..] else s
  }

  function TrimSuffix(s: string, suffix: string): string {
    if |suffix| <= |s| && s[|s| - |suffix|..] == suffix then s[..|s| - |suffix|] else s
  }

  predicate Sound(s: string, p: Part) {
    p.Expr? ==> p.start + 2 < p.end <= |s| && OpensAt(s, p.start) && s[p.end - 1] == '}'
  }

  /** What is stored for an expression. */
  function Stored(s: string, start: nat, end: nat): string
    requires Sound(s, Expr(start, end))
  {
    var expr := s[start..end];
    if Quoted(s, start, end) then "${" + TrimSuffix(TrimPrefix(expr, "${"), "}") + " | toString}" else expr
  }

  /** An expression with the conversion inserted before its closing brace. */
  function Converted(expr: string): string
    requires expr != ""
  {
    expr[..|expr| - 1] + TO_STRING + expr[|expr| - 1..]
  }

  /** A part as the author wrote it, but for the inserted conversion of quoted expressions. */
  function PartText(s: string, p: Part): string
    requires Sound(s, p)
  {
    match p
    case Text(c) => [c]
    case Expr(i, j) => if Quoted(s, i, j) then Converted(s[i..j]) else s[i..j]
  }

  lemma StoredInserts(s: string, start: nat, end: nat)
    requires Sound(s, Expr(start, end))
    ensures Stored(s, start, end) == PartText(s, Expr(start, end))
  {
    hide Quoted, TrimPrefix, TrimSuffix, Converted;
    Converting(s[start..end]);
  }

  lemma Converting(expr: string)
    requires |expr| > 2 && expr[0] == '$' && expr[1] == '{' && expr[|expr| - 1] == '}'
    ensures "${" + TrimSuffix(TrimPrefix(expr, "${"), "}") + " | toString}" == Converted(expr)
  {
    hide TrimPrefix, TrimSuffix;
    Trimmed(expr);
    assert expr[|expr| - 1..] == "}";
    assert " | toString}" == TO_STRING + "}";
  }

  lemma Trimmed(expr: string)
    requires |expr| > 2 && expr[0] == '$' && expr[1] == '{' && expr[|expr| - 1] == '}'
    ensures "${" + TrimSuffix(TrimPrefix(expr, "${"), "}") == expr[..|expr| - 1]
  {
    assert "${" <= expr;
    var inner := TrimPrefix(expr, "${");
    assert inner[|inner| - 1..] == "}";
    assert "${" + expr[2..|expr| - 1] == expr[..|expr| - 1];
  }

  // ----- the stashed text -----

  function Token(n: nat): string {
    PREFIX + Numeral(n) + SUFFIX
  }

  function Flat(ss: seq<string>): string {
    if ss == [] then "" else ss[0] + Flat(ss[1..])
  }

  lemma {:induction false} FlatSnoc(ss: seq<string>, t: string)
    ensures Flat(ss + [t]) == Flat(ss) + t
  {
    if ss == [] {
      assert ss + [t] == [t] && [t][1..] == [];
    } else {
      FlatSnoc(ss[1..], t);
      assert (ss + [t])[1..] == ss[1..] + [t];
    }
  }

  datatype Piece = Ch(c: char) | Tok(index: nat)

  function Exprs(s: string, parts: seq<Part>): seq<string>
    requires forall i :: 0 <= i < |parts| ==> Sound(s, parts[i])
  {
    if parts == [] then []
    else
      var last := parts[|parts| - 1];
      Exprs(s, parts[..|parts| - 1]) + if last.Expr? then [Stored(s, last.start, last.end)] else []
  }

  function Pieces(s: string, parts: seq<Part>): (ps: seq<Piece>)
    requires forall i :: 0 <= i < |parts| ==> Sound(s, parts[i])
    ensures |ps| == |parts|
  {
    if parts == [] then []
    else
      var rest := parts[..|parts| - 1];
      Pieces(s, rest) + [match parts[|parts| - 1] case Text(c) => Ch(c) case Expr(_, _) => Tok(|Exprs(s, rest)|)]
  }

  function PieceText(p: Piece): string {
    match p
    case Ch(c) => [c]
    case Tok(n) => Token(n)
  }

  function Rendered(ps: seq<Piece>): string {
    Flat(seq(|ps|, i requires 0 <= i < |ps| => PieceText(ps[i])))
  }

  lemma RenderedSnoc(ps: seq<Piece>, p: Piece)
    ensures Rendered(ps + [p]) == Rendered(ps) + PieceText(p)
  {
    var ss := seq(|ps|, i requires 0 <= i < |ps| => PieceText(ps[i]));
    FlatSnoc(ss, PieceText(p));
    assert seq(|ps| + 1, i requires 0 <= i < |ps| + 1 => PieceText((ps + [p])[i])) == ss + [PieceText(p)];
  }

  lemma RenderedCons(ps: seq<Piece>)
    requires ps != []
    ensures Rendered(ps) == PieceText(ps[0]) + Rendered(ps[1..])
  {
    var ss := seq(|ps|, i requires 0 <= i < |ps| => PieceText(ps[i]));
    assert ss[1..] == seq(|ps| - 1, i requires 0 <= i < |ps| - 1 => PieceText(ps[1..][i]));
  }

  lemma {:induction false} PartsAreSound(s: string, i: nat)
    requires i <= |s|
    ensures forall k :: 0 <= k < |Parts(s, i)| ==> Sound(s, Parts(s, i)[k])
    decreases |s| - i
  {
    if i < |s| {
      match ExprAt(s, i)
      case Some(j) => PartsAreSound(s, j);
      case None => PartsAreSound(s, i + 1);
    }
  }

  ghost function AllPieces(s: string): seq<Piece> {
    PartsAreSound(s, 0);
    Pieces(s, Parts(s, 0))
  }

  ghost function AllExprs(s: string): seq<string> {
    PartsAreSound(s, 0);
    Exprs(s, Parts(s, 0))
  }

  /** The quote-aware scan as coded: the end of the expression, or nothing when none closes. */
  method ScanToClose(s: string, i: nat) returns (end: Option<nat>)
    requires OpensAt(s, i)
    ensures end == ExprAt(s, i)
  {
    var depth, j := 1, i + 2;
    var inSingle, inDouble := false, false;
    while j < |s| && 0 < depth
      invariant i + 2 <= j <= |s| && depth >= 0
      invariant ExprAt(s, i) == if depth > 0 then CloseFrom(s, j, depth, inSingle, inDouble) else Some(j)
      decreases |s| - j
    {
      var ch := s[j];
      if ch == '\\' && j + 1 < |s| {
        j := j + 1;
      } else if ch == '\'' && !inDouble {
        inSingle := !inSingle;
      } else if ch == '"' && !inSingle {
        inDouble := !inDouble;
      } else if ch == '{' && !inSingle && !inDouble {
        depth := depth + 1;
      } else if ch == '}' && !inSingle && !inDouble {
        depth := depth - 1;
      }
      j := j + 1;
    }
    end := if depth == 0 then Some(j) else None;
  }

  ghost predicate Stashing(s: string, done: seq<Part>, i: nat, text: string, exprs: seq<string>) {
    && i <= |s| && done + Parts(s, i) == Parts(s, 0)
    && (forall k :: 0 <= k < |done| ==> Sound(s, done[k]))
    && text == Rendered(Pieces(s, done)) && exprs == Exprs(s, done)
  }

  lemma StashExpr(s: string, done: seq<Part>, i: nat, j: nat, text: string, exprs: seq<string>)
    requires Stashing(s, done, i, text, exprs) && i < |s| && ExprAt(s, i) == Some(j)
    ensures Stashing(s, done + [Expr(i, j)], j, text + Token(|exprs|), exprs + [Stored(s, i, j)])
  {
    hide Quoted, Stored, Token, CloseFrom, Rendered, Parts, QuotedFrom;
    NextPart(s, i);
    var next := done + [Expr(i, j)];
    assert next[..|next| - 1] == done;
    RenderedSnoc(Pieces(s, done), Tok(|exprs|));
    assert Parts(s, i) == [Expr(i, j)] + Parts(s, j);
    assert next + Parts(s, j) == done + ([Expr(i, j)] + Parts(s, j));
  }

  lemma StashChar(s: string, done: seq<Part>, i: nat, text: string, exprs: seq<string>)
    requires Stashing(s, done, i, text, exprs) && i < |s| && ExprAt(s, i).None?
    ensures Stashing(s, done + [Text(s[i])], i + 1, text + [s[i]], exprs)
  {
    var next := done + [Text(s[i])];
    assert next[..|next| - 1] == done;
    RenderedSnoc(Pieces(s, done), Ch(s[i]));
    assert next + Parts(s, i + 1) == done + ([Text(s[i])] + Parts(s, i + 1));
  }

  lemma StashStart(s: string)
    ensures Stashing(s, [], 0, "", [])
  {
  }

  lemma StashEnd(s: string, done: seq<Part>, text: string, exprs: seq<string>)
    requires Stashing(s, done, |s|, text, exprs)
    ensures text == Rendered(AllPieces(s)) && exprs == AllExprs(s)
  {
    assert done == Parts(s, 0);
  }

  method StashExpressions(s: string) returns (text: string, exprs: seq<string>)
    ensures text == Rendered(AllPieces(s)) && exprs == AllExprs(s)
  {
    hide Parts, Rendered, Pieces, Exprs, Stashing, ExprAt;
    text, exprs := "", [];
    ghost var done: seq<Part> := [];
    StashStart(s);
    var i := 0;
    while i < |s|
      invariant 0 <= i <= |s| && Stashing(s, done, i, text, exprs)
    {
      ExprOpens(s, i);
      if OpensAt(s, i) {
        var end := ScanToClose(s, i);
        if end.Some? {
          StashExpr(s, done, i, end.value, text, exprs);
          var stored := s[i..end.value];
          var quoted := ScalarIsQuotedExpression(s, i, end.value);
          if quoted {
            stored := "${" + TrimSuffix(TrimPrefix(stored, "${"), "}") + " | toString}";
          }
          done := done + [Expr(i, end.value)];
          text := text + Token(|exprs|);
          exprs := exprs + [stored];
          i := end.value;
          continue;
        }
      }
      StashChar(s, done, i, text, exprs);
      done := done + [Text(s[i])];
      text := text + [s[i]];
      i := i + 1;
    }
    StashEnd(s, done, text, exprs);
  }

  lemma ExprOpens(s: string, i: nat)
    requires i < |s|
    ensures ExprAt(s, i).Some? ==> Sound(s, Expr(i, ExprAt(s, i).value))
    ensures !OpensAt(s, i) ==> ExprAt(s, i).None?
  {
  }

  // ----- restoring -----

  /** How many digits the string starts with. */
  function LeadingDigits(s: string): (n: nat)
    ensures n <= |s| && forall i :: 0 <= i < n ==> IsDigit(s[i])
    ensures n < |s| ==> !IsDigit(s[n])
  {
    if s == "" || !IsDigit(s[0]) then 0 else 1 + LeadingDigits(s[1..])
  }

  datatype Match = Match(index: nat, length: nat)

  /** The token a string starts with: the prefix, digits, the suffix. */
  function TokenAtStart(s: string): (m: Option<Match>)
    ensures m.Some? ==> 0 < m.value.length <= |s|
  {
    if !(PREFIX <= s) then None
    else
      var n := LeadingDigits(s[|PREFIX|..]);
      var end := |PREFIX| + n;
      if n > 0 && SUFFIX <= s[end..] then Some(Match(Value(s[|PREFIX|..end]), end + |SUFFIX|)) else None
  }

  /** Every token, leftmost first, becomes the expression it numbers; an unknown
      number leaves the token as it is. */
  function Restore(s: string, exprs: seq<string>): string
    decreases |s|
  {
    if s == "" then ""
    else
      match TokenAtStart(s)
      case Some(m) => (if m.index < |exprs| then exprs[m.index] else s[..m.length]) + Restore(s[m.length..], exprs)
      case None => [s[0]] + Restore(s[1..], exprs)
  }

  function PieceFilled(p: Piece, exprs: seq<string>): string
    requires p.Tok? ==> p.index < |exprs|
  {
    match p
    case Ch(c) => [c]
    case Tok(n) => exprs[n]
  }

  predicate Numbered(ps: seq<Piece>, exprs: seq<string>) {
    forall i :: 0 <= i < |ps| && ps[i].Tok? ==> ps[i].index < |exprs|
  }

  function Filled(ps: seq<Piece>, exprs: seq<string>): string
    requires Numbered(ps, exprs)
  {
    Flat(seq(|ps|, i requires 0 <= i < |ps| => PieceFilled(ps[i], exprs)))
  }

  lemma FilledCons(ps: seq<Piece>, exprs: seq<string>)
    requires ps != [] && Numbered(ps, exprs)
    ensures Filled(ps, exprs) == PieceFilled(ps[0], exprs) + Filled(ps[1..], exprs)
  {
    var ss := seq(|ps|, i requires 0 <= i < |ps| => PieceFilled(ps[i], exprs));
    assert ss[1..] == seq(|ps| - 1, i requires 0 <= i < |ps| - 1 => PieceFilled(ps[1..][i], exprs));
  }

  /** The pieces from i on start with the characters of the token prefix. */
  predicate SpellsPrefix(ps: seq<Piece>, i: nat) {
    i + |PREFIX| <= |ps| && forall j :: 0 <= j < |PREFIX| ==> ps[i + j] == Ch(PREFIX[j])
  }

  predicate PrefixFree(ps: seq<Piece>) {
    forall i :: 0 <= i < |ps| ==> !SpellsPrefix(ps, i)
  }

  lemma SpellsInSlice(ps: seq<Piece>, lo: nat, hi: nat, i: nat)
    requires lo <= hi <= |ps|
    ensures SpellsPrefix(ps[lo..hi], i) ==> SpellsPrefix(ps, lo + i)
  {
    if SpellsPrefix(ps[lo..hi], i) {
      forall j | 0 <= j < |PREFIX| ensures ps[lo + i + j] == Ch(PREFIX[j]) {
        assert ps[lo..hi][i + j] == ps[lo + i + j];
      }
    }
  }

  lemma {:induction false} LeadingDigitsOf(d: string, rest: string)
    requires forall i :: 0 <= i < |d| ==> IsDigit(d[i])
    requires rest != "" && !IsDigit(rest[0])
    ensures LeadingDigits(d + rest) == |d|
  {
    if d == "" {
      assert d + rest == rest;
    } else {
      assert (d + rest)[1..] == d[1..] + rest;
      LeadingDigitsOf(d[1..], rest);
    }
  }

  lemma TokenMatches(n: nat, rest: string)
    ensures TokenAtStart(Token(n) + rest) == Some(Match(n, |Token(n)|))
  {
    hide Numeral, Value, LeadingDigits;
    ReadsBack(n);
    var s := Token(n) + rest;
    assert s == PREFIX + (Numeral(n) + (SUFFIX + rest));
    var after := s[|PREFIX|..];
    assert after == Numeral(n) + (SUFFIX + rest);
    LeadingDigitsOf(Numeral(n), SUFFIX + rest);
    assert s[|PREFIX|..|PREFIX| + |Numeral(n)|] == Numeral(n);
    assert s[|PREFIX| + |Numeral(n)|..] == SUFFIX + rest;
  }

  /** How many characters come before the first token, fifteen at most. */
  function LeadingChars(ps: seq<Piece>, m: nat): (n: nat)
    requires m <= |ps| && forall i :: 0 <= i < m ==> ps[i].Ch?
    ensures m <= n <= |ps| && forall i :: 0 <= i < n ==> ps[i].Ch?
    ensures n < |ps| ==> ps[n].Tok?
    decreases |ps| - m
  {
    if m < |ps| && ps[m].Ch? then LeadingChars(ps, m + 1) else m
  }

  lemma {:induction false} RenderedChars(ps: seq<Piece>, n: nat)
    requires n <= |ps| && forall i :: 0 <= i < n ==> ps[i].Ch?
    ensures |Rendered(ps)| >= n && Rendered(ps)[n..] == Rendered(ps[n..])
    ensures forall i :: 0 <= i < n ==> Rendered(ps)[i] == ps[i].c
    decreases n
  {
    hide Rendered;
    if n == 0 {
      assert ps[0..] == ps;
    } else {
      RenderedCons(ps);
      RenderedChars(ps[1..], n - 1);
      assert ps[1..][n - 1..] == ps[n..];
      assert forall i :: 0 < i < n ==> ps[i] == ps[1..][i - 1];
    }
  }

  /** The prefix overlaps itself in its last underscore only. */
  lemma PrefixBorders(m: nat)
    requires 0 < m < |PREFIX| - 1
    ensures PREFIX[m] != PREFIX[0] || (m + 1 < |PREFIX| && PREFIX[m + 1] != PREFIX[1])
  {
    assert PREFIX[0] == '_' && PREFIX[1] == '_' && PREFIX[2] == 'K' && PREFIX[3] == 'E' && PREFIX[4] == 'R'
        && PREFIX[5] == 'A';
    assert PREFIX[6] == 'M' && PREFIX[7] == 'O' && PREFIX[8] == 'S' && PREFIX[9] == '_' && PREFIX[10] == 'E'
        && PREFIX[11] == 'X';
    assert PREFIX[12] == 'P' && PREFIX[13] == 'R' && PREFIX[14] == '_';
  }

  /** Where the plain text ends early, a token or nothing follows. */
  lemma AfterText(ps: seq<Piece>, m: nat)
    requires m <= |ps| && (forall i :: 0 <= i < m ==> ps[i].Ch?) && (m < |ps| ==> ps[m].Tok?)
    ensures |Rendered(ps)| == m || (|Rendered(ps)| > m + 1 && Rendered(ps)[m] == Rendered(ps)[m + 1] == '_')
  {
    RenderedChars(ps, m);
    if m < |ps| {
      RenderedCons(ps[m..]);
      var t := Rendered(ps[m..]);
      var k := ps[m].index;
      assert t == Token(k) + Rendered(ps[m..][1..]);
      assert t[0] == '_' && t[1] == '_';
      assert Rendered(ps)[m] == t[0] && Rendered(ps)[m + 1] == t[1];
    } else {
      assert ps[m..] == [];
    }
  }

  /** No token begins in plain text, not even one that would run on into a real token. */
  lemma NoTokenInText(ps: seq<Piece>)
    requires ps != [] && ps[0].Ch? && PrefixFree(ps)
    ensures TokenAtStart(Rendered(ps)).None?
  {
    hide Rendered, Value;
    var s := Rendered(ps);
    var m := LeadingChars(ps, 0);
    RenderedChars(ps, m);
    AfterText(ps, m);
    assert !SpellsPrefix(ps, 0);
    if m >= |PREFIX| {
      var j :| 0 <= j < |PREFIX| && ps[0 + j] != Ch(PREFIX[j]);
      assert s[j] != PREFIX[j];
    } else if m == |PREFIX| - 1 {
      assert PREFIX <= s ==> s[|PREFIX|..][0] == '_';
      assert PREFIX <= s ==> LeadingDigits(s[|PREFIX|..]) == 0;
    } else {
      assert m > 0;
      PrefixBorders(m);
    }
  }

  /** Main result on restoring: every token is put back, whatever surrounds it,
      as long as no run of plain characters spells the token prefix. */
  lemma {:induction false} RestoreFills(ps: seq<Piece>, exprs: seq<string>)
    requires Numbered(ps, exprs) && PrefixFree(ps)
    ensures Restore(Rendered(ps), exprs) == Filled(ps, exprs)
    decreases |ps|
  {
    if ps != [] {
      var rest := ps[1..];
      forall i | 0 <= i < |rest| ensures !SpellsPrefix(rest, i) {
        SpellsInSlice(ps, 1, |ps|, i);
      }
      RestoreFills(rest, exprs);
      RenderedCons(ps);
      FilledCons(ps, exprs);
      var s := Rendered(ps);
      match ps[0] {
        case Ch(c) =>
          NoTokenInText(ps);
          assert s[1..] == Rendered(rest);
        case Tok(n) =>
          TokenMatches(n, Rendered(rest));
          assert s[|Token(n)|..] == Rendered(rest);
      }
    }
  }

  // ----- the round trip -----

  function Texts(s: string, parts: seq<Part>): string
    requires forall i :: 0 <= i < |parts| ==> Sound(s, parts[i])
  {
    Flat(seq(|parts|, i requires 0 <= i < |parts| => PartText(s, parts[i])))
  }

  ghost function Annotated(s: string): string {
    PartsAreSound(s, 0);
    Texts(s, Parts(s, 0))
  }

  /** A piece stands for a part: the same character, or a token for its text. */
  predicate StandsFor(s: string, p: Part, piece: Piece, exprs: seq<string>)
    requires Sound(s, p)
  {
    match p
    case Text(c) => piece == Ch(c)
    case Expr(_, _) => piece.Tok? && piece.index < |exprs| && exprs[piece.index] == PartText(s, p)
  }

  predicate Fit(s: string, parts: seq<Part>, ps: seq<Piece>, exprs: seq<string>) {
    |ps| == |parts| && forall i :: 0 <= i < |parts| ==> Sound(s, parts[i]) && StandsFor(s, parts[i], ps[i], exprs)
  }

  lemma LastStandsFor(s: string, parts: seq<Part>, exprs: seq<string>)
    requires parts != [] && forall i :: 0 <= i < |parts| ==> Sound(s, parts[i])
    requires Exprs(s, parts) <= exprs
    ensures var rest := parts[..|parts| - 1];
            Exprs(s, rest) <= exprs && Pieces(s, parts)[..|rest|] == Pieces(s, rest)
            && StandsFor(s, parts[|rest|], Pieces(s, parts)[|rest|], exprs)
  {
    hide Stored, PartText;
    var rest, last := parts[..|parts| - 1], parts[|parts| - 1];
    if last.Expr? {
      StoredInserts(s, last.start, last.end);
      assert exprs[|Exprs(s, rest)|] == Exprs(s, parts)[|Exprs(s, rest)|];
    }
  }

  lemma {:induction false} PiecesFit(s: string, parts: seq<Part>, exprs: seq<string>)
    requires forall i :: 0 <= i < |parts| ==> Sound(s, parts[i])
    requires Exprs(s, parts) <= exprs
    ensures Fit(s, parts, Pieces(s, parts), exprs)
    decreases |parts|
  {
    hide Exprs, Sound, StandsFor;
    if parts != [] {
      var n, ps := |parts| - 1, Pieces(s, parts);
      LastStandsFor(s, parts, exprs);
      PiecesFit(s, parts[..n], exprs);
      forall i | 0 <= i < n ensures Sound(s, parts[i]) && StandsFor(s, parts[i], ps[i], exprs) {
        assert parts[..n][i] == parts[i] && ps[..n][i] == ps[i];
      }
    }
  }

  /** The parts from i on start with plain characters that spell the token prefix. */
  predicate TextSpells(parts: seq<Part>, i: nat) {
    i + |PREFIX| <= |parts| && forall j :: 0 <= j < |PREFIX| ==> parts[i + j] == Text(PREFIX[j])
  }

  predicate TextPrefixFree(parts: seq<Part>) {
    forall i :: 0 <= i < |parts| ==> !TextSpells(parts, i)
  }

  lemma FitPrefixFree(s: string, parts: seq<Part>, ps: seq<Piece>, exprs: seq<string>)
    requires Fit(s, parts, ps, exprs) && TextPrefixFree(parts)
    ensures PrefixFree(ps)
  {
    forall i | 0 <= i < |ps| ensures !SpellsPrefix(ps, i) {
      if SpellsPrefix(ps, i) {
        forall j | 0 <= j < |PREFIX| ensures parts[i + j] == Text(PREFIX[j]) {
          assert StandsFor(s, parts[i + j], ps[i + j], exprs);
        }
        assert TextSpells(parts, i);
      }
    }
  }

  lemma FitFills(s: string, parts: seq<Part>, ps: seq<Piece>, exprs: seq<string>)
    requires Fit(s, parts, ps, exprs)
    ensures Numbered(ps, exprs) && (forall i :: 0 <= i < |parts| ==> Sound(s, parts[i]))
        && Filled(ps, exprs) == Texts(s, parts)
  {
    forall i | 0 <= i < |ps| ensures ps[i].Tok? ==> ps[i].index < |exprs| {
      assert StandsFor(s, parts[i], ps[i], exprs);
    }
    forall i | 0 <= i < |ps| ensures PieceFilled(ps[i], exprs) == PartText(s, parts[i]) {
      assert StandsFor(s, parts[i], ps[i], exprs);
    }
    assert seq(|ps|, i requires 0 <= i < |ps| => PieceFilled(ps[i], exprs)) ==
           seq(|parts|, i requires 0 <= i < |parts| => PartText(s, parts[i]));
  }

  lemma FitRestores(s: string, parts: seq<Part>, ps: seq<Piece>, exprs: seq<string>)
    requires Fit(s, parts, ps, exprs) && TextPrefixFree(parts)
    ensures (forall i :: 0 <= i < |parts| ==> Sound(s, parts[i])) && Restore(Rendered(ps), exprs) == Texts(s, parts)
  {
    hide Fit, Restore, Rendered, Texts, Filled, Numbered, PrefixFree, TextPrefixFree;
    FitFills(s, parts, ps, exprs);
    FitPrefixFree(s, parts, ps, exprs);
    RestoreFills(ps, exprs);
  }

  /** Main result: stashing and restoring gives the content back, with the
      conversion to string inserted in exactly the quoted expressions. The text
      outside expressions must not spell the token prefix. */
  lemma StashRoundTrip(s: string)
    requires TextPrefixFree(Parts(s, 0))
    ensures Restore(Rendered(AllPieces(s)), AllExprs(s)) == Annotated(s)
  {
    hide Restore, Rendered, Texts, TextPrefixFree, Parts;
    PartsAreSound(s, 0);
    PiecesFit(s, Parts(s, 0), AllExprs(s));
    FitRestores(s, Parts(s, 0), AllPieces(s), AllExprs(s));
  }

  /** A parsed scalar holds a run of pieces of the stashed text; it too is restored in full. */
  lemma StashedScalarRestored(s: string, lo: nat, hi: nat)
    requires TextPrefixFree(Parts(s, 0)) && lo <= hi <= |Parts(s, 0)|
    ensures forall i :: lo <= i < hi ==> Sound(s, Parts(s, 0)[i])
    ensures hi <= |AllPieces(s)| && Restore(Rendered(AllPieces(s)[lo..hi]), AllExprs(s))
        == Texts(s, Parts(s, 0)[lo..hi])
  {
    hide Restore, Rendered, Texts, TextPrefixFree, Parts, Fit;
    PartsAreSound(s, 0);
    PiecesFit(s, Parts(s, 0), AllExprs(s));
    FitSlice(s, Parts(s, 0), AllPieces(s), AllExprs(s), lo, hi);
    FitRestores(s, Parts(s, 0)[lo..hi], AllPieces(s)[lo..hi], AllExprs(s));
  }

  lemma TextSpellsInSlice(parts: seq<Part>, lo: nat, hi: nat, i: nat)
    requires lo <= hi <= |parts|
    ensures TextSpells(parts[lo..hi], i) ==> TextSpells(parts, lo + i)
  {
    if TextSpells(parts[lo..hi], i) {
      forall j | 0 <= j < |PREFIX| ensures parts[lo + i + j] == Text(PREFIX[j]) {
        assert parts[lo..hi][i + j] == parts[lo + i + j];
      }
    }
  }

  lemma FitSlice(s: string, parts: seq<Part>, ps: seq<Piece>, exprs: seq<string>, lo: nat, hi: nat)
    requires Fit(s, parts, ps, exprs) && TextPrefixFree(parts) && lo <= hi <= |parts|
    ensures hi <= |ps| && Fit(s, parts[lo..hi], ps[lo..hi], exprs) && TextPrefixFree(parts[lo..hi])
  {
    var some := parts[lo..hi];
    forall i | 0 <= i < |some| ensures !TextSpells(some, i) {
      TextSpellsInSlice(parts, lo, hi, i);
    }
    forall i | 0 <= i < |some| ensures Sound(s, some[i]) && StandsFor(s, some[i], ps[lo..hi][i], exprs) {
      assert StandsFor(s, parts[lo + i], ps[lo + i], exprs);
    }
  }

  lemma TextsCons(s: string, parts: seq<Part>)
    requires parts != [] && forall k :: 0 <= k < |parts| ==> Sound(s, parts[k])
    ensures Texts(s, parts) == PartText(s, parts[0]) + Texts(s, parts[1..])
  {
    var rest := parts[1..];
    var ss := seq(|parts|, k requires 0 <= k < |parts| => PartText(s, parts[k]));
    assert ss[1..] == seq(|rest|, k requires 0 <= k < |rest| => PartText(s, rest[k]));
  }

  /** How many quoted expressions the content has from position i on. */
  ghost function QuotedFrom(s: string, i: nat): nat
    requires i <= |s|
    decreases |s| - i
  {
    if i == |s| then 0
    else
      match ExprAt(s, i)
      case Some(j) => (if Quoted(s, i, j) then 1 else 0) + QuotedFrom(s, j)
      case None => QuotedFrom(s, i + 1)
  }

  lemma ExprSpells(s: string, i: nat, j: nat)
    requires Sound(s, Expr(i, j))
    ensures |PartText(s, Expr(i, j))| == j - i + if Quoted(s, i, j) then |TO_STRING| else 0
    ensures !Quoted(s, i, j) ==> PartText(s, Expr(i, j)) == s[i..j]
  {
  }

  lemma CharSpells(s: string, c: char)
    ensures PartText(s, Text(c)) == [c]
  {
  }

  lemma {:induction false} TextsSpell(s: string, i: nat)
    requires i <= |s|
    ensures forall k :: 0 <= k < |Parts(s, i)| ==> Sound(s, Parts(s, i)[k])
    ensures |Texts(s, Parts(s, i))| == |s| - i + |TO_STRING| * QuotedFrom(s, i)
    ensures QuotedFrom(s, i) == 0 ==> Texts(s, Parts(s, i)) == s[i..]
    decreases |s| - i
  {
    hide Texts, Parts, QuotedFrom, ExprAt, PartText, Sound;
    PartsAreSound(s, i);
    if i == |s| {
      NoTexts(s);
    } else {
      NextPart(s, i);
      TextsCons(s, Parts(s, i));
      match ExprAt(s, i) {
        case Some(j) =>
          TextsSpell(s, j);
          ExprSpells(s, i, j);
          assert s[i..j] + s[j..] == s[i..];
        case None =>
          TextsSpell(s, i + 1);
          CharSpells(s, s[i]);
          assert [s[i]] + s[i + 1..] == s[i..];
      }
    }
  }

  lemma NextPart(s: string, i: nat)
    requires i < |s|
    ensures ExprAt(s, i).None? ==>
        Parts(s, i) != [] && Parts(s, i)[0] == Text(s[i])
        && Parts(s, i)[1..] == Parts(s, i + 1)
    ensures ExprAt(s, i).None? ==> QuotedFrom(s, i) == QuotedFrom(s, i + 1)
    ensures ExprAt(s, i).Some? ==> var j := ExprAt(s, i).value;
              Sound(s, Expr(i, j)) && Parts(s, i) != [] && Parts(s, i)[0] == Expr(i, j)
                  && Parts(s, i)[1..] == Parts(s, j)
    ensures ExprAt(s, i).Some? ==> var j := ExprAt(s, i).value;
              QuotedFrom(s, i) == (if Quoted(s, i, j) then 1 else 0) + QuotedFrom(s, j)
  {
  }

  lemma NoTexts(s: string)
    ensures Texts(s, []) == "" && Parts(s, |s|) == [] && QuotedFrom(s, |s|) == 0
  {
  }

  /** Main result: the content itself comes back exactly when no expression fills a quoted scalar. */
  lemma RoundTripIsIdentityIff(s: string)
    requires TextPrefixFree(Parts(s, 0))
    ensures Restore(Rendered(AllPieces(s)), AllExprs(s)) == s <==> QuotedFrom(s, 0) == 0
  {
    hide Texts, TextPrefixFree, Restore, Rendered, Parts;
    StashRoundTrip(s);
    TextsSpell(s, 0);
    assert s[0..] == s;
  }

  // ----- exactly when the round trip works -----

  /** What plain text up to the next expression starts with: nothing of note, a
      whole token, or one whose suffix runs on into the token of that expression. */
  datatype Spelt = Nothing | Whole(m: Match) | RunsOn

  function SpeltToken(t: string, follows: bool): (r: Spelt)
    ensures r.Whole? ==> 0 < r.m.length <= |t|
  {
    if !(PREFIX <= t) then Nothing
    else
      var n := LeadingDigits(t[|PREFIX|..]);
      var end := |PREFIX| + n;
      if n == 0 then Nothing
      else if SUFFIX <= t[end..] then Whole(Match(Value(t[|PREFIX|..end]), end + |SUFFIX|))
      else if follows && t[end..] in {"", "_"} then RunsOn
      else Nothing
  }

  function Chars(ps: seq<Piece>, m: nat): (t: string)
    requires m <= |ps| && forall i :: 0 <= i < m ==> ps[i].Ch?
    ensures |t| == m
  {
    seq(m, i requires 0 <= i < m => ps[i].c)
  }

  /** Going through the plain text from the left, past every token it spells: none
      has a known number, and none runs on into the token of an expression. */
  predicate Harmless(ps: seq<Piece>, count: nat)
    decreases |ps|
  {
    if ps == [] then true
    else if ps[0].Tok? then Harmless(ps[1..], count)
    else
      var m := LeadingChars(ps, 0);
      match SpeltToken(Chars(ps, m), m < |ps|)
      case Nothing => Harmless(ps[1..], count)
      case Whole(t) => t.index >= count && Harmless(ps[t.length..], count)
      case RunsOn => false
  }

  lemma {:induction false} DigitsThen(t: string, w: string)
    requires w != "" ==> !IsDigit(w[0])
    ensures LeadingDigits(t + w) == LeadingDigits(t)
  {
    if t == "" {
      assert t + w == w;
    } else {
      assert (t + w)[1..] == t[1..] + w;
      DigitsThen(t[1..], w);
    }
  }

  /** Less text than the prefix is never completed to one by the token that follows. */
  lemma ShortText(t: string, w: string)
    requires 0 < |t| < |PREFIX| && (w == "" || (|w| > 1 && w[0] == w[1] == '_'))
    ensures TokenAtStart(t + w).None?
  {
    hide Value;
    var s := t + w;
    if w != "" && PREFIX <= s {
      assert s[|t|] == '_' && s[|t| + 1] == '_';
      if |t| == |PREFIX| - 1 {
        assert s[|PREFIX|..][0] == '_';
        assert LeadingDigits(s[|PREFIX|..]) == 0;
      } else {
        PrefixBorders(|t|);
      }
    }
  }

  /** What the token search finds at the start of plain text with its continuation. */
  lemma SpeltIsFound(t: string, w: string)
    requires t != "" && (w == "" || (|w| > 1 && w[0] == w[1] == '_'))
    ensures match SpeltToken(t, w != "")
            case Nothing => TokenAtStart(t + w).None?
            case Whole(m) => TokenAtStart(t + w) == Some(m)
            case RunsOn => TokenAtStart(t + w).Some? && TokenAtStart(t + w).value.length > |t|
  {
    hide Value, LeadingDigits;
    if |t| < |PREFIX| {
      ShortText(t, w);
    } else {
      var s := t + w;
      assert PREFIX <= s <==> PREFIX <= t;
      var d := t[|PREFIX|..];
      assert s[|PREFIX|..] == d + w;
      DigitsThen(d, w);
      var end := |PREFIX| + LeadingDigits(d);
      assert s[|PREFIX|..end] == t[|PREFIX|..end];
      assert s[end..] == t[end..] + w;
      SuffixAcross(t[end..], w);
    }
  }

  lemma SuffixAcross(u: string, w: string)
    requires w == "" || (|w| > 1 && w[0] == w[1] == '_')
    ensures SUFFIX <= u + w <==> SUFFIX <= u || (w != "" && u in {"", "_"})
  {
    if |u| == 0 { assert u + w == w; }
    if |u| == 1 { assert (u + w)[0] == u[0]; assert u == [u[0]]; }
    if |u| >= 2 { assert (u + w)[..2] == u[..2]; }
  }

  lemma {:induction false} FilledChars(ps: seq<Piece>, n: nat, exprs: seq<string>)
    requires n <= |ps| && (forall i :: 0 <= i < n ==> ps[i].Ch?) && Numbered(ps, exprs)
    ensures Filled(ps, exprs) == Chars(ps, n) + Filled(ps[n..], exprs)
    decreases n
  {
    hide Filled;
    if n == 0 {
      assert ps[0..] == ps;
    } else {
      FilledCons(ps, exprs);
      FilledChars(ps[1..], n - 1, exprs);
      assert ps[1..][n - 1..] == ps[n..];
      assert [ps[0].c] + Chars(ps[1..], n - 1) == Chars(ps, n);
    }
  }

  /** The text of the pieces is their plain start and what follows it. */
  lemma TextStart(ps: seq<Piece>, m: nat) returns (w: string)
    requires m <= |ps| && (forall i :: 0 <= i < m ==> ps[i].Ch?) && (m < |ps| ==> ps[m].Tok?)
    ensures Rendered(ps) == Chars(ps, m) + w && (w == "" || (|w| > 1 && w[0] == w[1] == '_'))
    ensures w != "" <==> m < |ps|
  {
    hide Rendered;
    RenderedChars(ps, m);
    AfterText(ps, m);
    if m < |ps| { RenderedCons(ps[m..]); } else { assert ps[m..] == []; NoPieces(); }
    w := Rendered(ps)[m..];
    assert Rendered(ps)[..m] == Chars(ps, m);
  }

  lemma NoPieces()
    ensures Rendered([]) == ""
  {
  }

  ghost predicate AllDollar(exprs: seq<string>) {
    forall i :: 0 <= i < |exprs| ==> exprs[i] != "" && exprs[i][0] == '$'
  }

  /** A spelt token with a known number is replaced, so the text is lost. */
  lemma KnownIsReplaced(s: string, m: Match, exprs: seq<string>)
    requires TokenAtStart(s) == Some(m) && m.index < |exprs| && AllDollar(exprs)
    ensures Restore(s, exprs) != "" && Restore(s, exprs)[0] == '$'
  {
  }

  lemma UnknownStays(s: string, exprs: seq<string>, m: Match)
    requires TokenAtStart(s) == Some(m) && m.index >= |exprs|
    ensures m.length <= |s| && Restore(s, exprs) == s[..m.length] + Restore(s[m.length..], exprs)
  {
  }

  lemma NothingThere(s: string, exprs: seq<string>)
    requires s != "" && TokenAtStart(s).None?
    ensures Restore(s, exprs) == [s[0]] + Restore(s[1..], exprs)
  {
  }

  /** A token that runs on into a real one leaves that one in pieces. */
  lemma RunOnLoses(ps: seq<Piece>, exprs: seq<string>, m: nat, w: string)
    requires Numbered(ps, exprs) && AllDollar(exprs)
    requires 0 < m < |ps| && (forall i :: 0 <= i < m ==> ps[i].Ch?) && ps[m].Tok?
    requires Rendered(ps) == Chars(ps, m) + w && |w| > 1 && w[0] == '_' && ps[0].c == '_'
    requires TokenAtStart(Rendered(ps)).Some? && TokenAtStart(Rendered(ps)).value.length > m
    ensures Restore(Rendered(ps), exprs) != Filled(ps, exprs)
  {
    hide Restore, Filled, Rendered, TokenAtStart;
    var s := Rendered(ps);
    var found := TokenAtStart(s).value;
    FilledChars(ps, m, exprs);
    FilledCons(ps[m..], exprs);
    var filled := Filled(ps, exprs);
    assert filled[m] == '$' && filled[0] == '_';
    if found.index < |exprs| {
      KnownIsReplaced(s, found, exprs);
    } else {
      UnknownStays(s, exprs, found);
      assert Restore(s, exprs)[m] == s[m] == '_';
    }
  }

  /** Main result on restoring: the tokens are put back and the text is kept
      exactly when what the text spells is harmless. */
  lemma {:induction false} RestoreFillsIff(ps: seq<Piece>, exprs: seq<string>)
    requires Numbered(ps, exprs) && AllDollar(exprs)
    ensures Restore(Rendered(ps), exprs) == Filled(ps, exprs) <==> Harmless(ps, |exprs|)
    decreases |ps|
  {
    hide Restore, Rendered, Filled, TokenAtStart, SpeltToken, AllDollar;
    if ps == [] {
      NoPieces();
      NothingFilled(exprs);
    } else {
      RenderedCons(ps);
      FilledCons(ps, exprs);
      RestoreFillsIff(ps[1..], exprs);
      if ps[0].Tok? {
        var n := ps[0].index;
        var rest := Rendered(ps[1..]);
        TokenMatches(n, rest);
        TokenRestored(n, rest, exprs);
        SamePrefix(exprs[n], Restore(rest, exprs), Filled(ps[1..], exprs));
      } else {
        TextRestored(ps, exprs);
      }
    }
  }

  lemma NothingFilled(exprs: seq<string>)
    ensures Restore("", exprs) == Filled([], exprs)
  {
  }

  lemma SamePrefix(a: string, x: string, y: string)
    ensures a + x == a + y <==> x == y
  {
    if a + x == a + y {
      assert (a + x)[|a|..] == x && (a + y)[|a|..] == y;
    }
  }

  lemma TokenRestored(n: nat, rest: string, exprs: seq<string>)
    requires TokenAtStart(Token(n) + rest) == Some(Match(n, |Token(n)|)) && n < |exprs|
    ensures Restore(Token(n) + rest, exprs) == exprs[n] + Restore(rest, exprs)
  {
    hide TokenAtStart, Token;
    var s := Token(n) + rest;
    assert s[|Token(n)|..] == rest;
    assert s != "";
  }

  lemma {:induction false} TextRestored(ps: seq<Piece>, exprs: seq<string>)
    requires ps != [] && ps[0].Ch? && Numbered(ps, exprs) && AllDollar(exprs)
    requires Restore(Rendered(ps[1..]), exprs) == Filled(ps[1..], exprs) <==> Harmless(ps[1..], |exprs|)
    ensures Restore(Rendered(ps), exprs) == Filled(ps, exprs) <==> Harmless(ps, |exprs|)
    decreases |ps|, 0
  {
    hide Restore, Rendered, Filled, TokenAtStart, SpeltToken, AllDollar, LeadingChars;
    var m := LeadingChars(ps, 0);
    var t := Chars(ps, m);
    var w := TextStart(ps, m);
    SpeltIsFound(t, w);
    SpeltStart(t, w != "");
    var s := Rendered(ps);
    assert s[0] == t[0] == ps[0].c;
    match SpeltToken(t, w != "") {
      case Nothing =>
        RenderedCons(ps);
        FilledCons(ps, exprs);
        NothingThere(s, exprs);
        assert s[1..] == Rendered(ps[1..]);
        SamePrefix([ps[0].c], Restore(s[1..], exprs), Filled(ps[1..], exprs));
      case Whole(k) =>
        if k.index < |exprs| {
          KnownIsReplaced(s, k, exprs);
          FilledCons(ps, exprs);
        } else {
          var rest := ps[k.length..];
          UnknownStays(s, exprs, k);
          RenderedChars(ps, k.length);
          FilledChars(ps, k.length, exprs);
          assert s[..k.length] == Chars(ps, k.length);
          SamePrefix(s[..k.length], Restore(s[k.length..], exprs), Filled(rest, exprs));
          RestoreFillsIff(rest, exprs);
        }
      case RunsOn => RunOnLoses(ps, exprs, m, w);
    }
  }

  lemma SpeltStart(t: string, follows: bool)
    ensures !SpeltToken(t, follows).Nothing? ==> t != "" && t[0] == '_'
    ensures SpeltToken(t, follows).RunsOn? ==> follows
  {
    hide Value, LeadingDigits;
  }

  lemma {:induction false} StoredDollar(s: string, parts: seq<Part>)
    requires forall i :: 0 <= i < |parts| ==> Sound(s, parts[i])
    ensures AllDollar(Exprs(s, parts))
    decreases |parts|
  {
    hide Quoted, Stored, PartText;
    if parts != [] {
      var n := |parts| - 1;
      StoredDollar(s, parts[..n]);
      if parts[n].Expr? { StoredStart(s, parts[n].start, parts[n].end); }
    }
  }

  lemma StoredStart(s: string, start: nat, end: nat)
    requires Sound(s, Expr(start, end))
    ensures Stored(s, start, end) != "" && Stored(s, start, end)[0] == '$'
  {
    hide Quoted;
    StoredInserts(s, start, end);
  }

  /** Main result: for any content at all, stashing and restoring gives it back,
      with the conversion inserted in the quoted expressions, exactly when the
      tokens its plain text spells are harmless. */
  lemma StashRoundTripIff(s: string)
    ensures Restore(Rendered(AllPieces(s)), AllExprs(s)) == Annotated(s) <==> Harmless(AllPieces(s), |AllExprs(s)|)
  {
    hide Restore, Rendered, Texts, Filled, Harmless, Parts, Fit, Numbered, AllDollar;
    PartsAreSound(s, 0);
    PiecesFit(s, Parts(s, 0), AllExprs(s));
    FitFills(s, Parts(s, 0), AllPieces(s), AllExprs(s));
    StoredDollar(s, Parts(s, 0));
    RestoreFillsIff(AllPieces(s), AllExprs(s));
  }

  lemma {:induction false} PlainParts(s: string, i: nat, k: nat)
    requires i <= k <= |s| && forall j :: i <= j < k ==> ExprAt(s, j).None?
    ensures Parts(s, i) == seq(k - i, j requires 0 <= j < k - i => Text(s[i + j])) + Parts(s, k)
    decreases k - i
  {
    hide ExprAt, Quoted, QuotedFrom, Parts;
    if i < k {
      NextPart(s, i);
      PlainParts(s, i + 1, k);
      var rest := seq(k - i - 1, j requires 0 <= j < k - i - 1 => Text(s[i + 1 + j]));
      assert Parts(s, i) == [Text(s[i])] + Parts(s, i + 1);
      assert seq(k - i, j requires 0 <= j < k - i => Text(s[i + j])) == [Text(s[i])] + rest;
    }
  }

  lemma CapturingParts(s: string)
    requires s == PREFIX + "1${x}"
    ensures Parts(s, 0) == seq(16, j requires 0 <= j < 16 => Text(s[j])) + [Expr(16, 20)]
  {
    hide Quoted, QuotedFrom, CloseFrom;
    forall j | 0 <= j < 16 ensures ExprAt(s, j).None? {
      assert s[j] != '$';
    }
    PlainParts(s, 0, 16);
    CapturingExpr(s);
    NextPart(s, 16);
    assert Parts(s, 20) == [];
    assert Parts(s, 16) == [Expr(16, 20)];
  }

  lemma CapturingExpr(s: string)
    requires s == PREFIX + "1${x}"
    ensures ExprAt(s, 16) == Some(20)
  {
    assert |s| == 20 && s[16] == '$' && s[17] == '{' && s[18] == 'x' && s[19] == '}';
    assert CloseFrom(s, 19, 1, false, false) == Some(20);
    assert CloseFrom(s, 18, 1, false, false) == Some(20);
  }

  lemma DigitRun()
    ensures SpeltToken(PREFIX + "1", true) == RunsOn
  {
    var t := PREFIX + "1";
    assert PREFIX <= t && t[|PREFIX|..] == "1" && t[|PREFIX| + 1..] == "";
    assert LeadingDigits("1") == 1;
  }

  /** The content "__KERAMOS_EXPR_1${x}": its text makes a token of its own with
      the start of the real one, and the expression is never put back. */
  lemma TextMayCaptureToken()
    ensures var s := PREFIX + "1${x}"; Restore(Rendered(AllPieces(s)), AllExprs(s)) != Annotated(s)
  {
    hide Restore, Rendered, Annotated, Parts, CloseFrom, Pieces, Exprs, SpellsPrefix, SpeltToken;
    var s := PREFIX + "1${x}";
    StashRoundTripIff(s);
    PartsAreSound(s, 0);
    CapturingParts(s);
    var parts, ps, exprs := Parts(s, 0), AllPieces(s), AllExprs(s);
    PiecesFit(s, parts, exprs);
    forall j | 0 <= j < 16 ensures ps[j] == Ch(s[j]) {
      assert StandsFor(s, parts[j], ps[j], exprs);
    }
    assert StandsFor(s, parts[16], ps[16], exprs);
    assert LeadingChars(ps, 0) == 16;
    assert Chars(ps, 16) == PREFIX + "1";
    DigitRun();
  }
}
