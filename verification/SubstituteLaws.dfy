/** What a text, a list and a map with expressions become. */
module SubstituteLaws {
  import opened Basics
  import opened Trees
  import opened Text
  import opened Atoms
  import opened Expressions
  import opened Substitute
  import S = Stash

  predicate Blank(s: string) {
    forall i :: 0 <= i < |s| ==> IsSpace(s[i])
  }

  predicate OpensNone(x: string) {
    forall i :: 0 <= i < |x| - 1 ==> !(x[i] == '$' && x[i + 1] == '{')
  }

  // ----- an expression by itself -----

  lemma {:induction false} TrimLeftBlank(pre: string, s: string)
    requires Blank(pre) && (s != "" ==> !IsSpace(s[0]))
    ensures TrimLeft(pre + s) == s
    decreases |pre|
  {
    if pre == "" {
      assert pre + s == s;
    } else {
      TrimLeftBlank(pre[1..], s);
      assert (pre + s)[1..] == pre[1..] + s;
    }
  }

  lemma {:induction false} TrimRightBlank(s: string, post: string)
    requires Blank(post) && (s != "" ==> !IsSpace(s[|s| - 1]))
    ensures TrimRight(s + post) == s
    decreases |post|
  {
    if post == "" {
      assert s + post == s;
    } else {
      TrimRightBlank(s, post[..|post| - 1]);
      assert (s + post)[..|s + post| - 1] == s + post[..|post| - 1];
    }
  }

  lemma TrimBoth(pre: string, s: string, post: string)
    requires Blank(pre) && Blank(post) && s != "" && !IsSpace(s[0]) && !IsSpace(s[|s| - 1])
    ensures TrimSpace(pre + s + post) == s
  {
    assert pre + s + post == pre + (s + post);
    TrimLeftBlank(pre, s + post);
    TrimRightBlank(s, post);
  }

  lemma OpensNoneIff(x: string)
    ensures OpensNone(x) <==> !Opens(x)
  {
    if !OpensNone(x) {
      var i: nat :| i < |x| - 1 && x[i] == '$' && x[i + 1] == '{';
      assert S.OpensAt(x, i);
    }
  }

  /** Main result: a text that is an expression and nothing else but blanks is
      what the expression evaluates to, whatever kind of value that is. */
  lemma ExpressionKeepsItsValue(e: Evaluator, scope: Scope, pre: string, x: string, post: string)
    requires Blank(pre) && Blank(post) && OpensNone(x)
    ensures SubstituteAll(e, scope, Str(pre + "${" + x + "}" + post)) == e.eval(x, scope)
  {
    var t := "${" + x + "}";
    assert pre + "${" + x + "}" + post == pre + t + post;
    TrimBoth(pre, t, post);
    assert t[2..|t| - 1] == x;
    OpensNoneIff(x);
  }

  /** An input: a text that starts with an expression and ends with a brace of its
      own is taken for one expression, although the first one closes before. */
  lemma LastBraceCloses(e: Evaluator, scope: Scope)
    ensures S.ExprAt("${a} to {b}", 0) == Some(4)
    ensures SubstituteAll(e, scope, Str("${a} to {b}")) == e.eval("a} to {b", scope)
  {
    FirstClosesBefore();
    assert "" + "${" + "a} to {b" + "}" + "" == "${a} to {b}";
    ExpressionKeepsItsValue(e, scope, "", "a} to {b", "");
  }

  lemma FirstClosesBefore()
    ensures S.ExprAt("${a} to {b}", 0) == Some(4)
  {
    hide S.CloseFrom;
    var s := "${a} to {b}";
    assert s[2..4] == "a}" && Reads(s, 2, "a" + "}");
    LetterWritten(Bare('a'));
    var atoms := [Single(Bare('a'))];
    assert atoms[1..] == [] && Written(atoms, '{', '}') == "a";
    AtomsClose(s, 0, atoms);
  }

  // ----- text around expressions -----

  /** Text as it stands, an escaped opening, or an expression made of atoms. */
  datatype Piece = Plain(text: string) | Escape | Expr(atoms: seq<Atom>)

  function Inside(p: Piece): string
    requires p.Expr?
  {
    Written(p.atoms, '{', '}')
  }

  function Source(p: Piece): string {
    match p
    case Plain(text) => text
    case Escape => "$${"
    case Expr(_) => "${" + Inside(p) + "}"
  }

  function Sources(ps: seq<Piece>): string {
    if ps == [] then "" else Source(ps[0]) + Sources(ps[1..])
  }

  /** Plain text opens nothing and leaves no dollar sign for what follows it. */
  predicate Sound(ps: seq<Piece>) {
    forall i :: 0 <= i < |ps| ==>
      match ps[i]
      case Plain(text) => OpensNone(text) && (text != "" && i + 1 < |ps| ==> text[|text| - 1] != '$')
      case Escape => true
      case Expr(atoms) => Proper(atoms, '{', '}')
  }

  /** What a piece is printed as. */
  function Printed(e: Evaluator, scope: Scope, p: Piece): Option<string> {
    match p
    case Plain(text) => Some(text)
    case Escape => Some("${")
    case Expr(_) =>
      match e.eval(Inside(p), scope)
      case None => None
      case Some(v) => Some(if v.Omit? then "" else if v.Str? then v.s else e.format(v))
  }

  /** The pieces in order; one that cannot be evaluated fails them all. */
  function AllPrinted(e: Evaluator, scope: Scope, ps: seq<Piece>): Option<string> {
    if ps == [] then Some("")
    else
      match (Printed(e, scope, ps[0]), AllPrinted(e, scope, ps[1..]))
      case (Some(x), Some(y)) => Some(x + y)
      case _ => None
  }

  /** The text is no expression by itself. */
  ghost predicate NotAlone(s: string) {
    forall pre, x, post :: Blank(pre) && Blank(post) && s == pre + "${" + x + "}" + post ==> !OpensNone(x)
  }

  lemma {:induction false} TrimmedAway(s: string) returns (pre: string, post: string)
    ensures s == pre + TrimSpace(s) + post && Blank(pre) && Blank(post)
  {
    pre := LeftBlanks(s);
    post := RightBlanks(TrimLeft(s));
  }

  lemma {:induction false} LeftBlanks(s: string) returns (pre: string)
    ensures s == pre + TrimLeft(s) && Blank(pre)
    decreases |s|
  {
    pre := "";
    if s != "" && IsSpace(s[0]) {
      pre := LeftBlanks(s[1..]);
      assert s == [s[0]] + s[1..];
      pre := [s[0]] + pre;
    }
  }

  lemma {:induction false} RightBlanks(s: string) returns (post: string)
    ensures s == TrimRight(s) + post && Blank(post)
    decreases |s|
  {
    post := "";
    if s != "" && IsSpace(s[|s| - 1]) {
      post := RightBlanks(s[..|s| - 1]);
      assert s == s[..|s| - 1] + [s[|s| - 1]];
      post := post + [s[|s| - 1]];
    }
  }

  lemma NotAloneIsNotSingle(s: string)
    requires NotAlone(s)
    ensures !IsSingle(s)
  {
    if IsSingle(s) {
      var pre, post := TrimmedAway(s);
      var t := TrimSpace(s);
      var x := t[2..|t| - 1];
      assert t == "${" + x + "}";
      assert s == pre + "${" + x + "}" + post;
      OpensNoneIff(x);
      assert false;
    }
  }

  lemma PlainCopied(e: Evaluator, scope: Scope, s: string, i: nat, j: nat)
    requires i <= j <= |s|
    requires forall k: nat :: i <= k < j ==> !S.OpensAt(s, k) && !EscapesAt(s, k)
    ensures Mixed(e, scope, s, i) == Prepend(s[i..j], Mixed(e, scope, s, j))
    decreases j - i
  {
    if i == j {
      PrependNothing(Mixed(e, scope, s, j));
    } else {
      PlainCopied(e, scope, s, i + 1, j);
      Joined([s[i]], s[i + 1..j], Mixed(e, scope, s, j));
      assert [s[i]] + s[i + 1..j] == s[i..j];
    }
  }

  /** Nothing opens inside plain text, nor where it meets what follows. */
  lemma PlainIsQuiet(s: string, i: nat, text: string)
    requires Reads(s, i, text) && OpensNone(text)
    requires text != "" && i + |text| < |s| ==> text[|text| - 1] != '$'
    ensures forall k: nat :: i <= k < i + |text| ==> !S.OpensAt(s, k) && !EscapesAt(s, k)
  {
    forall k: nat | i <= k < i + |text| ensures !S.OpensAt(s, k) && !EscapesAt(s, k) {
      assert s[k] == text[k - i];
      if k + 1 < i + |text| { assert s[k + 1] == text[k + 1 - i]; }
      if k + 2 < i + |text| { assert s[k + 2] == text[k + 2 - i]; }
    }
  }

  lemma PlainPiece(e: Evaluator, scope: Scope, s: string, i: nat, text: string)
    requires Reads(s, i, text) && OpensNone(text)
    requires text != "" && i + |text| < |s| ==> text[|text| - 1] != '$'
    ensures Mixed(e, scope, s, i) == Prepend(text, Mixed(e, scope, s, i + |text|))
  {
    PlainIsQuiet(s, i, text);
    PlainCopied(e, scope, s, i, i + |text|);
  }

  lemma EscapePiece(e: Evaluator, scope: Scope, s: string, i: nat)
    requires Reads(s, i, "$${")
    ensures Mixed(e, scope, s, i) == Prepend("${", Mixed(e, scope, s, i + 3))
  {
    assert s[i..i + 3][0] == s[i] && s[i..i + 3][1] == s[i + 1] && s[i..i + 3][2] == s[i + 2];
  }

  lemma ExprPiece(e: Evaluator, scope: Scope, s: string, i: nat, p: Piece)
    requires p.Expr? && Proper(p.atoms, '{', '}') && Reads(s, i, Source(p))
    ensures Mixed(e, scope, s, i) ==
      match Printed(e, scope, p) case None => None case Some(x) => Prepend(x, Mixed(e, scope, s, i + |Source(p)|))
  {
    hide Proper, Written, S.CloseFrom, Mixed, S.ExprAt;
    var w := Inside(p);
    OpeningRead(s, i, w);
    AtomsClose(s, i, p.atoms);
    ClosedStep(e, scope, s, i, i + 3 + |w|);
    assert s[i + 2..i + 2 + |w|] == w;
  }

  lemma OpeningRead(s: string, i: nat, w: string)
    requires Reads(s, i, "${" + w + "}")
    ensures S.OpensAt(s, i) && Reads(s, i + 2, w + "}") && Reads(s, i + 2, w)
  {
    assert "${" + w + "}" == "${" + (w + "}");
    ReadsBoth(s, i, "${", w + "}");
    ReadsBoth(s, i + 2, w, "}");
    assert s[i..i + 2][0] == s[i] && s[i..i + 2][1] == s[i + 1];
  }

  /** One step of the scan over a closed expression. */
  lemma ClosedStep(e: Evaluator, scope: Scope, s: string, i: nat, end: nat)
    requires S.OpensAt(s, i) && S.ExprAt(s, i) == Some(end)
    ensures Mixed(e, scope, s, i) ==
      match e.eval(s[i + 2..end - 1], scope)
      case None => None
      case Some(v) => Prepend(if v.Omit? then "" else Shown(e, v), Mixed(e, scope, s, end))
  {
  }

  lemma {:induction false} PiecesFrom(e: Evaluator, scope: Scope, s: string, i: nat, ps: seq<Piece>)
    requires Sound(ps) && Reads(s, i, Sources(ps)) && i + |Sources(ps)| == |s|
    ensures Mixed(e, scope, s, i) == AllPrinted(e, scope, ps)
    decreases |ps|
  {
    hide Reads, OpensNone, Proper, Printed, Mixed, Prepend, Written;
    NoPieces(e, scope, s);
    if ps != [] {
      var p, rest := ps[0], ps[1..];
      ReadsBoth(s, i, Source(p), Sources(rest));
      assert Sound(rest) by {
        forall k | 0 <= k < |rest| ensures rest[k] == ps[k + 1] {}
      }
      PiecesFrom(e, scope, s, i + |Source(p)|, rest);
      PieceInFront(e, scope, ps);
      match p {
        case Plain(text) =>
          PlainPiece(e, scope, s, i, text);
          assert Printed(e, scope, p) == Some(text) by { PlainPrinted(e, scope, p); }
        case Escape =>
          EscapePiece(e, scope, s, i);
          assert Printed(e, scope, p) == Some("${") by { PlainPrinted(e, scope, p); }
        case Expr(_) => ExprPiece(e, scope, s, i, p);
      }
    }
  }

  lemma NoPieces(e: Evaluator, scope: Scope, s: string)
    ensures Mixed(e, scope, s, |s|) == AllPrinted(e, scope, [])
  {
  }

  lemma PieceInFront(e: Evaluator, scope: Scope, ps: seq<Piece>)
    requires ps != []
    ensures AllPrinted(e, scope, ps) == match Printed(e, scope, ps[0])
      case None => None
      case Some(x) => Prepend(x, AllPrinted(e, scope, ps[1..]))
  {
  }

  lemma PlainPrinted(e: Evaluator, scope: Scope, p: Piece)
    ensures p.Plain? ==> Printed(e, scope, p) == Some(p.text)
    ensures p.Escape? ==> Printed(e, scope, p) == Some("${")
  {
  }

  /** Main result: a text that is no expression by itself becomes the text of its
      pieces in order, each expression evaluated in this scope and printed. */
  lemma TextOfPieces(e: Evaluator, scope: Scope, ps: seq<Piece>)
    requires Sound(ps) && NotAlone(Sources(ps))
    ensures SubstituteAll(e, scope, Str(Sources(ps))) ==
      match AllPrinted(e, scope, ps) case None => None case Some(x) => Some(Str(x))
  {
    hide NotAlone, Sound, IsSingle, Mixed;
    var s := Sources(ps);
    NotAloneIsNotSingle(s);
    assert s[0..0 + |s|] == s;
    PiecesFrom(e, scope, s, 0, ps);
  }

  // ----- expressions that never close -----

  /** Text in which nothing that opens ever closes stays as it is. */
  lemma UnclosedIsText(e: Evaluator, scope: Scope, s: string)
    requires NotAlone(s)
    requires forall i: nat :: i < |s| ==> !EscapesAt(s, i)
    requires forall i: nat, atoms :: i < |s| && S.OpensAt(s, i) && Proper(atoms, '{', '}') ==>
      !Reads(s, i + 2, Written(atoms, '{', '}') + "}")
    ensures SubstituteAll(e, scope, Str(s)) == Some(Str(s))
  {
    hide NotAlone, IsSingle, Proper, Reads;
    NotAloneIsNotSingle(s);
    forall i: nat | i < |s| ensures S.ExprAt(s, i).None? {
      if S.OpensAt(s, i) && S.ExprAt(s, i).Some? { ClosesIff(s, i, S.ExprAt(s, i).value); }
    }
    NothingReplaced(e, scope, s, 0);
    assert s[0..] == s;
  }

  lemma {:induction false} NothingReplaced(e: Evaluator, scope: Scope, s: string, i: nat)
    requires i <= |s| && forall k: nat :: k < |s| ==> !EscapesAt(s, k) && S.ExprAt(s, k).None?
    ensures Mixed(e, scope, s, i) == Some(s[i..])
    decreases |s| - i
  {
    if i < |s| {
      NothingReplaced(e, scope, s, i + 1);
      assert [s[i]] + s[i + 1..] == s[i..];
    } else {
      assert s[i..] == "";
    }
  }

  // ----- lists and maps -----

  lemma ListIsItems(e: Evaluator, scope: Scope, items: seq<Tree>)
    ensures SubstituteAll(e, scope, List(items)) == SubstituteItems(e, scope, items)
  {
  }

  /** Two lists one after the other, if there are two. */
  function InARow(a: Option<Tree>, b: Option<Tree>): Option<Tree> {
    match (a, b)
    case (Some(List(x)), Some(List(y))) => Some(List(x + y))
    case _ => None
  }

  lemma {:induction false} ItemsInARow(e: Evaluator, scope: Scope, xs: seq<Tree>, ys: seq<Tree>)
    ensures SubstituteItems(e, scope, xs + ys) == InARow(SubstituteItems(e, scope, xs), SubstituteItems(e, scope, ys))
    decreases |ys|
  {
    hide SubstituteAll;
    if ys == [] {
      assert xs + ys == xs;
      var a := SubstituteItems(e, scope, xs);
      if a.Some? { assert a.value.items + [] == a.value.items; }
    } else {
      var n := |ys| - 1;
      assert (xs + ys)[..|xs + ys| - 1] == xs + ys[..n];
      ItemsInARow(e, scope, xs, ys[..n]);
      var a, b := SubstituteItems(e, scope, xs), SubstituteItems(e, scope, ys[..n]);
      var v := SubstituteAll(e, scope, ys[n]);
      if a.Some? && b.Some? && v.Some? {
        assert a.value.items + b.value.items + [v.value] == a.value.items + (b.value.items + [v.value]);
      }
    }
  }

  /** A list is substituted item by item. */
  lemma ListsSubstituteInARow(e: Evaluator, scope: Scope, xs: seq<Tree>, ys: seq<Tree>)
    ensures SubstituteAll(e, scope, List(xs + ys)) ==
            InARow(SubstituteAll(e, scope, List(xs)), SubstituteAll(e, scope, List(ys)))
  {
    hide SubstituteAll, SubstituteItems;
    ListIsItems(e, scope, xs);
    ListIsItems(e, scope, ys);
    ListIsItems(e, scope, xs + ys);
    ItemsInARow(e, scope, xs, ys);
  }

  /** A dropped item leaves no place. */
  lemma ItemSubstituted(e: Evaluator, scope: Scope, item: Tree)
    ensures SubstituteAll(e, scope, List([item])) ==
      match SubstituteAll(e, scope, item) case None => None case Some(v) => Some(List(if v.Omit? then [] else [v]))
  {
    hide SubstituteAll;
    ListIsItems(e, scope, [item]);
    assert [item][..0] == [];
    assert SubstituteItems(e, scope, [item][..0]) == Some(List([]));
    var v := SubstituteAll(e, scope, item);
    if v.Some? { assert [] + [v.value] == [v.value]; }
  }

  /** What a key is written as afterwards: the printed value of the text it is,
      or the key itself when that value is to be dropped. */
  ghost predicate KeyReads(e: Evaluator, scope: Scope, k: string, out: string) {
    match SubstituteAll(e, scope, Str(k))
    case None => false
    case Some(v) => out == if v.Omit? then k else if v.Str? then v.s else e.format(v)
  }

  lemma KeyIsText(e: Evaluator, scope: Scope, k: string, out: string)
    ensures KeyReads(e, scope, k, out) <==> SubstituteKey(e, scope, k) == Some(out)
  {
    hide SubstituteString;
    if !Opens(k) { QuietString(e, scope, k); }
  }

  /** Main result: every entry that is not dropped stands under its substituted
      key with its substituted value, as long as no two keys become the same. */
  lemma EntriesSubstituted(e: Evaluator, scope: Scope, m: map<string, Tree>, keys: map<string, string>,
      values: map<string, Tree>)
    requires forall k :: k in m ==> SubstituteAll(e, scope, m[k]).Some?
    requires keys.Keys == values.Keys
    requires forall k :: k in values <==> k in m && SubstituteAll(e, scope, m[k]) != Some(Omit)
    requires forall k :: k in values ==>
        SubstituteAll(e, scope, m[k]) == Some(values[k]) && KeyReads(e, scope, k, keys[k])
    requires forall k, l :: k in keys && l in keys && k != l ==> keys[k] != keys[l]
    ensures SubstituteAll(e, scope, Map(m)).Some? && SubstituteAll(e, scope, Map(m)).value.Map?
    ensures var out := SubstituteAll(e, scope, Map(m)).value.fields;
            out.Keys == keys.Values && forall k :: k in keys ==> keys[k] in out && out[keys[k]] == values[k]
  {
    hide SubstituteAll, SubstituteKey, KeyReads;
    forall k | k in values ensures SubstituteKey(e, scope, k) == Some(keys[k]) { KeyIsText(e, scope, k, keys[k]); }
    SubstitutedMap(e, scope, m, values, keys);
    RekeyedApart(values, keys);
  }

  lemma RekeyedApart(values: map<string, Tree>, keys: map<string, string>)
    requires keys.Keys == values.Keys
    requires forall k, l :: k in keys && l in keys && k != l ==> keys[k] != keys[l]
    ensures Rekeyed(values, keys).Keys == keys.Values
    ensures forall k :: k in keys ==> keys[k] in keys.Values && Rekeyed(values, keys)[keys[k]] == values[k]
  {
    forall k | k in keys ensures keys[k] in keys.Values && Rekeyed(values, keys)[keys[k]] == values[k] {
      var l :| l in keys && keys[l] == keys[k] && values[l] == Rekeyed(values, keys)[keys[k]];
    }
  }
}
