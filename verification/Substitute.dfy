/** Replacing `${...}` expressions in strings and keys, over an abstract evaluator. */
module Substitute {
  import opened Basics
  import opened Trees
  import opened Text
  import S = Stash

  type Scope = map<string, Tree>

  /** Evaluation of one expression, which may fail, and how a value that is no string is printed. */
  datatype Evaluator = Evaluator(eval: (string, Scope) -> Option<Tree>, format: Tree -> string)

  function Shown(e: Evaluator, v: Tree): string {
    if v.Str? then v.s else e.format(v)
  }

  /** Does the string hold the two characters that open an expression? */
  predicate Opens(s: string) {
    exists i: nat :: i < |s| && S.OpensAt(s, i)
  }

  /** A string that is one expression and nothing else but blanks. */
  predicate IsSingle(s: string) {
    var t := TrimSpace(s);
    |t| >= 3 && S.OpensAt(t, 0) && t[|t| - 1] == '}' && !Opens(t[2..|t| - 1])
  }

  function Inner(s: string): string
    requires IsSingle(s)
  {
    var t := TrimSpace(s);
    t[2..|t| - 1]
  }

  predicate EscapesAt(s: string, i: nat) {
    i + 2 < |s| && s[i] == '$' && s[i + 1] == '$' && s[i + 2] == '{'
  }

  /** Mixed text from position i on: escapes become literal, closed expressions
      their printed values, an omitted value nothing. */
  function Mixed(e: Evaluator, scope: Scope, s: string, i: nat): Option<string>
    requires i <= |s|
    decreases |s| - i
  {
    if i == |s| then Some("")
    else if EscapesAt(s, i) then Prepend("${", Mixed(e, scope, s, i + 3))
    else
      match S.ExprAt(s, i)
      case Some(j) =>
        (match e.eval(s[i + 2..j - 1], scope)
         case None => None
         case Some(v) => Prepend(if v.Omit? then "" else Shown(e, v), Mixed(e, scope, s, j)))
      case None => Prepend([s[i]], Mixed(e, scope, s, i + 1))
  }

  function Prepend(s: string, t: Option<string>): Option<string> {
    match t case None => None case Some(x) => Some(s + x)
  }

  function SubstituteString(e: Evaluator, scope: Scope, s: string): Option<Tree> {
    if IsSingle(s) then e.eval(Inner(s), scope)
    else
      match Mixed(e, scope, s, 0)
      case None => None
      case Some(x) => Some(Str(x))
  }

  function SubstituteKey(e: Evaluator, scope: Scope, k: string): Option<string> {
    if !Opens(k) then Some(k)
    else
      match SubstituteString(e, scope, k)
      case None => None
      case Some(v) => if v.Omit? then Some(k) else Some(Shown(e, v))
  }

  /** When two keys become the same one, either value may be left. */
  ghost function Rekeyed(values: map<string, Tree>, keys: map<string, string>): map<string, Tree>
    requires keys.Keys == values.Keys
  {
    map x | x in keys.Values :: var k :| k in keys && keys[k] == x; values[k]
  }

  ghost function SubstituteAll(e: Evaluator, scope: Scope, t: Tree): Option<Tree>
    decreases t
  {
    match t
    case Str(s) => SubstituteString(e, scope, s)
    case Map(m) =>
      if exists k :: k in m && SubstituteAll(e, scope, m[k]).None? then None
      else
        var values := map k | k in m && SubstituteAll(e, scope, m[k]) != Some(Omit) ::
            SubstituteAll(e, scope, m[k]).value;
        if exists k :: k in values && SubstituteKey(e, scope, k).None? then None
        else Some(Map(Rekeyed(values, map k | k in values :: SubstituteKey(e, scope, k).value)))
    case List(items) => SubstituteItems(e, scope, items)
    case _ => Some(t)
  }

  ghost function SubstituteItems(e: Evaluator, scope: Scope, items: seq<Tree>): (r: Option<Tree>)
    ensures r.Some? ==> r.value.List?
    decreases items
  {
    if items == [] then Some(List([]))
    else
      match (SubstituteItems(e, scope, items[..|items| - 1]), SubstituteAll(e, scope, items[|items| - 1]))
      case (Some(List(done)), Some(v)) => if v.Omit? then Some(List(done)) else Some(List(done + [v]))
      case _ => None
  }

  /** The mixed-text scan as coded. */
  method SubstituteMixed(e: Evaluator, scope: Scope, s: string) returns (r: Option<string>)
    ensures r == Mixed(e, scope, s, 0)
  {
    var out := "";
    var i := 0;
    PrependNothing(Mixed(e, scope, s, 0));
    while i < |s|
      invariant 0 <= i <= |s| && Mixed(e, scope, s, 0) == Prepend(out, Mixed(e, scope, s, i))
    {
      ghost var rest := Mixed(e, scope, s, i);
      if EscapesAt(s, i) {
        Joined(out, "${", Mixed(e, scope, s, i + 3));
        out := out + "${";
        i := i + 3;
        continue;
      }
      if S.OpensAt(s, i) {
        var end := S.ScanToClose(s, i);
        if end.Some? {
          var val := e.eval(s[i + 2..end.value - 1], scope);
          if val.None? {
            return None;
          }
          Joined(out, if val.value.Omit? then "" else Shown(e, val.value), Mixed(e, scope, s, end.value));
          if !val.value.Omit? {
            out := out + Shown(e, val.value);
          } else {
            assert out + "" == out;
          }
          i := end.value;
          continue;
        }
      }
      Joined(out, [s[i]], Mixed(e, scope, s, i + 1));
      out := out + [s[i]];
      i := i + 1;
    }
    assert out + "" == out;
    r := Some(out);
  }

  lemma PrependNothing(t: Option<string>)
    ensures Prepend("", t) == t
  {
    if t.Some? { assert "" + t.value == t.value; }
  }

  lemma Joined(a: string, b: string, t: Option<string>)
    ensures Prepend(a, Prepend(b, t)) == Prepend(a + b, t)
  {
    if t.Some? { assert a + (b + t.value) == a + b + t.value; }
  }

  // ----- trees without expressions -----

  /** No string or key opens an expression, and nothing inside is to be dropped. */
  predicate Quiet(t: Tree) {
    match t
    case Str(s) => !Opens(s)
    case Map(m) => forall k :: k in m ==> !Opens(k) && !m[k].Omit? && Quiet(m[k])
    case List(items) => forall i :: 0 <= i < |items| ==> !items[i].Omit? && Quiet(items[i])
    case _ => true
  }

  lemma {:induction false} TrimLeftPart(s: string)
    ensures exists i: nat :: i <= |s| && TrimLeft(s) == s[i..]
    decreases |s|
  {
    if s != "" && IsSpace(s[0]) {
      TrimLeftPart(s[1..]);
      var i: nat :| i <= |s[1..]| && TrimLeft(s[1..]) == s[1..][i..];
      assert s[1..][i..] == s[i + 1..];
    } else {
      assert s == s[0..];
    }
  }

  lemma {:induction false} TrimRightPart(s: string)
    ensures TrimRight(s) <= s
    decreases |s|
  {
    if s != "" && IsSpace(s[|s| - 1]) { TrimRightPart(s[..|s| - 1]); }
  }

  lemma TrimSpacePart(s: string) returns (d: nat)
    ensures d + |TrimSpace(s)| <= |s| && s[d..d + |TrimSpace(s)|] == TrimSpace(s)
  {
    TrimLeftPart(s);
    TrimRightPart(TrimLeft(s));
    d :| d <= |s| && TrimLeft(s) == s[d..];
  }

  lemma PartOpens(s: string, lo: nat, hi: nat)
    requires lo <= hi <= |s| && Opens(s[lo..hi])
    ensures Opens(s)
  {
    var i: nat :| i < |s[lo..hi]| && S.OpensAt(s[lo..hi], i);
    assert S.OpensAt(s, lo + i);
  }

  lemma TrimOpens(s: string)
    ensures Opens(TrimSpace(s)) ==> Opens(s)
  {
    hide TrimSpace;
    var d := TrimSpacePart(s);
    if Opens(TrimSpace(s)) { PartOpens(s, d, d + |TrimSpace(s)|); }
  }

  lemma {:induction false} QuietMixed(e: Evaluator, scope: Scope, s: string, i: nat)
    requires !Opens(s) && i <= |s|
    ensures Mixed(e, scope, s, i) == Some(s[i..])
    decreases |s| - i
  {
    assert i == |s| ==> s[i..] == "";
    if i < |s| {
      assert !S.OpensAt(s, i);
      if EscapesAt(s, i) { assert S.OpensAt(s, i + 1); }
      QuietMixed(e, scope, s, i + 1);
      assert [s[i]] + s[i + 1..] == s[i..];
    }
  }

  lemma QuietString(e: Evaluator, scope: Scope, s: string)
    requires !Opens(s)
    ensures SubstituteString(e, scope, s) == Some(Str(s))
  {
    TrimOpens(s);
    QuietMixed(e, scope, s, 0);
    assert s[0..] == s;
  }

  /** Strings open no expression, nothing inside is to be dropped, and a key
      opens one only where keys may be dropped and it evaluates to the marker in
      this scope, so that it stays as it is written. */
  predicate Settled(e: Evaluator, scope: Scope, t: Tree, drops: bool) {
    match t
    case Str(s) => !Opens(s)
    case Map(m) =>
      forall k :: k in m ==> KeySettled(e, scope, k, drops) && !m[k].Omit? && Settled(e, scope, m[k], drops)
    case List(items) => forall i :: 0 <= i < |items| ==> !items[i].Omit? && Settled(e, scope, items[i], drops)
    case _ => true
  }

  predicate KeySettled(e: Evaluator, scope: Scope, k: string, drops: bool) {
    Opens(k) ==> drops && SubstituteString(e, scope, k) == Some(Omit)
  }

  lemma {:induction false} QuietIsSettled(e: Evaluator, scope: Scope, t: Tree, drops: bool)
    ensures Quiet(t) ==> Settled(e, scope, t, drops)
    ensures Settled(e, scope, t, false) ==> Quiet(t)
    decreases t
  {
    hide SubstituteString, Opens;
    match t {
      case Map(m) => forall k | k in m { QuietIsSettled(e, scope, m[k], drops); }
      case List(items) => forall i | 0 <= i < |items| { QuietIsSettled(e, scope, items[i], drops); }
      case _ =>
    }
  }

  /** A settled tree is left alone in the scope it is settled in. */
  lemma {:induction false} SettledIdentity(e: Evaluator, scope: Scope, t: Tree, drops: bool)
    requires Settled(e, scope, t, drops)
    ensures SubstituteAll(e, scope, t) == Some(t)
    decreases t, 1
  {
    hide SubstituteString, Opens;
    match t {
      case Str(s) => QuietString(e, scope, s);
      case Map(m) =>
        forall k | k in m ensures SubstituteAll(e, scope, m[k]) == Some(m[k]) && SubstituteKey(e, scope, k) == Some(k) {
          SettledIdentity(e, scope, m[k], drops);
        }
        UntouchedMap(e, scope, m);
      case List(items) => SettledItems(e, scope, items, drops);
      case _ =>
    }
  }

  /** Main result: where nothing opens an expression, substitution is the identity in every scope. */
  lemma QuietIdentity(e: Evaluator, scope: Scope, t: Tree)
    requires Quiet(t)
    ensures SubstituteAll(e, scope, t) == Some(t)
  {
    QuietIsSettled(e, scope, t, false);
    SettledIdentity(e, scope, t, false);
  }

  lemma SameKeys(values: map<string, Tree>, keys: map<string, string>)
    requires keys.Keys == values.Keys && forall k :: k in keys ==> keys[k] == k
    ensures Rekeyed(values, keys) == values
  {
    assert keys.Values == values.Keys by {
      forall k | k in values ensures k in keys.Values { assert keys[k] == k; }
    }
  }

  lemma UntouchedMap(e: Evaluator, scope: Scope, m: map<string, Tree>)
    requires forall k :: k in m ==>
      !m[k].Omit? && SubstituteAll(e, scope, m[k]) == Some(m[k]) && SubstituteKey(e, scope, k) == Some(k)
    ensures SubstituteAll(e, scope, Map(m)) == Some(Map(m))
  {
    hide SubstituteKey, Rekeyed, SubstituteAll;
    var keys := map k | k in m :: k;
    SubstitutedMap(e, scope, m, m, keys);
    SameKeys(m, keys);
  }

  lemma {:induction false} SettledItems(e: Evaluator, scope: Scope, items: seq<Tree>, drops: bool)
    requires forall i :: 0 <= i < |items| ==> !items[i].Omit? && Settled(e, scope, items[i], drops)
    ensures SubstituteItems(e, scope, items) == Some(List(items))
    decreases items, 0
  {
    hide Settled;
    if items != [] {
      var n := |items| - 1;
      SettledItems(e, scope, items[..n], drops);
      SettledIdentity(e, scope, items[n], drops);
      assert items[..n] + [items[n]] == items;
    }
  }

  // ----- one pass is enough -----

  predicate DollarFree(t: Tree) {
    match t
    case Str(s) => '$' !in s
    case Map(m) => forall k :: k in m ==> '$' !in k && !m[k].Omit? && DollarFree(m[k])
    case List(items) => forall i :: 0 <= i < |items| ==> !items[i].Omit? && DollarFree(items[i])
    case _ => true
  }

  /** What an evaluation that causes no trouble comes to: an error, the drop
      marker, or a value without dollar signs in which nothing is to be dropped. */
  predicate Tame(r: Option<Tree>) {
    r.Some? && !r.value.Omit? ==> DollarFree(r.value)
  }

  /** Printing puts no dollar sign into values that have none. */
  ghost predicate PrintsPlainly(e: Evaluator) {
    forall v :: DollarFree(v) && !v.Str? ==> '$' !in e.format(v)
  }

  /** Every expression the mixed-text scan evaluates from i on, in this scope, is tame. */
  predicate TameFrom(e: Evaluator, scope: Scope, s: string, i: nat)
    requires i <= |s|
    decreases |s| - i
  {
    if i == |s| then true
    else if S.ExprAt(s, i).Some? then
      var j := S.ExprAt(s, i).value;
      var v := e.eval(s[i + 2..j - 1], scope);
      v.Some? ==> Tame(v) && TameFrom(e, scope, s, j)
    else TameFrom(e, scope, s, i + 1)
  }

  /** Every expression that substituting the string in this scope evaluates is tame. */
  predicate StringTame(e: Evaluator, scope: Scope, s: string) {
    if IsSingle(s) then Tame(e.eval(Inner(s), scope)) else TameFrom(e, scope, s, 0)
  }

  /** Every expression the scan meets from i on is closed. */
  predicate ClosedFrom(s: string, i: nat)
    requires i <= |s|
    decreases |s| - i
  {
    if i == |s| then true
    else if S.OpensAt(s, i) then S.ExprAt(s, i).Some? && ClosedFrom(s, S.ExprAt(s, i).value)
    else ClosedFrom(s, i + 1)
  }

  ghost predicate Closed(s: string) {
    ClosedFrom(s, 0) && forall i: nat :: i < |s| ==> !EscapesAt(s, i)
  }

  lemma {:induction false} DollarFreeIsQuiet(t: Tree)
    requires DollarFree(t)
    ensures Quiet(t)
    decreases t
  {
    match t {
      case Map(m) => forall k | k in m ensures !Opens(k) && Quiet(m[k]) { DollarFreeIsQuiet(m[k]); }
      case List(items) => forall i | 0 <= i < |items| ensures Quiet(items[i]) { DollarFreeIsQuiet(items[i]); }
      case _ =>
    }
  }

  lemma OpensNowhere(a: string, b: string)
    requires '$' !in a && !Opens(b)
    ensures !Opens(a + b)
  {
    forall i: nat | i < |a + b| ensures !S.OpensAt(a + b, i) {
      if i >= |a| { assert !S.OpensAt(b, i - |a|); } else { assert (a + b)[i] == a[i]; }
    }
  }

  lemma ShownIsFree(e: Evaluator, v: Tree)
    requires PrintsPlainly(e) && DollarFree(v)
    ensures '$' !in Shown(e, v)
  {
  }

  lemma NothingOpens()
    ensures !Opens("")
  {
  }

  /** A literal character in front of what follows it in the text. */
  lemma LiteralStep(s: string, i: nat, rest: string)
    requires i < |s| && !S.OpensAt(s, i) && !EscapesAt(s, i) && !Opens(rest)
    requires i + 1 < |s| && !S.OpensAt(s, i + 1) ==> rest != "" && rest[0] == s[i + 1]
    requires i + 1 == |s| ==> rest == ""
    ensures !Opens([s[i]] + rest)
  {
    var x := [s[i]] + rest;
    forall k: nat | k < |x| ensures !S.OpensAt(x, k) {
      if k > 0 {
        assert !S.OpensAt(rest, k - 1);
      } else if s[i] == '$' && i + 1 < |s| {
        assert !S.OpensAt(s, i + 1);
      }
    }
  }

  lemma {:induction false} MixedIsQuiet(e: Evaluator, scope: Scope, s: string, i: nat, x: string)
    requires PrintsPlainly(e) && i <= |s| && ClosedFrom(s, i) && TameFrom(e, scope, s, i)
    requires forall k: nat :: k < |s| ==> !EscapesAt(s, k)
    requires Mixed(e, scope, s, i) == Some(x)
    ensures !Opens(x)
    ensures i < |s| && !S.OpensAt(s, i) ==> x != "" && x[0] == s[i]
    ensures i == |s| ==> x == ""
    decreases |s| - i
  {
    hide PrintsPlainly, Opens, DollarFree;
    NothingOpens();
    if i < |s| {
      assert !EscapesAt(s, i);
      if S.OpensAt(s, i) {
        var j := S.ExprAt(s, i).value;
        var v := e.eval(s[i + 2..j - 1], scope).value;
        var rest := Mixed(e, scope, s, j).value;
        MixedIsQuiet(e, scope, s, j, rest);
        if v.Omit? {
          assert "" + rest == rest;
        } else {
          ShownIsFree(e, v);
          OpensNowhere(Shown(e, v), rest);
        }
      } else {
        var rest := Mixed(e, scope, s, i + 1).value;
        MixedIsQuiet(e, scope, s, i + 1, rest);
        assert x == [s[i]] + rest;
        LiteralStep(s, i, rest);
      }
    }
  }

  lemma StringBecomesQuiet(e: Evaluator, scope: Scope, s: string)
    requires PrintsPlainly(e) && Closed(s) && StringTame(e, scope, s) && SubstituteString(e, scope, s).Some?
    ensures Quiet(SubstituteString(e, scope, s).value)
    ensures !SubstituteString(e, scope, s).value.Omit? ==> !Opens(Shown(e, SubstituteString(e, scope, s).value))
  {
    hide IsSingle, PrintsPlainly;
    if IsSingle(s) {
      var v := e.eval(Inner(s), scope).value;
      if !v.Omit? {
        ShownIsFree(e, v);
        DollarFreeIsQuiet(v);
        NoDollarNoOpening(Shown(e, v));
      }
    } else {
      MixedIsQuiet(e, scope, s, 0, Mixed(e, scope, s, 0).value);
    }
  }

  lemma NoDollarNoOpening(s: string)
    requires '$' !in s
    ensures !Opens(s)
  {
  }

  /** Strings are well closed and what they evaluate in this scope is tame; so
      are the keys whose entries stay, and without `drops` none of those
      evaluates to the drop marker. */
  ghost predicate Orderly(e: Evaluator, scope: Scope, t: Tree, drops: bool)
    decreases t
  {
    match t
    case Str(s) => Closed(s) && StringTame(e, scope, s)
    case Map(m) =>
      forall k :: k in m ==>
        Orderly(e, scope, m[k], drops) && (SubstituteAll(e, scope, m[k]) != Some(Omit) ==>
            KeyOrderly(e, scope, k, drops))
    case List(items) => forall i :: 0 <= i < |items| ==> Orderly(e, scope, items[i], drops)
    case _ => true
  }

  ghost predicate KeyOrderly(e: Evaluator, scope: Scope, k: string, drops: bool) {
    Opens(k) ==> Closed(k) && StringTame(e, scope, k) && (drops || SubstituteString(e, scope, k) != Some(Omit))
  }

  /** Every entry of a substituted map comes from an entry that was not dropped. */
  lemma EntryOrigin(e: Evaluator, scope: Scope, m: map<string, Tree>, x: string) returns (k: string)
    requires SubstituteAll(e, scope, Map(m)).Some? && SubstituteAll(e, scope, Map(m)).value.Map?
    requires x in SubstituteAll(e, scope, Map(m)).value.fields
    ensures k in m && SubstituteKey(e, scope, k) == Some(x)
    ensures SubstituteAll(e, scope, m[k]) == Some(SubstituteAll(e, scope, Map(m)).value.fields[x])
    ensures SubstituteAll(e, scope, m[k]) != Some(Omit)
  {
    hide SubstituteKey;
    var values := map k | k in m && SubstituteAll(e, scope, m[k]) != Some(Omit) :: SubstituteAll(e, scope, m[k]).value;
    var keys := map k | k in values :: SubstituteKey(e, scope, k).value;
    k :| k in keys && keys[k] == x && values[k] == Rekeyed(values, keys)[x];
  }

  lemma SubstitutedKind(e: Evaluator, scope: Scope, m: map<string, Tree>)
    requires SubstituteAll(e, scope, Map(m)).Some?
    ensures SubstituteAll(e, scope, Map(m)).value.Map?
  {
    hide SubstituteKey;
  }

  lemma KeyBecomesSettled(e: Evaluator, scope: Scope, k: string, x: string, drops: bool)
    requires PrintsPlainly(e) && KeyOrderly(e, scope, k, drops) && SubstituteKey(e, scope, k) == Some(x)
    ensures KeySettled(e, scope, x, drops)
  {
    hide PrintsPlainly, SubstituteString, Closed, Opens, StringTame, Quiet;
    if Opens(k) { StringBecomesQuiet(e, scope, k); }
  }

  /** Main result: with closed expressions, no escapes and tame evaluations one
      pass leaves no expression but in keys that evaluated to the drop marker. */
  lemma {:induction false} SubstitutedIsSettled(e: Evaluator, scope: Scope, t: Tree, drops: bool)
    requires PrintsPlainly(e) && Orderly(e, scope, t, drops) && SubstituteAll(e, scope, t).Some?
    ensures Settled(e, scope, SubstituteAll(e, scope, t).value, drops)
    decreases t, 1
  {
    hide PrintsPlainly, StringTame, SubstituteString, Closed;
    match t {
      case Str(s) =>
        StringBecomesQuiet(e, scope, s);
        QuietIsSettled(e, scope, SubstituteString(e, scope, s).value, drops);
      case Map(m) => MapBecomesSettled(e, scope, m, drops);
      case List(items) => ItemsBecomeSettled(e, scope, items, drops);
      case _ =>
    }
  }

  lemma {:induction false} MapBecomesSettled(e: Evaluator, scope: Scope, m: map<string, Tree>, drops: bool)
    requires PrintsPlainly(e) && Orderly(e, scope, Map(m), drops) && SubstituteAll(e, scope, Map(m)).Some?
    ensures Settled(e, scope, SubstituteAll(e, scope, Map(m)).value, drops)
    decreases Map(m), 0
  {
    hide PrintsPlainly, SubstituteAll, SubstituteKey, SubstituteString, KeyOrderly, KeySettled, Opens;
    SubstitutedKind(e, scope, m);
    var r := SubstituteAll(e, scope, Map(m)).value.fields;
    forall x | x in r ensures KeySettled(e, scope, x, drops) && !r[x].Omit? && Settled(e, scope, r[x], drops) {
      var k := EntryOrigin(e, scope, m, x);
      SubstitutedIsSettled(e, scope, m[k], drops);
      KeyBecomesSettled(e, scope, k, x, drops);
    }
  }

  lemma {:induction false} ItemsBecomeSettled(e: Evaluator, scope: Scope, items: seq<Tree>, drops: bool)
    requires PrintsPlainly(e) && SubstituteItems(e, scope, items).Some?
    requires forall i :: 0 <= i < |items| ==> Orderly(e, scope, items[i], drops)
    ensures Settled(e, scope, SubstituteItems(e, scope, items).value, drops)
    decreases items, 0
  {
    hide PrintsPlainly, Orderly, KeySettled, Opens;
    if items != [] {
      ItemsBecomeSettled(e, scope, items[..|items| - 1], drops);
      SubstitutedIsSettled(e, scope, items[|items| - 1], drops);
    }
  }

  /** Without keys that evaluate to the drop marker nothing is left to evaluate in any scope. */
  lemma SubstitutedIsQuiet(e: Evaluator, scope: Scope, t: Tree)
    requires PrintsPlainly(e) && Orderly(e, scope, t, false) && SubstituteAll(e, scope, t).Some?
    ensures Quiet(SubstituteAll(e, scope, t).value)
  {
    SubstitutedIsSettled(e, scope, t, false);
    QuietIsSettled(e, scope, SubstituteAll(e, scope, t).value, false);
  }

  /** Main result: substitution is idempotent, keys that evaluate to the marker included. */
  lemma SecondPassChangesNothing(e: Evaluator, scope: Scope, t: Tree)
    requires PrintsPlainly(e) && Orderly(e, scope, t, true) && SubstituteAll(e, scope, t).Some?
    ensures SubstituteAll(e, scope, SubstituteAll(e, scope, t).value) == SubstituteAll(e, scope, t)
  {
    SubstitutedIsSettled(e, scope, t, true);
    SettledIdentity(e, scope, SubstituteAll(e, scope, t).value, true);
  }

  // ----- a second pass in another scope -----

  /** Every key that opens an expression evaluates to something tame in the scope. */
  ghost predicate KeysTame(e: Evaluator, scope: Scope, t: Tree)
    decreases t
  {
    match t
    case Map(m) => forall k :: k in m ==> KeyTame(e, scope, k) && KeysTame(e, scope, m[k])
    case List(items) => forall i :: 0 <= i < |items| ==> KeysTame(e, scope, items[i])
    case _ => true
  }

  ghost predicate KeyTame(e: Evaluator, scope: Scope, k: string) {
    Opens(k) ==> Closed(k) && StringTame(e, scope, k)
  }

  /** A key that comes out as an opening key was one all along and is dropped. */
  lemma OnlyItself(e: Evaluator, scope: Scope, k: string, x: string)
    requires PrintsPlainly(e) && KeyTame(e, scope, k) && SubstituteKey(e, scope, k) == Some(x) && Opens(x)
    ensures k == x && KeySettled(e, scope, x, true)
  {
    hide PrintsPlainly, SubstituteString, Closed, StringTame, Opens, Quiet;
    if Opens(k) { StringBecomesQuiet(e, scope, k); }
  }

  lemma SettledKeyStays(e: Evaluator, scope: Scope, k: string)
    requires KeySettled(e, scope, k, true)
    ensures SubstituteKey(e, scope, k) == Some(k)
  {
  }

  /** When a substituted map is the map itself, every key and every value is its own result. */
  lemma UntouchedEntries(e: Evaluator, scope: Scope, m: map<string, Tree>)
    requires PrintsPlainly(e) && (forall k :: k in m ==> KeyTame(e, scope, k))
    requires SubstituteAll(e, scope, Map(m)) == Some(Map(m))
    ensures forall k :: k in m ==> KeySettled(e, scope, k, true) && SubstituteAll(e, scope, m[k]) == Some(m[k])
  {
    hide PrintsPlainly, SubstituteKey, SubstituteAll, KeySettled, KeyTame, Opens;
    forall k | k in m ensures KeySettled(e, scope, k, true) {
      var k0 := EntryOrigin(e, scope, m, k);
      QuietKeySettled(e, scope, k);
      if Opens(k) { OnlyItself(e, scope, k0, k); }
    }
    forall k | k in m ensures SubstituteAll(e, scope, m[k]) == Some(m[k]) {
      var k0 := EntryOrigin(e, scope, m, k);
      SettledKeyStays(e, scope, k0);
    }
  }

  lemma QuietKeySettled(e: Evaluator, scope: Scope, k: string)
    ensures !Opens(k) ==> KeySettled(e, scope, k, true)
  {
  }

  lemma {:induction false} ItemsNoLonger(e: Evaluator, scope: Scope, items: seq<Tree>)
    requires SubstituteItems(e, scope, items).Some?
    ensures |SubstituteItems(e, scope, items).value.items| <= |items|
    decreases |items|
  {
    hide SubstituteAll;
    if items != [] { ItemsNoLonger(e, scope, items[..|items| - 1]); }
  }

  lemma {:induction false} UntouchedItems(e: Evaluator, scope: Scope, items: seq<Tree>)
    requires SubstituteItems(e, scope, items) == Some(List(items))
    ensures forall i :: 0 <= i < |items| ==> SubstituteAll(e, scope, items[i]) == Some(items[i])
    decreases |items|
  {
    hide SubstituteAll;
    if items != [] {
      var n := |items| - 1;
      ItemsNoLonger(e, scope, items[..n]);
      var done := SubstituteItems(e, scope, items[..n]).value.items;
      var v := SubstituteAll(e, scope, items[n]).value;
      assert !v.Omit? && done + [v] == items;
      assert done == items[..n] && v == items[n];
      UntouchedItems(e, scope, items[..n]);
    }
  }

  lemma {:induction false} UntouchedDrops(e: Evaluator, other: Scope, r: Tree)
    requires PrintsPlainly(e) && KeysTame(e, other, r) && SubstituteAll(e, other, r) == Some(r)
    ensures KeysDrop(e, other, r)
    decreases r
  {
    hide PrintsPlainly, SubstituteString, KeyTame, Opens;
    match r {
      case Map(m) =>
        UntouchedEntries(e, other, m);
        forall k | k in m ensures KeysDrop(e, other, m[k]) {
          UntouchedDrops(e, other, m[k]);
        }
      case List(items) =>
        UntouchedItems(e, other, items);
        forall i | 0 <= i < |items| ensures KeysDrop(e, other, items[i]) {
          UntouchedDrops(e, other, items[i]);
        }
      case _ =>
    }
  }

  /** Every key that opens an expression evaluates to the drop marker in the scope. */
  ghost predicate KeysDrop(e: Evaluator, scope: Scope, t: Tree)
    decreases t
  {
    match t
    case Map(m) => forall k :: k in m ==> KeySettled(e, scope, k, true) && KeysDrop(e, scope, m[k])
    case List(items) => forall i :: 0 <= i < |items| ==> KeysDrop(e, scope, items[i])
    case _ => true
  }

  lemma {:induction false} SettledElsewhere(e: Evaluator, scope: Scope, other: Scope, r: Tree)
    requires Settled(e, scope, r, true) && KeysDrop(e, other, r)
    ensures Settled(e, other, r, true)
    decreases r
  {
    hide KeySettled, Opens;
    match r {
      case Map(m) => forall k | k in m
          ensures Settled(e, other, m[k], true) { SettledElsewhere(e, scope, other, m[k]); }
      case List(items) =>
        forall i | 0 <= i < |items| ensures Settled(e, other, items[i], true) {
          SettledElsewhere(e, scope, other, items[i]);
        }
      case _ =>
    }
  }

  /** Main result: the keys that open an expression after one pass are those that
      evaluated to the drop marker, and a pass in another scope changes nothing
      exactly when every one of them evaluates to it there, too. */
  lemma SecondPassElsewhereIff(e: Evaluator, scope: Scope, other: Scope, t: Tree)
    requires PrintsPlainly(e) && Orderly(e, scope, t, true) && SubstituteAll(e, scope, t).Some?
    requires KeysTame(e, other, SubstituteAll(e, scope, t).value)
    ensures KeysDrop(e, scope, SubstituteAll(e, scope, t).value)
    ensures SubstituteAll(e, other, SubstituteAll(e, scope, t).value) == SubstituteAll(e, scope, t)
            <==> KeysDrop(e, other, SubstituteAll(e, scope, t).value)
  {
    hide PrintsPlainly, SubstituteAll, Settled, KeysDrop, KeysTame, Orderly;
    var r := SubstituteAll(e, scope, t).value;
    SubstitutedIsSettled(e, scope, t, true);
    SettledDrops(e, scope, r);
    if SubstituteAll(e, other, r) == Some(r) {
      UntouchedDrops(e, other, r);
    }
    if KeysDrop(e, other, r) {
      SettledElsewhere(e, scope, other, r);
      SettledIdentity(e, other, r, true);
    }
  }

  lemma {:induction false} SettledDrops(e: Evaluator, scope: Scope, r: Tree)
    requires Settled(e, scope, r, true)
    ensures KeysDrop(e, scope, r)
    decreases r
  {
    hide KeySettled, Opens;
    match r {
      case Map(m) => forall k | k in m ensures KeysDrop(e, scope, m[k]) { SettledDrops(e, scope, m[k]); }
      case List(items) => forall i | 0 <= i < |items|
          ensures KeysDrop(e, scope, items[i]) { SettledDrops(e, scope, items[i]); }
      case _ =>
    }
  }

  /** A key that evaluates to the drop marker is kept as it is written, so a later
      pass in another scope may evaluate it after all. */
  lemma DroppedKeyComesBack(e: Evaluator, scope: Scope, other: Scope, v: Tree)
    requires e.eval("x", scope) == Some(Omit) && e.eval("x", other) == Some(Str("name"))
    requires Quiet(v) && !v.Omit?
    ensures SubstituteAll(e, scope, Map(map["${x}" := v])) == Some(Map(map["${x}" := v]))
    ensures SubstituteAll(e, other, Map(map["${x}" := v])) == Some(Map(map["name" := v]))
  {
    hide SubstituteKey, Quiet;
    QuietIdentity(e, scope, v);
    QuietIdentity(e, other, v);
    LoneKey(e, scope);
    LoneKey(e, other);
    LoneEntry(e, scope, "${x}", v);
    LoneEntry(e, other, "${x}", v);
  }

  lemma LoneEntry(e: Evaluator, scope: Scope, k: string, v: Tree)
    requires SubstituteAll(e, scope, v) == Some(v) && !v.Omit? && SubstituteKey(e, scope, k).Some?
    ensures SubstituteAll(e, scope, Map(map[k := v])) == Some(Map(map[SubstituteKey(e, scope, k).value := v]))
  {
    hide SubstituteKey, SubstituteAll, Rekeyed;
    var x := SubstituteKey(e, scope, k).value;
    SubstitutedMap(e, scope, map[k := v], map[k := v], map[k := x]);
    OneKey(k, x, v);
  }

  lemma OneKey(k: string, x: string, v: Tree)
    ensures Rekeyed(map[k := v], map[k := x]) == map[x := v]
  {
    var keys := map[k := x];
    assert keys[k] == x;
    assert keys.Values == {x};
  }

  lemma SubstitutedMap(e: Evaluator, scope: Scope, m: map<string, Tree>, values: map<string, Tree>,
      keys: map<string, string>)
    requires forall k :: k in m ==> SubstituteAll(e, scope, m[k]).Some?
    requires forall k :: k in values <==> k in m && SubstituteAll(e, scope, m[k]) != Some(Omit)
    requires forall k :: k in values ==>
        SubstituteAll(e, scope, m[k]) == Some(values[k]) && SubstituteKey(e, scope, k).Some?
    requires keys.Keys == values.Keys && forall k :: k in keys ==> SubstituteKey(e, scope, k) == Some(keys[k])
    ensures SubstituteAll(e, scope, Map(m)) == Some(Map(Rekeyed(values, keys)))
  {
    hide SubstituteKey, Rekeyed;
    var kept := map k | k in m && SubstituteAll(e, scope, m[k]) != Some(Omit) :: SubstituteAll(e, scope, m[k]).value;
    assert kept == values;
    assert keys == map k | k in kept :: SubstituteKey(e, scope, k).value;
  }

  lemma LoneKey(e: Evaluator, scope: Scope)
    requires e.eval("x", scope).Some?
    ensures SubstituteKey(e, scope, "${x}") ==
            Some(if e.eval("x", scope).value.Omit? then "${x}" else Shown(e, e.eval("x", scope).value))
  {
    LoneExpression();
  }

  lemma LoneExpression()
    ensures IsSingle("${x}") && Inner("${x}") == "x"
  {
    var k := "${x}";
    assert TrimSpace(k) == k;
    assert S.OpensAt(k, 0);
    assert k[2..|k| - 1] == "x";
    assert !Opens("x");
  }
}
