/** What each directive decides, and what it does not depend on. */
module ControlLaws {
  import opened Basics
  import opened Trees
  import opened Text
  import opened StringOrder
  import opened Substitute
  import opened Control

  /** A string comes to what it is substituted with, anything else to itself. */
  ghost function Value(g: Engine, scope: Scope, t: Tree): Option<Tree> {
    if t.Str? then SubstituteAll(g.e, scope, t) else Some(t)
  }

  // ----- conditions -----

  const FALSY: set<Tree> := {
    Null, Bool(false), Int(0), Real(0.0), List([]), Map(map[]),
    Str(""), Str("false"), Str("False"), Str("FALSE"), Str("0"), Str("no"), Str("No"), Str("NO")
  }

  lemma TruthyIff(v: Tree)
    ensures Truthy(v) <==> v !in FALSY
  {
  }

  predicate IsIf(m: map<string, Tree>) {
    TEXT !in m && LET !in m && IF in m
  }

  lemma IfIsProcessed(g: Engine, scope: Scope, m: map<string, Tree>)
    requires IsIf(m)
    ensures Process(g, scope, Map(m)) == ProcessIf(g, scope, Map(m))
    ensures Resolve(g, scope, m[IF]) == Value(g, scope, m[IF])
  {
    hide ProcessIf, SubstituteString;
  }

  /** Main result: a condition that comes to one of the falsy values takes
      `$else`, every other one takes `$then`. */
  lemma BranchTaken(g: Engine, scope: Scope, m: map<string, Tree>, v: Tree)
    requires IsIf(m) && "$then" in m && Value(g, scope, m[IF]) == Some(v)
    ensures v !in FALSY ==> Process(g, scope, Map(m)) == Process(g, scope, m["$then"])
    ensures v in FALSY ==>
      Process(g, scope, Map(m)) == if "$else" in m then Process(g, scope, m["$else"]) else Some(Omit)
  {
    hide Truthy, FALSY, Value, Resolve, Process;
    IfIsProcessed(g, scope, m);
    TruthyIff(v);
  }

  /** Main result: the branch not taken does not matter: it may be anything, fail, or be missing. */
  lemma OtherBranchIsIrrelevant(g: Engine, scope: Scope, m: map<string, Tree>, v: Tree, other: Tree)
    requires IsIf(m) && "$then" in m && Value(g, scope, m[IF]) == Some(v)
    ensures v !in FALSY ==> Process(g, scope, Map(m["$else" := other])) == Process(g, scope, Map(m))
    ensures v !in FALSY ==> Process(g, scope, Map(m - {"$else"})) == Process(g, scope, Map(m))
    ensures v in FALSY ==> Process(g, scope, Map(m["$then" := other])) == Process(g, scope, Map(m))
  {
    hide FALSY, Value, Process;
    BranchTaken(g, scope, m, v);
    BranchTaken(g, scope, m["$else" := other], v);
    BranchTaken(g, scope, m - {"$else"}, v);
    BranchTaken(g, scope, m["$then" := other], v);
  }

  /** Without `$then` the condition keeps or drops the map it stands in. */
  lemma BlockKept(g: Engine, scope: Scope, m: map<string, Tree>, v: Tree, out: map<string, Tree>)
    requires IsIf(m) && "$then" !in m && Value(g, scope, m[IF]) == Some(v)
    requires out.Keys == m.Keys - {IF}
    ensures v in FALSY ==> Process(g, scope, Map(m)) == Some(Omit)
    ensures v !in FALSY ==>
      (Process(g, scope, Map(m)) == Some(Map(out)) <==>
       forall k :: k in out ==> Process(g, scope, m[k]) == Some(out[k]))
    ensures v !in FALSY && Process(g, scope, Map(m)).None? ==>
      exists k :: k in m && k != IF && Process(g, scope, m[k]).None?
  {
    hide Truthy, FALSY, Value, Resolve, Process;
    IfIsProcessed(g, scope, m);
    TruthyIff(v);
    if forall k :: k in out ==> Process(g, scope, m[k]) == Some(out[k]) {
      assert out == map k | k in m && k != IF :: Process(g, scope, m[k]).value;
    }
  }

  /** A condition that cannot be evaluated is an error. */
  lemma ConditionFails(g: Engine, scope: Scope, m: map<string, Tree>)
    requires IsIf(m) && Value(g, scope, m[IF]).None?
    ensures Process(g, scope, Map(m)).None?
  {
    hide Value, Resolve, Process;
    IfIsProcessed(g, scope, m);
  }

  // ----- choices -----

  predicate IsSwitch(m: map<string, Tree>) {
    TEXT !in m && LET !in m && IF !in m && EACH !in m && SWITCH in m && "$cases" in m && m["$cases"].Map?
  }

  lemma SwitchIsProcessed(g: Engine, scope: Scope, m: map<string, Tree>)
    requires IsSwitch(m)
    ensures Process(g, scope, Map(m)) == ProcessSwitch(g, scope, Map(m))
    ensures Resolve(g, scope, m[SWITCH]) == Value(g, scope, m[SWITCH])
  {
    hide ProcessSwitch, SubstituteString;
  }

  /** Main result: a choice takes the case its value is written as, and `$default` when there is none. */
  lemma CaseTaken(g: Engine, scope: Scope, m: map<string, Tree>, v: Tree)
    requires IsSwitch(m) && Value(g, scope, m[SWITCH]) == Some(v)
    ensures var cases, key := m["$cases"].fields, if v.Str? then v.s else g.e.format(v);
            Process(g, scope, Map(m)) ==
              if key in cases then Process(g, scope, cases[key])
              else if "$default" in m then Process(g, scope, m["$default"])
              else Some(Omit)
  {
    hide Value, Resolve, Process;
    SwitchIsProcessed(g, scope, m);
  }

  /** Main result: cases not taken do not matter, nor does the default where a case is taken. */
  lemma OtherCasesAreIrrelevant(g: Engine, scope: Scope, m: map<string, Tree>, v: Tree, key: string,
      others: map<string, Tree>, other: Tree)
    requires IsSwitch(m) && Value(g, scope, m[SWITCH]) == Some(v)
    requires key == if v.Str? then v.s else g.e.format(v)
    requires key in others <==> key in m["$cases"].fields
    requires key in others ==> others[key] == m["$cases"].fields[key]
    ensures Process(g, scope, Map(m["$cases" := Map(others)])) == Process(g, scope, Map(m))
    ensures key in others ==> Process(g, scope, Map(m["$default" := other])) == Process(g, scope, Map(m))
  {
    hide Value, Process;
    CaseTaken(g, scope, m, v);
    CaseTaken(g, scope, m["$cases" := Map(others)], v);
    CaseTaken(g, scope, m["$default" := other], v);
  }

  // ----- loops -----

  function Loop(source: Tree, name: string, body: Tree): Tree {
    Map(map[EACH := source, "$as" := Str(name), "$yield" := body])
  }

  /** Two lists in a row, if there are two. */
  function InARow(a: Option<Tree>, b: Option<Tree>): Option<Tree> {
    match (a, b)
    case (Some(List(x)), Some(List(y))) => Some(List(x + y))
    case _ => None
  }

  lemma {:induction false} YieldsAppend(g: Engine, body: Tree, xs: seq<Scope>, ys: seq<Scope>)
    ensures Yields(g, body, xs + ys) == Combined(Yields(g, body, xs), Yields(g, body, ys))
    decreases |ys|
  {
    hide Contribution;
    if ys == [] {
      assert xs + ys == xs;
      CombinedNothing(Yields(g, body, xs));
    } else {
      var n := |ys| - 1;
      assert (xs + ys)[..|xs + ys| - 1] == xs + ys[..n];
      YieldsAppend(g, body, xs, ys[..n]);
      CombinedTwice(Yields(g, body, xs), Yields(g, body, ys[..n]), Contribution(g, body, ys[n]));
    }
  }

  lemma CombinedTwice(a: Option<seq<Tree>>, b: Option<seq<Tree>>, c: Option<seq<Tree>>)
    ensures Combined(Combined(a, b), c) == Combined(a, Combined(b, c))
  {
    if a.Some? && b.Some? && c.Some? { assert a.value + b.value + c.value == a.value + (b.value + c.value); }
  }

  function Listed(a: Option<seq<Tree>>): Option<Tree> {
    match a case None => None case Some(x) => Some(List(x))
  }

  lemma LoopIsYields(g: Engine, scope: Scope, v: Tree, name: string, body: Tree)
    requires v.List? || v.Map?
    ensures Process(g, scope, Loop(v, name, body)) == Listed(Yields(g, body, Scopes(scope, name, v)))
  {
    hide Yields, Scopes;
    var m := Loop(v, name, body).fields;
    assert Process(g, scope, Map(m)) == ProcessEach(g, scope, Map(m));
  }

  lemma ListedRow(a: Option<seq<Tree>>, b: Option<seq<Tree>>)
    ensures Listed(Combined(a, b)) == InARow(Listed(a), Listed(b))
  {
  }

  /** Main result: a loop keeps the order of its items: going through two lists
      in a row gives the two results in a row. */
  lemma LoopsInARow(g: Engine, scope: Scope, xs: seq<Tree>, ys: seq<Tree>, name: string, body: Tree)
    ensures Process(g, scope, Loop(List(xs + ys), name, body)) ==
            InARow(Process(g, scope, Loop(List(xs), name, body)), Process(g, scope, Loop(List(ys), name, body)))
    ensures Process(g, scope, Loop(List([]), name, body)) == Some(List([]))
  {
    hide Process, Yields;
    LoopIsYields(g, scope, List(xs), name, body);
    LoopIsYields(g, scope, List(ys), name, body);
    LoopIsYields(g, scope, List(xs + ys), name, body);
    LoopIsYields(g, scope, List([]), name, body);
    var a, b := Scopes(scope, name, List(xs)), Scopes(scope, name, List(ys));
    assert Scopes(scope, name, List(xs + ys)) == a + b;
    YieldsAppend(g, body, a, b);
    ListedRow(Yields(g, body, a), Yields(g, body, b));
    assert Scopes(scope, name, List([])) == [];
    NoYields(g, body);
  }

  lemma NoYields(g: Engine, body: Tree)
    ensures Yields(g, body, []) == Some([])
  {
  }

  lemma {:induction false} SameEntryScopes(scope: Scope, name: string, m: map<string, Tree>, n: map<string, Tree>,
      keys: seq<string>)
    requires forall k :: k in keys ==> k in m && k in n && m[k] == n[k]
    ensures EntryScopes(scope, name, m, keys) == EntryScopes(scope, name, n, keys)
    decreases |keys|
  {
    if keys != [] { SameEntryScopes(scope, name, m, n, keys[..|keys| - 1]); }
  }

  /** What the body of a loop sees of one entry. */
  function EntryScope(scope: Scope, name: string, k: string, v: Tree): Scope {
    scope[name := Map(map["key" := Str(k), "value" := v])]["$key" := Str(k)]["$value" := v]
  }

  lemma OneEntry(scope: Scope, name: string, k: string, v: Tree)
    ensures Scopes(scope, name, Map(map[k := v])) == [EntryScope(scope, name, k, v)]
  {
    OneName(k);
    assert map[k := v].Keys == {k};
    EntrySnoc(scope, name, map[k := v], [], k);
  }

  lemma EntrySnoc(scope: Scope, name: string, m: map<string, Tree>, ks: seq<string>, k: string)
    requires k in m
    ensures EntryScopes(scope, name, m, ks + [k]) ==
            EntryScopes(scope, name, m, ks) + [EntryScope(scope, name, k, m[k])]
    ensures EntryScopes(scope, name, m, []) == []
  {
    assert (ks + [k])[..|ks|] == ks;
  }

  lemma LastEntry(scope: Scope, name: string, m: map<string, Tree>, k: string)
    requires k in m && forall x :: x in m ==> LessEq(x, k)
    ensures Scopes(scope, name, Map(m)) == Scopes(scope, name, Map(m - {k})) + Scopes(scope, name, Map(map[k := m[k]]))
  {
    hide LessEq, EntryScopes, EntryScope, SortedKeys;
    var ks := SortedKeys(m.Keys - {k});
    GreatestIsLast(m.Keys, k);
    KeysListed(m.Keys - {k});
    assert (m - {k}).Keys == m.Keys - {k};
    EntrySnoc(scope, name, m, ks, k);
    SameEntryScopes(scope, name, m, m - {k}, ks);
    OneEntry(scope, name, k, m[k]);
  }

  /** Main result: a loop over a map goes by its keys, the greatest comes last. */
  lemma GreatestKeyComesLast(g: Engine, scope: Scope, m: map<string, Tree>, k: string, name: string, body: Tree)
    requires k in m && forall x :: x in m ==> LessEq(x, k)
    ensures Process(g, scope, Loop(Map(m), name, body)) ==
            InARow(Process(g, scope, Loop(Map(m - {k}), name, body)),
                   Process(g, scope, Loop(Map(map[k := m[k]]), name, body)))
  {
    hide Process, Yields, Scopes, LessEq;
    LoopIsYields(g, scope, Map(m), name, body);
    LoopIsYields(g, scope, Map(m - {k}), name, body);
    LoopIsYields(g, scope, Map(map[k := m[k]]), name, body);
    LastEntry(scope, name, m, k);
    var a, b := Scopes(scope, name, Map(m - {k})), Scopes(scope, name, Map(map[k := m[k]]));
    YieldsAppend(g, body, a, b);
    ListedRow(Yields(g, body, a), Yields(g, body, b));
  }

  /** A part of a template is processed and then substituted in the same scope. */
  ghost function Evaluated(g: Engine, scope: Scope, t: Tree): Option<Tree> {
    match Process(g, scope, t) case None => None case Some(v) => SubstituteAll(g.e, scope, v)
  }

  /** A loop over one entry: the body sees the key, the value, and both under the name. */
  lemma LoopOfEntry(g: Engine, scope: Scope, k: string, v: Tree, name: string, body: Tree)
    ensures Process(g, scope, Loop(Map(map[k := v]), name, body)) ==
            AsItems(Evaluated(g, EntryScope(scope, name, k, v), body))
  {
    hide Process, Yields, SubstituteAll, Contribution, EntryScope, Scopes;
    var scoped := EntryScope(scope, name, k, v);
    LoopIsYields(g, scope, Map(map[k := v]), name, body);
    OneEntry(scope, name, k, v);
    OneScope(g, body, scoped);
    ContributionMeaning(g, body, scoped);
  }

  predicate IsEach(m: map<string, Tree>) {
    TEXT !in m && LET !in m && IF !in m && EACH in m && "$yield" in m
  }

  /** A loop over an expression is a loop over what it comes to: nothing at all
      leaves nothing, and anything but a list or a map is an error. */
  lemma LoopOverExpression(g: Engine, scope: Scope, m: map<string, Tree>, v: Tree)
    requires IsEach(m) && Value(g, scope, m[EACH]) == Some(v)
    ensures v.List? || v.Map? ==> Process(g, scope, Map(m)) == Process(g, scope, Map(m[EACH := v]))
    ensures v.Null? ==> Process(g, scope, Map(m)) == Some(Omit)
    ensures !v.List? && !v.Map? && !v.Null? ==> Process(g, scope, Map(m)).None?
  {
    hide Yields, Scopes, SubstituteString;
    assert Process(g, scope, Map(m)) == ProcessEach(g, scope, Map(m));
    assert Process(g, scope, Map(m[EACH := v])) == ProcessEach(g, scope, Map(m[EACH := v]));
    assert Resolve(g, scope, m[EACH]) == Some(v);
  }

  // ----- bindings -----

  /** The scope with a value under a name and under the name with a dollar sign. */
  function Named(scope: Scope, name: string, v: Tree): Scope {
    var value := if v.Omit? then Null else v;
    if name != "" && name[0] == '$' then scope[name := value] else scope[name := value]["$" + name := value]
  }

  /** scopes[i] is the scope before the binding of ks[i] is evaluated. */
  ghost predicate Chained(g: Engine, bindings: map<string, Tree>, ks: seq<string>, scopes: seq<Scope>) {
    && |scopes| == |ks| + 1
    && forall i: nat :: i < |ks| ==>
         && ks[i] in bindings && Evaluated(g, scopes[i], bindings[ks[i]]).Some?
         && scopes[i + 1] == Named(scopes[i], ks[i], Evaluated(g, scopes[i], bindings[ks[i]]).value)
  }

  lemma {:induction false} BindIsChain(g: Engine, bindings: map<string, Tree>, ks: seq<string>, scopes: seq<Scope>)
    requires Chained(g, bindings, ks, scopes)
    ensures Bind(g, scopes[0], Map(bindings), ks) == Some(scopes[|ks|])
    decreases |ks|
  {
    hide Process, SubstituteAll;
    if ks != [] {
      var n := |ks| - 1;
      assert Chained(g, bindings, ks[..n], scopes[..n + 1]);
      BindIsChain(g, bindings, ks[..n], scopes[..n + 1]);
    }
  }

  /** Main result: bindings are evaluated in the order of their names, each seeing
      the ones before it, and the body sees them all. */
  lemma BindingsInOrder(g: Engine, m: map<string, Tree>, ks: seq<string>, scopes: seq<Scope>)
    requires TEXT !in m && LET in m && m[LET].Map? && "$in" in m
    requires Sorted(ks) && Distinct(ks) && Elements(ks) == m[LET].fields.Keys
    requires Chained(g, m[LET].fields, ks, scopes)
    ensures Process(g, scopes[0], Map(m)) == Evaluated(g, scopes[|ks|], m["$in"])
  {
    hide Bind, Chained, SubstituteAll, Sorted, Distinct, Elements;
    SortedOnce(ks);
    assert |scopes| == |ks| + 1 by { ChainLength(g, m[LET].fields, ks, scopes); }
    BindIsChain(g, m[LET].fields, ks, scopes);
    assert Process(g, scopes[0], Map(m)) == ProcessLet(g, scopes[0], Map(m));
  }

  lemma ChainLength(g: Engine, bindings: map<string, Tree>, ks: seq<string>, scopes: seq<Scope>)
    requires Chained(g, bindings, ks, scopes)
    ensures |scopes| == |ks| + 1
  {
  }

  // ----- plain maps and lists -----

  /** What the entries of a plain map other than its merge come to, dropped ones left out. */
  ghost predicate Written(g: Engine, scope: Scope, m: map<string, Tree>, out: map<string, Tree>) {
    && (forall k :: k in m ==> Process(g, scope, m[k]).Some?)
    && (forall k :: k in out <==> k in m && k != MERGE && Process(g, scope, m[k]) != Some(Omit))
    && (forall k :: k in out ==> Process(g, scope, m[k]) == Some(out[k]))
  }

  lemma WrittenIsResult(g: Engine, scope: Scope, m: map<string, Tree>, out: map<string, Tree>)
    requires Written(g, scope, m, out)
    ensures out == ResultFields(g, scope, m)
  {
    hide Process;
  }

  lemma PlainIsProcessed(g: Engine, scope: Scope, m: map<string, Tree>)
    requires Undirected(m)
    ensures Process(g, scope, Map(m)) == ProcessFields(g, scope, Map(m))
  {
    hide ProcessFields;
  }

  /** A map without directives is processed entry by entry; an entry that fails is an error. */
  lemma PlainMap(g: Engine, scope: Scope, m: map<string, Tree>, out: map<string, Tree>)
    requires Undirected(m) && MERGE !in m
    ensures Process(g, scope, Map(m)) == Some(Map(out)) <==> Written(g, scope, m, out)
    ensures Process(g, scope, Map(m)).None? ==> exists k :: k in m && Process(g, scope, m[k]).None?
  {
    hide Process, SoleMerge, ApplyMerge;
    PlainIsProcessed(g, scope, m);
    if Written(g, scope, m, out) { WrittenIsResult(g, scope, m, out); }
  }

  /** The map laid over another: entries marked to be dropped do not count. */
  ghost predicate LaidOver(below: map<string, Tree>, above: map<string, Tree>, out: map<string, Tree>) {
    forall k ::
      && (k in above && above[k] != Omit ==> k in out && out[k] == above[k])
      && (!(k in above && above[k] != Omit) ==>
          (k in out <==> k in below) && (k in below && k in out ==> out[k] == below[k]))
  }

  /** outs[i] is the result after the first i maps, each laid over what was there. */
  ghost predicate Layers(maps: seq<Tree>, outs: seq<map<string, Tree>>) {
    && |outs| == |maps| + 1
    && forall i: nat :: i < |maps| ==> maps[i].Map? && LaidOver(outs[i], maps[i].fields, outs[i + 1])
  }

  lemma LaidIsPlus(below: map<string, Tree>, above: map<string, Tree>, out: map<string, Tree>)
    requires LaidOver(below, above, out)
    ensures out == below + WithoutOmits(above)
  {
    forall k ensures k in out <==> k in below + WithoutOmits(above) {}
  }

  lemma {:induction false} LayersAreApplied(g: Engine, scope: Scope, maps: seq<Tree>, outs: seq<map<string, Tree>>,
      n: nat)
    requires n > 0 && Layers(maps, outs)
    ensures ApplyEach(g, scope, outs[0], maps, n) == Some(outs[|maps|])
    decreases |maps|
  {
    hide LaidOver;
    if maps != [] {
      var last := |maps| - 1;
      assert Layers(maps[..last], outs[..last + 1]);
      LayersAreApplied(g, scope, maps[..last], outs[..last + 1], n);
      LaidIsPlus(outs[last], maps[last].fields, outs[last + 1]);
      assert ApplyMerge(g, scope, outs[last], maps[last], n - 1) == Some(outs[last] + WithoutOmits(maps[last].fields));
    }
  }

  /** Main result: what is merged into a map is laid over what is written there,
      one map or a list of maps, a later one over the ones before it. */
  lemma MergeOverrides(g: Engine, scope: Scope, m: map<string, Tree>, merged: Tree, outs: seq<map<string, Tree>>)
    requires Undirected(m) && MERGE in m && Process(g, scope, m[MERGE]) == Some(merged)
    requires merged.Map? || merged.List?
    requires Layers(if merged.Map? then [merged] else merged.items, outs)
    requires outs[0] != map[] && Written(g, scope, m, outs[0])
    ensures Process(g, scope, Map(m)) == Some(Map(outs[|outs| - 1]))
  {
    hide Process, LaidOver, ApplyEach, Written;
    PlainIsProcessed(g, scope, m);
    WrittenIsResult(g, scope, m, outs[0]);
    assert forall k :: k in m ==> Process(g, scope, m[k]).Some? by { AllProcessed(g, scope, m, outs[0]); }
    assert Resolve(g, scope, merged) == Some(merged) && ParseMerge(g, merged) == merged;
    if merged.Map? {
      LaidIsPlus(outs[0], merged.fields, outs[1]);
    } else {
      LayersAreApplied(g, scope, merged.items, outs, MERGE_DEPTH);
    }
  }

  lemma AllProcessed(g: Engine, scope: Scope, m: map<string, Tree>, out: map<string, Tree>)
    requires Written(g, scope, m, out)
    ensures forall k :: k in m ==> Process(g, scope, m[k]).Some?
  {
  }

  /** A merge of text merges what the text is parsed to, blank text nothing. */
  lemma MergedTextIsParsed(g: Engine, scope: Scope, m: map<string, Tree>, n: map<string, Tree>, s: string, x: string,
      t: Tree)
    requires Undirected(m) && MERGE in m && Process(g, scope, m[MERGE]) == Some(Str(s))
    requires SubstituteAll(g.e, scope, Str(s)) == Some(Str(x))
    requires MERGE in n && n - {MERGE} == m - {MERGE} && Process(g, scope, n[MERGE]) == Some(t)
    requires (TrimSpace(x) != "" && g.parse(x) == Some(t) && (t.Map? || t.List?)) || (TrimSpace(x) == "" && t == Null)
    requires exists k :: k in m && k != MERGE && Process(g, scope, m[k]).Some? && Process(g, scope, m[k]) != Some(Omit)
    ensures Process(g, scope, Map(m)) == Process(g, scope, Map(n))
  {
    hide Process, SoleMerge, ApplyMerge, SubstituteString, TrimSpace;
    forall k | k != MERGE ensures (k in m <==> k in n) && (k in m && k in n ==> m[k] == n[k]) {
      assert k in m - {MERGE} <==> k in n - {MERGE};
      if k in m && k in n { assert (m - {MERGE})[k] == (n - {MERGE})[k]; }
    }
    PlainIsProcessed(g, scope, m);
    PlainIsProcessed(g, scope, n);
    if forall k :: k in m ==> Process(g, scope, m[k]).Some? {
      assert ResultFields(g, scope, m) == ResultFields(g, scope, n);
      var w :| w in m && w != MERGE && Process(g, scope, m[w]) != Some(Omit);
      assert w in ResultFields(g, scope, m);
      SameMerge(g, scope, ResultFields(g, scope, m), Str(s), x, t);
    } else {
      var k :| k in m && Process(g, scope, m[k]).None?;
      assert k in n;
    }
  }

  lemma SameMerge(g: Engine, scope: Scope, fields: map<string, Tree>, v: Tree, x: string, t: Tree)
    requires v.Str? && SubstituteAll(g.e, scope, v) == Some(Str(x))
    requires (TrimSpace(x) != "" && g.parse(x) == Some(t) && (t.Map? || t.List?)) || (TrimSpace(x) == "" && t == Null)
    ensures ApplyMerge(g, scope, fields, v, MERGE_DEPTH) ==
            if t.Null? then Some(fields) else ApplyMerge(g, scope, fields, t, MERGE_DEPTH)
  {
    hide SubstituteString, TrimSpace, ApplyEach;
    assert Resolve(g, scope, v) == Some(Str(x));
    assert ParseMerge(g, Str(x)) == t;
  }

  /** rows[i] is the first i lists, one after the other. */
  ghost predicate Rows(lists: seq<Tree>, rows: seq<seq<Tree>>) {
    && |rows| == |lists| + 1
    && forall i: nat :: i < |lists| ==> lists[i].List? && rows[i + 1] == rows[i] + lists[i].items
  }

  lemma {:induction false} RowsAreMerged(g: Engine, scope: Scope, lists: seq<Tree>, rows: seq<seq<Tree>>)
    requires Rows(lists, rows) && rows[0] == []
    ensures MergeItems(g, scope, lists) == Some(Merged(map[], rows[|lists|]))
    decreases |lists|
  {
    if lists != [] {
      var last := |lists| - 1;
      assert Rows(lists[..last], rows[..last + 1]);
      RowsAreMerged(g, scope, lists[..last], rows[..last + 1]);
    }
  }

  lemma {:induction false} LayersAreMerged(g: Engine, scope: Scope, maps: seq<Tree>, outs: seq<map<string, Tree>>)
    requires Layers(maps, outs) && outs[0] == map[]
    ensures MergeItems(g, scope, maps) == Some(Merged(outs[|maps|], []))
    decreases |maps|
  {
    hide LaidOver;
    if maps != [] {
      var last := |maps| - 1;
      assert Layers(maps[..last], outs[..last + 1]);
      LayersAreMerged(g, scope, maps[..last], outs[..last + 1]);
      LaidIsPlus(outs[last], maps[last].fields, outs[last + 1]);
    }
  }

  lemma MergeIsSole(g: Engine, scope: Scope, t: Tree, merged: Tree)
    requires Process(g, scope, t) == Some(merged)
    ensures Process(g, scope, Map(map[MERGE := t])) ==
            if merged.Null? || merged.Omit? then Some(Map(map[])) else SoleMerge(g, scope, merged)
  {
    hide Process, SoleMerge, ApplyMerge;
    PlainIsProcessed(g, scope, map[MERGE := t]);
  }

  /** A merge with nothing written beside it is the map it merges, or maps laid one over the other. */
  lemma LoneMergeOfMaps(g: Engine, scope: Scope, t: Tree, merged: Tree, outs: seq<map<string, Tree>>)
    requires Process(g, scope, t) == Some(merged)
    ensures merged.Map? ==> Process(g, scope, Map(map[MERGE := t])) == Some(merged)
    ensures merged.Null? || merged.Omit? ==> Process(g, scope, Map(map[MERGE := t])) == Some(Map(map[]))
    ensures merged.List? && Layers(merged.items, outs) && outs[0] == map[] ==>
            Process(g, scope, Map(map[MERGE := t])) == Some(Map(outs[|merged.items|]))
  {
    hide Process, ApplyMerge, LaidOver;
    MergeIsSole(g, scope, t, merged);
    if merged.Map? { LoneMap(g, scope, merged); }
    if merged.List? && Layers(merged.items, outs) && outs[0] == map[] {
      LayersAreMerged(g, scope, merged.items, outs);
    }
  }

  /** Lists merged with nothing written beside them follow one another. */
  lemma LoneMergeOfLists(g: Engine, scope: Scope, t: Tree, lists: seq<Tree>, rows: seq<seq<Tree>>)
    requires Process(g, scope, t) == Some(List(lists)) && Rows(lists, rows) && rows[0] == [] && rows[|lists|] != []
    ensures Process(g, scope, Map(map[MERGE := t])) == Some(List(rows[|lists|]))
  {
    hide Process, ApplyMerge;
    MergeIsSole(g, scope, t, List(lists));
    RowsAreMerged(g, scope, lists, rows);
  }

  lemma LoneMap(g: Engine, scope: Scope, merged: Tree)
    requires merged.Map?
    ensures SoleMerge(g, scope, merged) == Some(merged)
  {
  }

  /** Two lists in a row are processed to the two results in a row, and an item
      is processed by itself unless it is dropped. */
  lemma {:induction false} ListsInARow(g: Engine, scope: Scope, xs: seq<Tree>, ys: seq<Tree>)
    ensures Process(g, scope, List(xs + ys)) == InARow(Process(g, scope, List(xs)), Process(g, scope, List(ys)))
    decreases |ys|
  {
    hide ProcessItem;
    if ys == [] {
      assert xs + ys == xs;
      CombinedNothing(ProcessItems(g, scope, xs));
    } else {
      var n := |ys| - 1;
      assert (xs + ys)[..|xs + ys| - 1] == xs + ys[..n];
      ListsInARow(g, scope, xs, ys[..n]);
      CombinedTwice(ProcessItems(g, scope, xs), ProcessItems(g, scope, ys[..n]), ProcessItem(g, scope, ys[n]));
    }
  }

  lemma ItemAlone(g: Engine, scope: Scope, item: Tree)
    requires !(item.Map? && item.fields.Keys == {MERGE})
    ensures Process(g, scope, List([item])) ==
      match Process(g, scope, item) case None => None case Some(v) => Some(List(if v.Omit? then [] else [v]))
  {
    hide Process;
    ListOfOne(g, scope, item);
    assert !IsListMerge(item) by { if IsListMerge(item) { OneKeyOnly(item.fields); } }
  }

  lemma ListOfOne(g: Engine, scope: Scope, item: Tree)
    ensures Process(g, scope, List([item])) == Listed(ProcessItem(g, scope, item))
  {
    hide Process, ProcessItem;
    ListIsItems(g, scope, [item]);
    assert [item][..0] == [];
    CombinedNothing(ProcessItem(g, scope, item));
  }

  lemma ListIsItems(g: Engine, scope: Scope, items: seq<Tree>)
    ensures Process(g, scope, List(items)) == Listed(ProcessItems(g, scope, items))
  {
  }

  lemma OneKeyOnly(m: map<string, Tree>)
    requires |m| == 1 && MERGE in m
    ensures m.Keys == {MERGE}
  {
    assert |m.Keys - {MERGE}| == 0;
  }

  /** A merge that is an item of its own puts the items of its list in its place. */
  lemma SplicedInPlace(g: Engine, scope: Scope, t: Tree, xs: seq<Tree>)
    requires Process(g, scope, t) == Some(List(xs))
    requires forall i :: 0 <= i < |xs| ==> !xs[i].Omit? && !xs[i].Null?
    ensures Process(g, scope, List([Map(map[MERGE := t])])) == Some(List(xs))
  {
    hide Process;
    var item := Map(map[MERGE := t]);
    ListOfOne(g, scope, item);
    AllPresent(xs);
  }

  lemma {:induction false} AllPresent(xs: seq<Tree>)
    requires forall i :: 0 <= i < |xs| ==> !xs[i].Omit? && !xs[i].Null?
    ensures Present(xs) == xs
    decreases |xs|
  {
    if xs != [] { AllPresent(xs[..|xs| - 1]); }
  }

  // ----- keys a directive does not read -----

  ghost predicate AgreeAt(m: map<string, Tree>, n: map<string, Tree>, ks: set<string>) {
    forall k :: k in ks ==> (k in m <==> k in n) && (k in m && k in n ==> m[k] == n[k])
  }

  /** The first directive decides, and nothing but its own keys matters to it. */
  lemma OnlyOwnKeysMatter(g: Engine, scope: Scope, m: map<string, Tree>, n: map<string, Tree>)
    requires TEXT !in m && TEXT !in n
    requires
      || (LET in m && AgreeAt(m, n, {LET, "$in"}))
      || (LET !in m && LET !in n && IF in m && "$then" in m && AgreeAt(m, n, {IF, "$then", "$else"}))
      || (LET !in m && LET !in n && IF !in m && EACH in m && AgreeAt(m, n, {IF, EACH, "$as", "$yield"}))
      || (LET !in m && LET !in n && IF !in m && EACH !in m && SWITCH in m
          && AgreeAt(m, n, {IF, EACH, SWITCH, "$cases", "$default"}))
    ensures Process(g, scope, Map(m)) == Process(g, scope, Map(n))
  {
    hide Process, Bind, Resolve, SubstituteAll, Yields, Scopes;
    DirectiveOf(g, scope, m);
    DirectiveOf(g, scope, n);
  }

  lemma DirectiveOf(g: Engine, scope: Scope, m: map<string, Tree>)
    requires TEXT !in m
    ensures LET in m ==> Process(g, scope, Map(m)) == ProcessLet(g, scope, Map(m))
    ensures LET !in m && IF in m ==> Process(g, scope, Map(m)) == ProcessIf(g, scope, Map(m))
    ensures LET !in m && IF !in m && EACH in m ==> Process(g, scope, Map(m)) == ProcessEach(g, scope, Map(m))
    ensures LET !in m && IF !in m && EACH !in m && SWITCH in m ==>
        Process(g, scope, Map(m)) == ProcessSwitch(g, scope, Map(m))
  {
    hide ProcessLet, ProcessIf, ProcessEach, ProcessSwitch;
  }
}
