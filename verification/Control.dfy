/** Control flow in template trees: conditions, loops, switches, bindings and merges. */
module Control {
  import opened Basics
  import opened Trees
  import opened Text
  import opened StringOrder
  import opened Substitute
  import S = Stash

  /** The evaluator, the text blocks, and the parser for merged text. */
  datatype Engine = Engine(e: Evaluator, text: (map<string, Tree>, Scope) -> Option<Tree>,
      parse: string -> Option<Tree>)

  const TEXT := "$text"
  const LET := "$let"
  const IF := "$if"
  const EACH := "$each"
  const SWITCH := "$switch"
  const MERGE := "$merge"

  function Truthy(v: Tree): bool {
    match v
    case Null => false
    case Bool(b) => b
    case Str(s) => s !in {"", "false", "False", "FALSE", "0", "no", "No", "NO"}
    case Int(n) => n != 0
    case Real(r) => r != 0.0
    case List(items) => items != []
    case Map(m) => m != map[]
    case Omit => true
  }

  /** A string is substituted, anything else stands for itself. */
  function Resolve(g: Engine, scope: Scope, v: Tree): Option<Tree> {
    if v.Str? then SubstituteString(g.e, scope, v.s) else Some(v)
  }

  // ----- merges -----

  function ParseMerge(g: Engine, v: Tree): Tree {
    if !v.Str? then v
    else if TrimSpace(v.s) == "" then Null
    else match g.parse(v.s) case None => v case Some(t) => t
  }

  function WithoutOmits(m: map<string, Tree>): map<string, Tree> {
    map k | k in m && !m[k].Omit? :: m[k]
  }

  datatype Merged = Merged(fields: map<string, Tree>, items: seq<Tree>)

  function MergeItems(g: Engine, scope: Scope, items: seq<Tree>): Option<Merged> {
    if items == [] then Some(Merged(map[], []))
    else
      match (MergeItems(g, scope, items[..|items| - 1]), Resolve(g, scope, items[|items| - 1]))
      case (Some(done), Some(v)) =>
        Some(match v
          case Null => done
          case Omit => done
          case Map(m) => done.(fields := done.fields + WithoutOmits(m))
          case List(more) => done.(items := done.items + more)
          case _ => done.(items := done.items + [v]))
      case _ => None
  }

  /** A map that holds a merge and nothing else. */
  function SoleMerge(g: Engine, scope: Scope, value: Tree): Option<Tree> {
    match Resolve(g, scope, value)
    case None => None
    case Some(v) =>
      match ParseMerge(g, v)
      case Null => Some(Omit)
      case List(items) =>
        (match MergeItems(g, scope, items)
         case None => None
         case Some(done) => Some(if done.items != []
             && done.fields == map[] then List(done.items) else Map(done.fields)))
      case other => Some(other)
  }

  /** Merges into the fields of a map. A list may hold expressions for further
      lists; at most n lists deep, since a value may well name itself. */
  function ApplyMerge(g: Engine, scope: Scope, fields: map<string, Tree>, value: Tree,
      n: nat): Option<map<string, Tree>>
    decreases n, 1, 0
  {
    match Resolve(g, scope, value)
    case None => None
    case Some(v) =>
      match ParseMerge(g, v)
      case Null => Some(fields)
      case Map(m) => Some(fields + WithoutOmits(m))
      case List(items) => if n == 0 then None else ApplyEach(g, scope, fields, items, n)
      case _ => None
  }

  function ApplyEach(g: Engine, scope: Scope, fields: map<string, Tree>, items: seq<Tree>,
      n: nat): Option<map<string, Tree>>
    requires n > 0
    decreases n, 0, |items|
  {
    if items == [] then Some(fields)
    else
      match ApplyEach(g, scope, fields, items[..|items| - 1], n)
      case None => None
      case Some(done) =>
        var item := items[|items| - 1];
        if item.Omit? || item.Null? then Some(done) else ApplyMerge(g, scope, done, item, n - 1)
  }

  function Present(items: seq<Tree>): seq<Tree> {
    if items == [] then []
    else
      var last := items[|items| - 1];
      Present(items[..|items| - 1]) + if last.Omit? || last.Null? then [] else [last]
  }

  /** A merge that stands alone in a list is spliced into it. */
  function Splice(g: Engine, scope: Scope, value: Tree): Option<seq<Tree>> {
    match Resolve(g, scope, value)
    case None => None
    case Some(v) =>
      match v
      case Null => Some([])
      case List(items) => Some(Present(items))
      case _ => Some([v])
  }

  predicate IsListMerge(item: Tree) {
    item.Map? && |item.fields| == 1 && MERGE in item.fields
  }

  // ----- directives -----

  const MERGE_DEPTH: nat := 1000

  ghost function Process(g: Engine, scope: Scope, t: Tree): Option<Tree>
    decreases t, 9, 0
  {
    match t
    case Map(m) =>
      if TEXT in m then g.text(m, scope)
      else if LET in m then ProcessLet(g, scope, t)
      else if IF in m then ProcessIf(g, scope, t)
      else if EACH in m then ProcessEach(g, scope, t)
      else if SWITCH in m then ProcessSwitch(g, scope, t)
      else ProcessFields(g, scope, t)
    case List(items) =>
      (match ProcessItems(g, scope, items) case None => None case Some(done) => Some(List(done)))
    case _ => Some(t)
  }

  ghost function ProcessFields(g: Engine, scope: Scope, t: Tree): Option<Tree>
    requires t.Map?
    decreases t, 8, 0
  {
    var m := t.fields;
    if exists k :: k in m && Process(g, scope, m[k]).None? then None
    else
      var result := map k | k in m && k != MERGE
          && Process(g, scope, m[k]) != Some(Omit) :: Process(g, scope, m[k]).value;
      var merged := if MERGE in m then Process(g, scope, m[MERGE]).value else Null;
      if merged.Null? || merged.Omit? then Some(Map(result))
      else if result == map[] then SoleMerge(g, scope, merged)
      else
        match ApplyMerge(g, scope, result, merged, MERGE_DEPTH)
        case None => None
        case Some(fields) => Some(Map(fields))
  }

  /** What one list item contributes. */
  ghost function ProcessItem(g: Engine, scope: Scope, item: Tree): Option<seq<Tree>>
    decreases item, 10, 0
  {
    match Process(g, scope, if IsListMerge(item) then item.fields[MERGE] else item)
    case None => None
    case Some(v) => if v.Omit? then Some([]) else if IsListMerge(item) then Splice(g, scope, v) else Some([v])
  }

  ghost function ProcessItems(g: Engine, scope: Scope, items: seq<Tree>): Option<seq<Tree>>
    decreases items, 8, 0
  {
    if items == [] then Some([])
    else Combined(ProcessItems(g, scope, items[..|items| - 1]), ProcessItem(g, scope, items[|items| - 1]))
  }

  ghost function ProcessLet(g: Engine, scope: Scope, t: Tree): Option<Tree>
    requires t.Map? && LET in t.fields
    decreases t, 8, 0
  {
    if !t.fields[LET].Map? || "$in" !in t.fields then None
    else
      match Bind(g, scope, t.fields[LET], SortedKeys(t.fields[LET].fields.Keys))
      case None => None
      case Some(scoped) =>
        match Process(g, scoped, t.fields["$in"])
        case None => None
        case Some(v) => SubstituteAll(g.e, scoped, v)
  }

  /** Bindings in name order, each seeing the ones before it, under its name and with a dollar sign. */
  ghost function Bind(g: Engine, scope: Scope, bindings: Tree, names: seq<string>): Option<Scope>
    requires bindings.Map?
    decreases bindings, 7, |names|
  {
    if names == [] then Some(scope)
    else
      var name := names[|names| - 1];
      match Bind(g, scope, bindings, names[..|names| - 1])
      case None => None
      case Some(scoped) =>
        if name !in bindings.fields then None
        else
          match Process(g, scoped, bindings.fields[name])
          case None => None
          case Some(v) =>
            match SubstituteAll(g.e, scoped, v)
            case None => None
            case Some(w) =>
              var value := if w.Omit? then Null else w;
              Some(if name != "" && name[0] == '$'
                  then scoped[name := value] else scoped[name := value]["$" + name := value])
  }

  ghost function ProcessIf(g: Engine, scope: Scope, t: Tree): Option<Tree>
    requires t.Map? && IF in t.fields
    decreases t, 8, 0
  {
    var m := t.fields;
    match Resolve(g, scope, m[IF])
    case None => None
    case Some(v) =>
      if "$then" in m then
        if Truthy(v) then Process(g, scope, m["$then"])
        else if "$else" in m then Process(g, scope, m["$else"])
        else Some(Omit)
      else if !Truthy(v) then Some(Omit)
      else if exists k :: k in m && k != IF && Process(g, scope, m[k]).None? then None
      else Some(Map(map k | k in m && k != IF :: Process(g, scope, m[k]).value))
  }

  ghost function ProcessEach(g: Engine, scope: Scope, t: Tree): Option<Tree>
    requires t.Map? && EACH in t.fields
    decreases t, 8, 0
  {
    var m := t.fields;
    var name := if "$as" in m then Shown(g.e, m["$as"]) else "$item";
    match Resolve(g, scope, m[EACH])
    case None => None
    case Some(v) =>
      if "$yield" !in m then None
      else if v.Null? then Some(Omit)
      else if v.List? || v.Map? then
        match Yields(g, m["$yield"], Scopes(scope, name, v))
        case None => None
        case Some(done) => Some(List(done))
      else None
  }

  /** One scope per item; a map is gone through in key order. */
  ghost function Scopes(scope: Scope, name: string, v: Tree): seq<Scope>
    requires v.List? || v.Map?
  {
    if v.List? then seq(|v.items|, i requires 0 <= i < |v.items| => scope[name := v.items[i]])
    else EntryScopes(scope, name, v.fields, SortedKeys(v.fields.Keys))
  }

  ghost function EntryScopes(scope: Scope, name: string, m: map<string, Tree>, keys: seq<string>): seq<Scope> {
    if keys == [] then []
    else
      var k := keys[|keys| - 1];
      var v := if k in m then m[k] else Null;
      EntryScopes(scope, name, m, keys[..|keys| - 1])
      + [scope[name := Map(map["key" := Str(k), "value" := v])]["$key" := Str(k)]["$value" := v]]
  }

  /** What the loop body contributes in one scope: lists are joined, dropped values left out. */
  ghost function Contribution(g: Engine, body: Tree, scoped: Scope): Option<seq<Tree>>
    decreases body, 10, 0
  {
    match Process(g, scoped, body)
    case None => None
    case Some(v) =>
      match SubstituteAll(g.e, scoped, v)
      case None => None
      case Some(w) => Some(if w.Omit? then [] else if w.List? then w.items else [w])
  }

  function Combined(a: Option<seq<Tree>>, b: Option<seq<Tree>>): Option<seq<Tree>> {
    match (a, b) case (Some(x), Some(y)) => Some(x + y) case _ => None
  }

  /** The loop body once per scope. */
  ghost function Yields(g: Engine, body: Tree, scopes: seq<Scope>): Option<seq<Tree>>
    decreases body, 11, |scopes|
  {
    if scopes == [] then Some([])
    else Combined(Yields(g, body, scopes[..|scopes| - 1]), Contribution(g, body, scopes[|scopes| - 1]))
  }

  ghost function ProcessSwitch(g: Engine, scope: Scope, t: Tree): Option<Tree>
    requires t.Map? && SWITCH in t.fields
    decreases t, 8, 0
  {
    var m := t.fields;
    match Resolve(g, scope, m[SWITCH])
    case None => None
    case Some(v) =>
      if "$cases" !in m || !m["$cases"].Map? then None
      else
        var cases := m["$cases"].fields;
        if Shown(g.e, v) in cases then Process(g, scope, cases[Shown(g.e, v)])
        else if "$default" in m then Process(g, scope, m["$default"])
        else Some(Omit)
  }

  // ----- laws -----

  predicate Undirected(m: map<string, Tree>) {
    TEXT !in m && LET !in m && IF !in m && EACH !in m && SWITCH !in m
  }

  /** Main result: a field that drops itself leaves the map as if the field had never been written. */
  lemma DroppedFieldVanishes(g: Engine, scope: Scope, m: map<string, Tree>, k: string)
    requires k in m && Process(g, scope, m[k]) == Some(Omit) && Undirected(m)
    ensures Process(g, scope, Map(m)) == Process(g, scope, Map(m - {k}))
  {
    hide Resolve, SoleMerge, ApplyMerge;
    var rest := m - {k};
    assert Undirected(rest);
    FieldsWithout(g, scope, m, k);
    assert Process(g, scope, Map(m)) == ProcessFields(g, scope, Map(m));
    assert Process(g, scope, Map(rest)) == ProcessFields(g, scope, Map(rest));
  }

  ghost function ResultFields(g: Engine, scope: Scope, m: map<string, Tree>): map<string, Tree>
    requires forall k :: k in m ==> Process(g, scope, m[k]).Some?
  {
    map k | k in m && k != MERGE && Process(g, scope, m[k]) != Some(Omit) :: Process(g, scope, m[k]).value
  }

  lemma FieldsWithout(g: Engine, scope: Scope, m: map<string, Tree>, k: string)
    requires k in m && Process(g, scope, m[k]) == Some(Omit)
    ensures ProcessFields(g, scope, Map(m)) == ProcessFields(g, scope, Map(m - {k}))
  {
    hide Process, SoleMerge, ApplyMerge;
    var rest := m - {k};
    assert forall x :: x in m && x != k ==> x in rest && rest[x] == m[x];
    if forall x :: x in m ==> Process(g, scope, m[x]).Some? {
      assert ResultFields(g, scope, m) == ResultFields(g, scope, rest);
    } else {
      var x :| x in m && Process(g, scope, m[x]).None?;
      assert x in rest;
    }
  }

  lemma CombinedNothing(a: Option<seq<Tree>>)
    ensures Combined(a, Some([])) == a && Combined(Some([]), a) == a
  {
    if a.Some? { assert a.value + [] == a.value && [] + a.value == a.value; }
  }

  lemma OneName(name: string)
    ensures SortedKeys({name}) == [name]
  {
    assert Least({name}) == name;
    assert {name} - {name} == {};
  }

  /** What a loop makes of the result of its body. */
  function AsItems(v: Option<Tree>): Option<Tree> {
    match v
    case None => None
    case Some(w) => Some(List(if w.Omit? then [] else if w.List? then w.items else [w]))
  }

  /** Main result: a loop over a list of one is a binding of its one item. */
  lemma LoopOfOneIsBinding(g: Engine, scope: Scope, name: string, v: Tree, body: Tree)
    requires name != "" && name[0] == '$' && !v.Omit?
    requires Process(g, scope, v) == Some(v) && SubstituteAll(g.e, scope, v) == Some(v)
    ensures Process(g, scope, Map(map[EACH := List([v]), "$as" := Str(name), "$yield" := body])) ==
            AsItems(Process(g, scope, Map(map[LET := Map(map[name := v]), "$in" := body])))
  {
    var scoped := scope[name := v];
    LoopOfOne(g, scope, name, v, body);
    BindingOfOne(g, scope, name, v, body);
  }

  lemma LoopOfOne(g: Engine, scope: Scope, name: string, v: Tree, body: Tree)
    ensures Process(g, scope, Map(map[EACH := List([v]), "$as" := Str(name), "$yield" := body])) ==
            AsItems(match Process(g, scope[name := v], body) case None => None case Some(w) => SubstituteAll(g.e,
                scope[name := v], w))
  {
    hide Contribution;
    var loop := map[EACH := List([v]), "$as" := Str(name), "$yield" := body];
    var scoped := scope[name := v];
    assert Process(g, scope, Map(loop)) == ProcessEach(g, scope, Map(loop));
    assert Resolve(g, scope, List([v])) == Some(List([v]));
    var scopes := Scopes(scope, name, List([v]));
    assert scopes == [scoped];
    OneScope(g, body, scoped);
    ContributionMeaning(g, body, scoped);
  }

  lemma OneScope(g: Engine, body: Tree, scoped: Scope)
    ensures Yields(g, body, [scoped]) == Contribution(g, body, scoped)
  {
    hide Contribution;
    assert [scoped][..0] == [];
    CombinedNothing(Contribution(g, body, scoped));
  }

  lemma ContributionMeaning(g: Engine, body: Tree, scoped: Scope)
    ensures (match Contribution(g, body, scoped) case None => None case Some(done) => Some(List(done))) ==
            AsItems(match Process(g, scoped, body) case None => None case Some(w) => SubstituteAll(g.e, scoped, w))
  {
    hide SubstituteAll, Process;
  }

  lemma BindingOfOne(g: Engine, scope: Scope, name: string, v: Tree, body: Tree)
    requires name != "" && name[0] == '$' && !v.Omit?
    requires Process(g, scope, v) == Some(v) && SubstituteAll(g.e, scope, v) == Some(v)
    ensures Process(g, scope, Map(map[LET := Map(map[name := v]), "$in" := body])) ==
            match Process(g, scope[name := v], body) case None => None case Some(w) => SubstituteAll(g.e,
                scope[name := v], w)
  {
    hide SubstituteAll;
    var letting, bindings := map[LET := Map(map[name := v]), "$in" := body], Map(map[name := v]);
    assert Process(g, scope, Map(letting)) == ProcessLet(g, scope, Map(letting));
    assert bindings.fields.Keys == {name};
    OneName(name);
    assert [name][..0] == [];
    assert Bind(g, scope, bindings, [name][..0]) == Some(scope);
    assert Bind(g, scope, bindings, [name]) == Some(scope[name := v]);
  }

  // ----- the passes inside loops and bindings are final -----

  /** Fit for the substitution pass in this scope, with no key evaluating to the drop marker. */
  ghost predicate Fits(g: Engine, scope: Scope, t: Tree) {
    Orderly(g.e, scope, t, false)
  }

  /** The template's strings and keys that reach a substitution pass are well
      closed and tame in the scope that pass runs in, and so is what text blocks
      and parsed merges bring in. Nothing is asked of what is not reached. */
  ghost predicate Fair(g: Engine, scope: Scope, t: Tree)
    decreases t, 9, 0
  {
    match t
    case Str(_) => Fits(g, scope, t)
    case Map(m) =>
      if TEXT in m then g.text(m, scope).Some? ==> Fits(g, scope, g.text(m, scope).value)
      else if LET in m then FairLet(g, scope, t)
      else if IF in m then FairIf(g, scope, t)
      else if EACH in m then FairEach(g, scope, t)
      else if SWITCH in m then FairSwitch(g, scope, t)
      else FairFields(g, scope, t)
    case List(items) =>
      forall i :: 0 <= i < |items| ==>
        Fair(g, scope, if IsListMerge(items[i]) then items[i].fields[MERGE] else items[i])
    case _ => true
  }

  ghost predicate FairField(g: Engine, scope: Scope, k: string, v: Tree)
    decreases v, 10, 0
  {
    && Fair(g, scope, v)
    && (Process(g, scope, v).Some? && SubstituteAll(g.e, scope, Process(g, scope, v).value) != Some(Omit)
        ==> KeyOrderly(g.e, scope, k, false))
  }

  ghost predicate FairFields(g: Engine, scope: Scope, t: Tree)
    requires t.Map?
    decreases t, 8, 0
  {
    var m := t.fields;
    && (forall k :: k in m && k != MERGE ==> FairField(g, scope, k, m[k]))
    && (MERGE in m ==> Fair(g, scope, m[MERGE]))
    && (MERGE in m && (forall k :: k in m ==> Process(g, scope, m[k]).Some?) ==>
          FairMerge(g, scope, Process(g, scope, m[MERGE]).value, if ResultFields(g, scope, m) == map[]
              then 0 else MERGE_DEPTH))
  }

  /** What parsing the merged text gives is fit, for every text parsed on the way. */
  ghost predicate FairMerge(g: Engine, scope: Scope, value: Tree, n: nat)
    decreases n
  {
    var r := Resolve(g, scope, value);
    r.Some? ==>
      var v := ParseMerge(g, r.value);
      && (r.value.Str? ==> Fits(g, scope, v))
      && (v.List? && n > 0 ==>
            forall i :: 0 <= i < |v.items| && !v.items[i].Omit? && !v.items[i].Null? ==>
                FairMerge(g, scope, v.items[i], n - 1))
  }

  ghost predicate FairLet(g: Engine, scope: Scope, t: Tree)
    requires t.Map? && LET in t.fields
    decreases t, 8, 0
  {
    t.fields[LET].Map? && "$in" in t.fields ==>
      var scoped := Bind(g, scope, t.fields[LET], SortedKeys(t.fields[LET].fields.Keys));
      scoped.Some? ==> Fair(g, scoped.value, t.fields["$in"])
  }

  ghost predicate FairIf(g: Engine, scope: Scope, t: Tree)
    requires t.Map? && IF in t.fields
    decreases t, 8, 0
  {
    var m := t.fields;
    var v := Resolve(g, scope, m[IF]);
    v.Some? ==>
      if "$then" in m then
        if Truthy(v.value) then Fair(g, scope, m["$then"]) else "$else" in m ==> Fair(g, scope, m["$else"])
      else
        Truthy(v.value) ==> forall k :: k in m && k != IF ==> FairField(g, scope, k, m[k])
  }

  ghost predicate FairEach(g: Engine, scope: Scope, t: Tree)
    requires t.Map? && EACH in t.fields
    decreases t, 8, 0
  {
    var m := t.fields;
    var name := if "$as" in m then Shown(g.e, m["$as"]) else "$item";
    var v := Resolve(g, scope, m[EACH]);
    v.Some? && "$yield" in m && (v.value.List? || v.value.Map?) ==>
      forall scoped :: scoped in Scopes(scope, name, v.value) ==> Fair(g, scoped, m["$yield"])
  }

  ghost predicate FairSwitch(g: Engine, scope: Scope, t: Tree)
    requires t.Map? && SWITCH in t.fields
    decreases t, 8, 0
  {
    var m := t.fields;
    var v := Resolve(g, scope, m[SWITCH]);
    v.Some? && "$cases" in m && m["$cases"].Map? ==>
      var cases := m["$cases"].fields;
      if Shown(g.e, v.value) in cases then Fair(g, scope, cases[Shown(g.e, v.value)])
      else "$default" in m ==> Fair(g, scope, m["$default"])
  }

  lemma {:induction false} QuietFits(g: Engine, scope: Scope, t: Tree)
    requires Quiet(t)
    ensures Fits(g, scope, t)
    decreases t
  {
    hide SubstituteAll, SubstituteString, Opens, Closed, StringTame;
    match t {
      case Str(s) => QuietStringFits(g.e, scope, s);
      case Map(m) => forall k | k in m ensures Fits(g, scope, m[k]) { QuietFits(g, scope, m[k]); }
      case List(items) => forall i | 0 <= i < |items|
          ensures Fits(g, scope, items[i]) { QuietFits(g, scope, items[i]); }
      case _ =>
    }
  }

  lemma QuietStringFits(e: Evaluator, scope: Scope, s: string)
    requires !Opens(s)
    ensures Closed(s) && StringTame(e, scope, s)
  {
    TrimOpens(s);
    forall i: nat | i < |s| ensures !EscapesAt(s, i) {
      if EscapesAt(s, i) { assert S.OpensAt(s, i + 1); }
    }
    NothingToClose(e, scope, s, 0);
  }

  lemma {:induction false} NothingToClose(e: Evaluator, scope: Scope, s: string, i: nat)
    requires !Opens(s) && i <= |s|
    ensures ClosedFrom(s, i) && TameFrom(e, scope, s, i)
    decreases |s| - i
  {
    if i < |s| {
      assert !S.OpensAt(s, i);
      NothingToClose(e, scope, s, i + 1);
    }
  }

  lemma SubstitutedFits(g: Engine, scoped: Scope, v: Tree, scope: Scope)
    requires PrintsPlainly(g.e) && Fits(g, scoped, v) && SubstituteAll(g.e, scoped, v).Some?
    ensures Quiet(SubstituteAll(g.e, scoped, v).value) && Fits(g, scope, SubstituteAll(g.e, scoped, v).value)
  {
    hide Quiet;
    SubstitutedIsQuiet(g.e, scoped, v);
    QuietFits(g, scope, SubstituteAll(g.e, scoped, v).value);
  }

  lemma ResolveFits(g: Engine, scope: Scope, v: Tree)
    requires PrintsPlainly(g.e) && Fits(g, scope, v) && Resolve(g, scope, v).Some?
    ensures Fits(g, scope, Resolve(g, scope, v).value)
  {
    hide Quiet, Closed, StringTame, SubstituteString;
    if v.Str? {
      StringBecomesQuiet(g.e, scope, v.s);
      QuietFits(g, scope, Resolve(g, scope, v).value);
    }
  }

  /** What a merge applies is fit. */
  lemma ParsedFits(g: Engine, scope: Scope, v: Tree, n: nat)
    requires PrintsPlainly(g.e) && Fits(g, scope, v) && FairMerge(g, scope, v, n) && Resolve(g, scope, v).Some?
    ensures Fits(g, scope, ParseMerge(g, Resolve(g, scope, v).value))
  {
    hide Fits, Resolve;
    ResolveFits(g, scope, v);
  }

  lemma OverlaidFits(g: Engine, scope: Scope, a: map<string, Tree>, b: map<string, Tree>)
    requires Fits(g, scope, Map(a)) && Fits(g, scope, Map(b))
    ensures Fits(g, scope, Map(a + WithoutOmits(b)))
  {
    hide SubstituteAll, KeyOrderly;
    var all := a + WithoutOmits(b);
    forall k | k in all
      ensures Fits(g, scope, all[k])
      ensures SubstituteAll(g.e, scope, all[k]) != Some(Omit) ==> KeyOrderly(g.e, scope, k, false)
    {
      if k in WithoutOmits(b) { assert all[k] == b[k]; } else { assert all[k] == a[k]; }
    }
  }

  ghost predicate AllFit(g: Engine, scope: Scope, items: seq<Tree>) {
    forall i :: 0 <= i < |items| ==> Fits(g, scope, items[i])
  }

  lemma {:induction false} MergedItemsFit(g: Engine, scope: Scope, items: seq<Tree>)
    requires PrintsPlainly(g.e) && AllFit(g, scope, items) && MergeItems(g, scope, items).Some?
    ensures Fits(g, scope, Map(MergeItems(g, scope, items).value.fields))
    ensures AllFit(g, scope, MergeItems(g, scope, items).value.items)
    decreases |items|
  {
    hide Resolve, SubstituteAll, KeyOrderly, PrintsPlainly;
    if items != [] {
      var n := |items| - 1;
      MergedItemsFit(g, scope, items[..n]);
      ResolveFits(g, scope, items[n]);
      var done, v := MergeItems(g, scope, items[..n]).value, Resolve(g, scope, items[n]).value;
      if v.Map? { OverlaidFits(g, scope, done.fields, v.fields); }
    }
  }

  lemma SoleMergeFits(g: Engine, scope: Scope, value: Tree, n: nat)
    requires PrintsPlainly(g.e) && Fits(g, scope, value) && FairMerge(g, scope, value, n)
        && SoleMerge(g, scope, value).Some?
    ensures Fits(g, scope, SoleMerge(g, scope, value).value)
  {
    hide Resolve, SubstituteAll, KeyOrderly, PrintsPlainly, FairMerge, ParseMerge, MergeItems;
    ParsedFits(g, scope, value, n);
    var v := ParseMerge(g, Resolve(g, scope, value).value);
    if v.List? { MergedItemsFit(g, scope, v.items); }
  }

  lemma {:induction false} ApplyMergeFits(g: Engine, scope: Scope, fields: map<string, Tree>, value: Tree, n: nat)
    requires PrintsPlainly(g.e) && Fits(g, scope, Map(fields)) && Fits(g, scope, value) && FairMerge(g, scope, value, n)
    requires ApplyMerge(g, scope, fields, value, n).Some?
    ensures Fits(g, scope, Map(ApplyMerge(g, scope, fields, value, n).value))
    decreases n, 1, 0
  {
    hide Resolve, SubstituteAll, KeyOrderly, PrintsPlainly, ParseMerge, Fits;
    ParsedFits(g, scope, value, n);
    var v := ParseMerge(g, Resolve(g, scope, value).value);
    if v.Map? {
      OverlaidFits(g, scope, fields, v.fields);
    } else if v.List? {
      ListFits(g, scope, v.items);
      ApplyEachFits(g, scope, fields, v.items, n);
    }
  }

  lemma ListFits(g: Engine, scope: Scope, items: seq<Tree>)
    ensures Fits(g, scope, List(items)) <==> AllFit(g, scope, items)
  {
  }

  lemma {:induction false} ApplyEachFits(g: Engine, scope: Scope, fields: map<string, Tree>, items: seq<Tree>, n: nat)
    requires n > 0 && PrintsPlainly(g.e) && Fits(g, scope, Map(fields)) && AllFit(g, scope, items)
    requires forall i :: 0 <= i < |items| && !items[i].Omit? && !items[i].Null? ==> FairMerge(g, scope, items[i], n - 1)
    requires ApplyEach(g, scope, fields, items, n).Some?
    ensures Fits(g, scope, Map(ApplyEach(g, scope, fields, items, n).value))
    decreases n, 0, |items|
  {
    hide PrintsPlainly, Fits, FairMerge, ApplyMerge;
    if items != [] {
      var last := |items| - 1;
      ApplyEachFits(g, scope, fields, items[..last], n);
      if !items[last].Omit? && !items[last].Null? {
        ApplyMergeFits(g, scope, ApplyEach(g, scope, fields, items[..last], n).value, items[last], n - 1);
      }
    }
  }

  lemma {:induction false} PresentFits(g: Engine, scope: Scope, items: seq<Tree>)
    requires AllFit(g, scope, items)
    ensures AllFit(g, scope, Present(items))
    decreases |items|
  {
    hide Fits;
    if items != [] { PresentFits(g, scope, items[..|items| - 1]); }
  }

  lemma SpliceFits(g: Engine, scope: Scope, v: Tree)
    requires PrintsPlainly(g.e) && Fits(g, scope, v) && Splice(g, scope, v).Some?
    ensures AllFit(g, scope, Splice(g, scope, v).value)
  {
    hide Resolve, Fits;
    ResolveFits(g, scope, v);
    var w := Resolve(g, scope, v).value;
    if w.List? {
      ListFits(g, scope, w.items);
      PresentFits(g, scope, w.items);
    }
  }

  /** Main result: what processing returns is fit for the pass that follows it. */
  lemma {:induction false} ProcessedFits(g: Engine, scope: Scope, t: Tree)
    requires PrintsPlainly(g.e) && Fair(g, scope, t) && Process(g, scope, t).Some?
    ensures Fits(g, scope, Process(g, scope, t).value)
    decreases t, 9, 0
  {
    hide PrintsPlainly, FairLet, FairIf, FairEach, FairSwitch, FairFields, SubstituteAll, KeyOrderly;
    hide ProcessLet, ProcessIf, ProcessEach, ProcessSwitch, ProcessFields, Closed, StringTame;
    match t {
      case Map(m) =>
        if TEXT in m {
        } else if LET in m {
          LetFits(g, scope, t);
        } else if IF in m {
          IfFits(g, scope, t);
        } else if EACH in m {
          EachFits(g, scope, t);
        } else if SWITCH in m {
          SwitchFits(g, scope, t);
        } else {
          FieldsFit(g, scope, t);
        }
      case List(items) =>
        ItemsFit(g, scope, items);
        ListFits(g, scope, ProcessItems(g, scope, items).value);
      case _ =>
    }
  }

  lemma {:induction false} LetFits(g: Engine, scope: Scope, t: Tree)
    requires t.Map? && LET in t.fields
    requires PrintsPlainly(g.e) && FairLet(g, scope, t) && ProcessLet(g, scope, t).Some?
    ensures Quiet(ProcessLet(g, scope, t).value) && Fits(g, scope, ProcessLet(g, scope, t).value)
    decreases t, 8, 0
  {
    hide PrintsPlainly, Fair, Process, SubstituteAll, Fits, Quiet, Bind;
    var scoped := Bind(g, scope, t.fields[LET], SortedKeys(t.fields[LET].fields.Keys)).value;
    ProcessedFits(g, scoped, t.fields["$in"]);
    SubstitutedFits(g, scoped, Process(g, scoped, t.fields["$in"]).value, scope);
  }

  lemma {:induction false} FieldFits(g: Engine, scope: Scope, k: string, v: Tree)
    requires PrintsPlainly(g.e) && FairField(g, scope, k, v) && Process(g, scope, v).Some?
    ensures Fits(g, scope, Process(g, scope, v).value)
    ensures SubstituteAll(g.e, scope, Process(g, scope, v).value) != Some(Omit) ==> KeyOrderly(g.e, scope, k, false)
    decreases v, 10, 0
  {
    hide PrintsPlainly, Fair, Process, SubstituteAll, KeyOrderly, Fits;
    ProcessedFits(g, scope, v);
  }

  lemma FitMap(g: Engine, scope: Scope, r: map<string, Tree>)
    requires forall k :: k in r ==> Fits(g, scope, r[k])
    requires forall k :: k in r ==> SubstituteAll(g.e, scope, r[k]) != Some(Omit) ==> KeyOrderly(g.e, scope, k, false)
    ensures Fits(g, scope, Map(r))
  {
    hide SubstituteAll, KeyOrderly;
  }

  lemma {:induction false} IfFits(g: Engine, scope: Scope, t: Tree)
    requires t.Map? && IF in t.fields
    requires PrintsPlainly(g.e) && FairIf(g, scope, t) && ProcessIf(g, scope, t).Some?
    ensures Fits(g, scope, ProcessIf(g, scope, t).value)
    decreases t, 8, 0
  {
    hide PrintsPlainly, Fair, FairField, Process, SubstituteAll, KeyOrderly, Fits, Resolve;
    var m, v := t.fields, Resolve(g, scope, t.fields[IF]).value;
    OmitFits(g, scope);
    if "$then" in m {
      if Truthy(v) {
        ProcessedFits(g, scope, m["$then"]);
      } else if "$else" in m {
        ProcessedFits(g, scope, m["$else"]);
      }
    } else if Truthy(v) {
      forall k | k in m && k != IF
        ensures Fits(g, scope, Process(g, scope, m[k]).value)
        ensures SubstituteAll(g.e, scope, Process(g, scope, m[k]).value) != Some(Omit) ==>
            KeyOrderly(g.e, scope, k, false)
      {
        FieldFits(g, scope, k, m[k]);
      }
      FitMap(g, scope, ProcessIf(g, scope, t).value.fields);
    }
  }

  lemma OmitFits(g: Engine, scope: Scope)
    ensures Fits(g, scope, Omit)
  {
  }

  lemma {:induction false} EachFits(g: Engine, scope: Scope, t: Tree)
    requires t.Map? && EACH in t.fields
    requires PrintsPlainly(g.e) && FairEach(g, scope, t) && ProcessEach(g, scope, t).Some?
    ensures Quiet(ProcessEach(g, scope, t).value) && Fits(g, scope, ProcessEach(g, scope, t).value)
    decreases t, 8, 0
  {
    hide PrintsPlainly, Fair, Fits, Resolve, Yields, Scopes;
    var m, v := t.fields, Resolve(g, scope, t.fields[EACH]).value;
    OmitFits(g, scope);
    if v.List? || v.Map? {
      var name := if "$as" in m then Shown(g.e, m["$as"]) else "$item";
      YieldsAreQuiet(g, m["$yield"], Scopes(scope, name, v));
      QuietFits(g, scope, ProcessEach(g, scope, t).value);
    }
  }

  lemma {:induction false} YieldsAreQuiet(g: Engine, body: Tree, scopes: seq<Scope>)
    requires PrintsPlainly(g.e) && Yields(g, body, scopes).Some?
    requires forall scoped :: scoped in scopes ==> Fair(g, scoped, body)
    ensures Quiet(List(Yields(g, body, scopes).value))
    decreases body, 11, |scopes|
  {
    hide PrintsPlainly, Process, SubstituteAll, Fair, Fits;
    if scopes != [] {
      var n := |scopes| - 1;
      var scoped := scopes[n];
      YieldsAreQuiet(g, body, scopes[..n]);
      ProcessedFits(g, scoped, body);
      SubstitutedFits(g, scoped, Process(g, scoped, body).value, scoped);
    }
  }

  lemma {:induction false} SwitchFits(g: Engine, scope: Scope, t: Tree)
    requires t.Map? && SWITCH in t.fields
    requires PrintsPlainly(g.e) && FairSwitch(g, scope, t) && ProcessSwitch(g, scope, t).Some?
    ensures Fits(g, scope, ProcessSwitch(g, scope, t).value)
    decreases t, 8, 0
  {
    hide PrintsPlainly, Fair, Process, Fits, Resolve;
    var m, v := t.fields, Resolve(g, scope, t.fields[SWITCH]).value;
    OmitFits(g, scope);
    if Shown(g.e, v) in m["$cases"].fields {
      ProcessedFits(g, scope, m["$cases"].fields[Shown(g.e, v)]);
    } else if "$default" in m {
      ProcessedFits(g, scope, m["$default"]);
    }
  }

  lemma {:induction false} FieldsFit(g: Engine, scope: Scope, t: Tree)
    requires t.Map?
    requires PrintsPlainly(g.e) && FairFields(g, scope, t) && ProcessFields(g, scope, t).Some?
    ensures Fits(g, scope, ProcessFields(g, scope, t).value)
    decreases t, 8, 0
  {
    hide PrintsPlainly, Fair, FairField, FairMerge, Process, SubstituteAll, KeyOrderly, Fits, SoleMerge, ApplyMerge;
    var m := t.fields;
    var result := ResultFields(g, scope, m);
    forall k | k in result
      ensures Fits(g, scope, result[k])
      ensures SubstituteAll(g.e, scope, result[k]) != Some(Omit) ==> KeyOrderly(g.e, scope, k, false)
    {
      FieldFits(g, scope, k, m[k]);
    }
    FitMap(g, scope, result);
    if MERGE in m {
      var merged := Process(g, scope, m[MERGE]).value;
      ProcessedFits(g, scope, m[MERGE]);
      if !merged.Null? && !merged.Omit? {
        if result == map[] {
          SoleMergeFits(g, scope, merged, 0);
        } else {
          ApplyMergeFits(g, scope, result, merged, MERGE_DEPTH);
        }
      }
    }
  }

  lemma {:induction false} ItemsFit(g: Engine, scope: Scope, items: seq<Tree>)
    requires PrintsPlainly(g.e) && Fair(g, scope, List(items)) && ProcessItems(g, scope, items).Some?
    ensures AllFit(g, scope, ProcessItems(g, scope, items).value)
    decreases items, 8, 0
  {
    hide PrintsPlainly, Process, Fits, Splice;
    if items != [] {
      var n := |items| - 1;
      var item := items[n];
      var source := if IsListMerge(item) then item.fields[MERGE] else item;
      assert Fair(g, scope, source);
      assert Fair(g, scope, List(items[..n])) by {
        assert forall i :: 0 <= i < n ==> items[..n][i] == items[i];
      }
      ItemsFit(g, scope, items[..n]);
      ProcessedFits(g, scope, source);
      var v := Process(g, scope, source).value;
      if !v.Omit? && IsListMerge(item) { SpliceFits(g, scope, v); }
    }
  }

  /** Main result: the pass inside a binding or a loop is final: another pass over
      its result, in whatever scope, changes nothing. */
  lemma InnerPassIsFinal(g: Engine, scope: Scope, m: map<string, Tree>, e: Evaluator, other: Scope)
    requires TEXT !in m && (LET in m || (IF !in m && EACH in m))
    requires PrintsPlainly(g.e) && Fair(g, scope, Map(m)) && Process(g, scope, Map(m)).Some?
    ensures SubstituteAll(e, other, Process(g, scope, Map(m)).value) == Process(g, scope, Map(m))
  {
    hide PrintsPlainly, FairLet, FairEach, ProcessLet, ProcessEach, Quiet, SubstituteAll, Fits;
    if LET in m { LetFits(g, scope, Map(m)); } else { EachFits(g, scope, Map(m)); }
    QuietIdentity(e, other, Process(g, scope, Map(m)).value);
  }

  /** A looked-up value is fair exactly when it is free of dollar signs: the
      condition is on the value found in this scope, not on the evaluator. */
  lemma LookupIsFairIff(g: Engine, scope: Scope, v: Tree)
    requires g.e.eval("x", scope) == Some(v)
    ensures Fair(g, scope, Str("${x}")) <==> v.Omit? || DollarFree(v)
  {
    hide TrimSpace, DollarFree;
    var s := "${x}";
    LoneExpression();
    assert S.CloseFrom(s, 3, 1, false, false) == Some(4);
    assert S.CloseFrom(s, 2, 1, false, false) == Some(4);
    assert S.OpensAt(s, 0);
    assert ClosedFrom(s, 4);
    assert Fair(g, scope, Str(s)) <==> Closed(s) && StringTame(g.e, scope, s);
  }
}
