/** Rendering one template document: includes, control flow, substitution, cleaning. */
module Render {
  import opened Basics
  import opened Trees
  import opened Substitute
  import opened Control
  import Include

  const MAX_NESTING := 200

  const DIRECTIVES := {
    "$if", "$then", "$else", "$each", "$as", "$yield", "$switch", "$cases", "$default", "$include",
    "$merge", "$text", "$let", "$in", "$join", "$indent", "$item", "$key", "$value", "$hook"}

  predicate DepthExceeds(t: Tree, max: int)
    decreases t
  {
    max < 0
    || match t
       case Map(m) => exists k :: k in m && DepthExceeds(m[k], max - 1)
       case List(items) => exists i :: 0 <= i < |items| && DepthExceeds(items[i], max - 1)
       case _ => false
  }

  /** Drops directive keys and dropped values; other keys that start with a dollar sign stay. */
  function Clean(t: Tree): Tree {
    match t
    case Map(m) => Map(map k | k in m && k !in DIRECTIVES && !m[k].Omit? :: Clean(m[k]))
    case List(items) => List(CleanItems(items))
    case _ => t
  }

  function CleanItems(items: seq<Tree>): seq<Tree> {
    if items == [] then []
    else
      var last := items[|items| - 1];
      CleanItems(items[..|items| - 1]) + if last.Omit? then [] else [Clean(last)]
  }

  /** None for an error; Null for a document that is dropped. */
  ghost function Rendered(g: Engine, scope: Scope, partials: Include.Partials, doc: Tree): Option<Tree> {
    if doc.Null? then Some(Null)
    else if DepthExceeds(doc, MAX_NESTING) then None
    else
      match Include.Expand(doc, partials, Include.MAX_DEPTH)
      case None => None
      case Some(resolved) =>
        match Process(g, scope, resolved)
        case None => None
        case Some(processed) =>
          if processed.Null? || processed.Omit? then Some(Null)
          else
            match SubstituteAll(g.e, scope, processed)
            case None => None
            case Some(substituted) => Some(if substituted.Omit? then Null else Clean(substituted))
  }

  // ----- what comes out is clean -----

  /** No directive key and nothing to be dropped, at any depth. */
  predicate Plain(t: Tree) {
    match t
    case Map(m) => forall k :: k in m ==> k !in DIRECTIVES && Plain(m[k])
    case List(items) => forall i :: 0 <= i < |items| ==> Plain(items[i])
    case Omit => false
    case _ => true
  }

  lemma {:induction false} CleanIsPlain(t: Tree)
    requires !t.Omit?
    ensures Plain(Clean(t))
    decreases t, 1
  {
    match t {
      case Map(m) =>
        forall k | k in Clean(t).fields ensures k !in DIRECTIVES && Plain(Clean(t).fields[k]) {
          CleanIsPlain(m[k]);
        }
      case List(items) => CleanItemsPlain(items);
      case _ =>
    }
  }

  lemma {:induction false} CleanItemsPlain(items: seq<Tree>)
    ensures forall i :: 0 <= i < |CleanItems(items)| ==> Plain(CleanItems(items)[i])
    decreases items, 0
  {
    if items != [] {
      CleanItemsPlain(items[..|items| - 1]);
      if !items[|items| - 1].Omit? { CleanIsPlain(items[|items| - 1]); }
    }
  }

  lemma {:induction false} PlainStaysClean(t: Tree)
    requires Plain(t)
    ensures Clean(t) == t
    decreases t, 1
  {
    match t {
      case Map(m) =>
        forall k | k in m ensures Clean(m[k]) == m[k] {
          PlainStaysClean(m[k]);
        }
        assert Clean(t).fields == m;
      case List(items) => PlainItemsStay(items);
      case _ =>
    }
  }

  lemma {:induction false} PlainItemsStay(items: seq<Tree>)
    requires forall i :: 0 <= i < |items| ==> Plain(items[i])
    ensures CleanItems(items) == items
    decreases items, 0
  {
    if items != [] {
      PlainItemsStay(items[..|items| - 1]);
      PlainStaysClean(items[|items| - 1]);
      assert items[..|items| - 1] + [items[|items| - 1]] == items;
    }
  }

  /** Main result: cleaning is the identity exactly on trees that are clean, so it does its work in one pass. */
  lemma CleanIffPlain(t: Tree)
    requires !t.Omit?
    ensures Clean(t) == t <==> Plain(t)
    ensures Clean(Clean(t)) == Clean(t)
  {
    CleanIsPlain(t);
    PlainStaysClean(Clean(t));
    if Plain(t) { PlainStaysClean(t); }
  }

  /** The keys that do not survive, by name. */
  lemma CleanedKeys(m: map<string, Tree>, k: string)
    ensures Clean(Map(m)).Map?
    ensures k in Clean(Map(m)).fields <==>
      && k in m && !m[k].Omit?
      && k !in {"$if", "$then", "$else", "$each", "$as", "$yield", "$switch", "$cases", "$default", "$include"}
      && k !in {"$merge", "$text", "$let", "$in", "$join", "$indent", "$item", "$key", "$value", "$hook"}
    ensures k in Clean(Map(m)).fields ==> Clean(Map(m)).fields[k] == Clean(m[k])
  {
  }

  /** Main result: whatever the template says, the output holds no directive and nothing to be dropped. */
  lemma OutputIsPlain(g: Engine, scope: Scope, partials: Include.Partials, doc: Tree)
    requires Rendered(g, scope, partials, doc).Some?
    ensures Plain(Rendered(g, scope, partials, doc).value)
  {
    if !doc.Null? {
      var processed := Process(g, scope, Include.Expand(doc, partials, Include.MAX_DEPTH).value).value;
      if !processed.Null? && !processed.Omit? {
        var substituted := SubstituteAll(g.e, scope, processed).value;
        if !substituted.Omit? { CleanIsPlain(substituted); }
      }
    }
  }

  // ----- plain documents are left alone -----

  lemma {:induction false} PlainExpands(t: Tree, partials: Include.Partials, n: nat)
    requires Plain(t)
    ensures Include.Expand(t, partials, n) == Some(t)
    decreases t
  {
    match t {
      case Map(m) =>
        forall k | k in m ensures Include.Expand(m[k], partials, n) == Some(m[k]) {
          PlainExpands(m[k], partials, n);
        }
        assert Include.INCLUDE in DIRECTIVES;
        assert Include.Expand(t, partials, n).value.fields == m;
      case List(items) =>
        forall i | 0 <= i < |items| ensures Include.Expand(items[i], partials, n) == Some(items[i]) {
          PlainExpands(items[i], partials, n);
        }
        assert Include.Expand(t, partials, n).value.items == items;
      case _ =>
    }
  }

  lemma {:induction false} PlainProcesses(g: Engine, scope: Scope, t: Tree)
    requires Plain(t)
    ensures Process(g, scope, t) == Some(t)
    decreases t, 1
  {
    match t {
      case Map(m) =>
        forall k | k in m ensures Process(g, scope, m[k]) == Some(m[k]) && !m[k].Omit? {
          PlainProcesses(g, scope, m[k]);
        }
        NoDirectives(m);
        FieldsUntouched(g, scope, m);
      case List(items) => PlainItemsProcess(g, scope, items);
      case _ =>
    }
  }

  lemma NoDirectives(m: map<string, Tree>)
    requires forall k :: k in m ==> k !in DIRECTIVES
    ensures TEXT !in m && LET !in m && IF !in m && EACH !in m && SWITCH !in m && MERGE !in m
  {
  }

  lemma FieldsUntouched(g: Engine, scope: Scope, m: map<string, Tree>)
    requires MERGE !in m && forall k :: k in m ==> Process(g, scope, m[k]) == Some(m[k]) && !m[k].Omit?
    ensures ProcessFields(g, scope, Map(m)) == Some(Map(m))
  {
    hide Process;
    assert ProcessFields(g, scope, Map(m)).value.fields == m;
  }

  lemma {:induction false} PlainItemsProcess(g: Engine, scope: Scope, items: seq<Tree>)
    requires forall i :: 0 <= i < |items| ==> Plain(items[i])
    ensures ProcessItems(g, scope, items) == Some(items)
    decreases items, 0
  {
    if items != [] {
      var item := items[|items| - 1];
      PlainItemsProcess(g, scope, items[..|items| - 1]);
      PlainProcesses(g, scope, item);
      assert !IsListMerge(item) by {
        if item.Map? { NoDirectives(item.fields); }
      }
      assert items[..|items| - 1] + [item] == items;
    }
  }

  lemma {:induction false} PlainQuiet(t: Tree)
    requires Plain(t) && Silent(t)
    ensures Quiet(t)
    decreases t
  {
    match t {
      case Map(m) => forall k | k in m ensures !m[k].Omit? && Quiet(m[k]) { PlainQuiet(m[k]); }
      case List(items) => forall i | 0 <= i < |items|
          ensures !items[i].Omit? && Quiet(items[i]) { PlainQuiet(items[i]); }
      case _ =>
    }
  }

  /** No string or key opens an expression. */
  predicate Silent(t: Tree) {
    match t
    case Str(s) => !Opens(s)
    case Map(m) => forall k :: k in m ==> !Opens(k) && Silent(m[k])
    case List(items) => forall i :: 0 <= i < |items| ==> Silent(items[i])
    case _ => true
  }

  /** Main result: within the nesting limit a document without directives and
      expressions is rendered to itself, with every other key it has. */
  lemma RenderIsIdentity(g: Engine, scope: Scope, partials: Include.Partials, doc: Tree)
    requires Plain(doc) && Silent(doc) && !DepthExceeds(doc, MAX_NESTING)
    ensures Rendered(g, scope, partials, doc) == Some(doc)
  {
    hide Process, SubstituteAll, Clean, Include.Expand;
    PlainExpands(doc, partials, Include.MAX_DEPTH);
    PlainProcesses(g, scope, doc);
    PlainQuiet(doc);
    QuietIdentity(g.e, scope, doc);
    PlainStaysClean(doc);
    PlainIsNoOmit(doc);
  }

  lemma PlainIsNoOmit(t: Tree)
    requires Plain(t)
    ensures !t.Omit?
  {
  }

  /** Main result: rendering output again, under any values and partials, changes nothing. */
  lemma RenderingAgain(g: Engine, scope: Scope, partials: Include.Partials, doc: Tree, h: Engine, other: Scope,
      others: Include.Partials)
    requires Rendered(g, scope, partials, doc).Some?
    requires Silent(Rendered(g, scope, partials, doc).value)
        && !DepthExceeds(Rendered(g, scope, partials, doc).value, MAX_NESTING)
    ensures Rendered(h, other, others, Rendered(g, scope, partials, doc).value) == Rendered(g, scope, partials, doc)
  {
    OutputIsPlain(g, scope, partials, doc);
    RenderIsIdentity(h, other, others, Rendered(g, scope, partials, doc).value);
  }

  /** The template with its includes resolved is fair in this scope. */
  ghost predicate FairDocument(g: Engine, scope: Scope, partials: Include.Partials, doc: Tree) {
    var resolved := Include.Expand(doc, partials, Include.MAX_DEPTH);
    resolved.Some? ==> Fair(g, scope, resolved.value)
  }

  lemma {:induction false} CleanStaysSilent(t: Tree)
    requires Quiet(t)
    ensures Silent(Clean(t))
    decreases t, 1
  {
    hide Opens;
    match t {
      case Map(m) =>
        forall k | k in Clean(t).fields ensures Silent(Clean(t).fields[k]) {
          CleanStaysSilent(m[k]);
        }
      case List(items) => CleanItemsSilent(items);
      case _ =>
    }
  }

  lemma {:induction false} CleanItemsSilent(items: seq<Tree>)
    requires forall i :: 0 <= i < |items| ==> Quiet(items[i])
    ensures forall i :: 0 <= i < |CleanItems(items)| ==> Silent(CleanItems(items)[i])
    decreases items, 0
  {
    hide Quiet, Silent;
    if items != [] {
      CleanItemsSilent(items[..|items| - 1]);
      CleanStaysSilent(items[|items| - 1]);
    }
  }

  /** Main result: a fair template leaves no expression in its output. */
  lemma OutputIsSilent(g: Engine, scope: Scope, partials: Include.Partials, doc: Tree)
    requires PrintsPlainly(g.e) && FairDocument(g, scope, partials, doc)
    requires Rendered(g, scope, partials, doc).Some?
    ensures Silent(Rendered(g, scope, partials, doc).value)
  {
    hide PrintsPlainly, Fair, Process, SubstituteAll, Clean, Quiet, Include.Expand, DepthExceeds;
    if !doc.Null? {
      var resolved := Include.Expand(doc, partials, Include.MAX_DEPTH).value;
      var processed := Process(g, scope, resolved).value;
      if !processed.Null? && !processed.Omit? {
        ProcessedFits(g, scope, resolved);
        SubstitutedFits(g, scope, processed, scope);
        CleanStaysSilent(SubstituteAll(g.e, scope, processed).value);
      }
    }
  }

  /** Main result: rendering the output of a fair template again, under any values
      and partials, changes nothing: every expression has been evaluated for good. */
  lemma RenderingIsFinal(g: Engine, scope: Scope, partials: Include.Partials, doc: Tree, h: Engine, other: Scope,
      others: Include.Partials)
    requires PrintsPlainly(g.e) && FairDocument(g, scope, partials, doc)
    requires Rendered(g, scope, partials, doc).Some?
        && !DepthExceeds(Rendered(g, scope, partials, doc).value, MAX_NESTING)
    ensures Rendered(h, other, others, Rendered(g, scope, partials, doc).value) == Rendered(g, scope, partials, doc)
  {
    hide PrintsPlainly, FairDocument, Rendered, Silent;
    OutputIsSilent(g, scope, partials, doc);
    RenderingAgain(g, scope, partials, doc, h, other, others);
  }

  // ----- the nesting limit -----

  /** A path of child steps into the tree. */
  ghost predicate Descends(t: Tree, depth: nat)
    decreases depth
  {
    depth == 0
    || match t
       case Map(m) => exists k :: k in m && Descends(m[k], depth - 1)
       case List(items) => exists i :: 0 <= i < |items| && Descends(items[i], depth - 1)
       case _ => false
  }

  /** The check that stops one level below the limit is exact. */
  lemma {:induction false} DepthIsExact(t: Tree, max: nat)
    ensures DepthExceeds(t, max) <==> Descends(t, max + 1)
    decreases t
  {
    match t {
      case Map(m) =>
        forall k | k in m ensures DepthExceeds(m[k], max - 1) <==> Descends(m[k], max) {
          if max > 0 { DepthIsExact(m[k], max - 1); }
        }
      case List(items) =>
        forall i | 0 <= i < |items| ensures DepthExceeds(items[i], max - 1) <==> Descends(items[i], max) {
          if max > 0 { DepthIsExact(items[i], max - 1); }
        }
      case _ =>
    }
  }

  /** Main result: a document with a path of more than 200 steps is refused, whatever it says. */
  lemma TooDeepIsRefused(g: Engine, scope: Scope, partials: Include.Partials, doc: Tree)
    requires Descends(doc, 201)
    ensures Rendered(g, scope, partials, doc).None?
  {
    DepthIsExact(doc, 200);
    assert !doc.Null?;
  }
}
