/** Replacing `$include` directives by named partials. */
module Include {
  import opened Basics
  import opened Trees
  import opened Text

  const MAX_DEPTH: nat := 64
  const INCLUDE := "$include"

  type Partials = map<string, Tree>

  datatype Error = NotAString | Cycle | NotFound | TooDeep

  datatype Outcome = Resolved(tree: Tree) | Refused(error: Error)

  predicate Includes(node: Tree) {
    node.Map? && INCLUDE in node.fields
  }

  function Target(node: Tree): Option<string>
    requires Includes(node)
  {
    if node.fields[INCLUDE].Str? then Some(TrimSpace(node.fields[INCLUDE].s)) else None
  }

  // ----- the expansion without cycle detection -----

  /** A partial that is a map gets the other keys of the including map as they stand. */
  function Overridden(partial: Tree, node: Tree): Tree
    requires Includes(node)
  {
    if partial.Map? then Map(partial.fields + (node.fields - {INCLUDE})) else partial
  }

  /** Expands along at most n includes in a row. */
  function Expand(node: Tree, partials: Partials, n: nat): Option<Tree>
    decreases n, node
  {
    match node
    case Map(m) =>
      if Includes(node) then
        if Target(node).None? || Target(node).value !in partials || n == 0 then None
        else
          match Expand(partials[Target(node).value], partials, n - 1)
          case None => None
          case Some(partial) => Some(Overridden(partial, node))
      else if forall k :: k in m ==> Expand(m[k], partials, n).Some? then
        Some(Map(map k | k in m :: Expand(m[k], partials, n).value))
      else None
    case List(items) =>
      if forall i :: 0 <= i < |items| ==> Expand(items[i], partials, n).Some? then
        Some(List(seq(|items|, i requires 0 <= i < |items| => Expand(items[i], partials, n).value)))
      else None
    case _ => Some(node)
  }

  /** The partials a tree asks for; what overrides ask for is never looked at. */
  function Names(node: Tree): set<string> {
    match node
    case Map(m) =>
      if Includes(node) then (match Target(node) case None => {} case Some(name) => {name})
      else set k, name | k in m && name in Names(m[k]) :: name
    case List(items) => set i, name | 0 <= i < |items| && name in Names(items[i]) :: name
    case _ => {}
  }

  /** Every include that is looked at gives a string. */
  predicate WellFormed(node: Tree) {
    match node
    case Map(m) => if Includes(node) then Target(node).Some? else forall k :: k in m ==> WellFormed(m[k])
    case List(items) => forall i :: 0 <= i < |items| ==> WellFormed(items[i])
    case _ => true
  }

  /** Every name is there and can itself be expanded along one include less. */
  ghost predicate Ready(names: set<string>, partials: Partials, n: nat) {
    forall name :: name in names ==> n > 0 && name in partials && Expand(partials[name], partials, n - 1).Some?
  }

  lemma {:induction false} ExpandsIffNamesDo(node: Tree, partials: Partials, n: nat)
    ensures Expand(node, partials, n).Some? <==> WellFormed(node) && Ready(Names(node), partials, n)
    decreases node
  {
    match node {
      case Map(m) =>
        if !Includes(node) {
          forall k | k in m
            ensures Expand(m[k], partials, n).Some? <==> WellFormed(m[k]) && Ready(Names(m[k]), partials, n)
            ensures Names(m[k]) <= Names(node)
          {
            ExpandsIffNamesDo(m[k], partials, n);
          }
          if Ready(Names(node), partials, n) {
            assert forall k :: k in m ==> Ready(Names(m[k]), partials, n);
          } else {
            var name :| name in Names(node)
                && !(n > 0 && name in partials && Expand(partials[name], partials, n - 1).Some?);
            var k :| k in m && name in Names(m[k]);
          }
        }
      case List(items) =>
        forall i | 0 <= i < |items|
          ensures Expand(items[i], partials, n).Some? <==> WellFormed(items[i]) && Ready(Names(items[i]), partials, n)
          ensures Names(items[i]) <= Names(node)
        {
          ExpandsIffNamesDo(items[i], partials, n);
        }
        if Ready(Names(node), partials, n) {
          assert forall i :: 0 <= i < |items| ==> Ready(Names(items[i]), partials, n);
        } else {
          var name :| name in Names(node)
              && !(n > 0 && name in partials && Expand(partials[name], partials, n - 1).Some?);
          var i :| 0 <= i < |items| && name in Names(items[i]);
        }
      case _ =>
    }
  }

  /** Allowing longer chains never changes an expansion. */
  lemma {:induction false} ExpandMonotone(node: Tree, partials: Partials, n: nat, more: nat)
    requires n <= more && Expand(node, partials, n).Some?
    ensures Expand(node, partials, more) == Expand(node, partials, n)
    decreases n, node
  {
    match node {
      case Map(m) =>
        if Includes(node) {
          ExpandMonotone(partials[Target(node).value], partials, n - 1, more - 1);
        } else {
          forall k | k in m ensures Expand(m[k], partials, more) == Expand(m[k], partials, n) {
            ExpandMonotone(m[k], partials, n, more);
          }
          assert Expand(node, partials, more).value.fields == Expand(node, partials, n).value.fields;
        }
      case List(items) =>
        forall i | 0 <= i < |items| ensures Expand(items[i], partials, more) == Expand(items[i], partials, n) {
          ExpandMonotone(items[i], partials, n, more);
        }
        assert Expand(node, partials, more).value.items == Expand(node, partials, n).value.items;
      case _ =>
    }
  }

  // ----- chains of includes -----

  /** c lists partials each of which is asked for by the one before. */
  ghost predicate IsChain(node: Tree, partials: Partials, c: seq<string>)
    decreases |c|
  {
    c == [] || (c[0] in Names(node) && (|c| > 1 ==> c[0] in partials && IsChain(partials[c[0]], partials, c[1..])))
  }

  /** Everything a chain can reach is there and well formed. */
  ghost predicate Complete(node: Tree, partials: Partials) {
    WellFormed(node) && forall c {:trigger IsChain(node, partials, c)} :: IsChain(node, partials, c) && c != [] ==>
      c[|c| - 1] in partials && WellFormed(partials[c[|c| - 1]])
  }

  ghost predicate ChainsWithin(node: Tree, partials: Partials, n: nat) {
    forall c {:trigger IsChain(node, partials, c)} :: IsChain(node, partials, c) ==> |c| <= n
  }

  lemma {:induction false} ExpandedChain(node: Tree, partials: Partials, n: nat, c: seq<string>)
    requires Expand(node, partials, n).Some? && IsChain(node, partials, c)
    ensures |c| <= n && (c != [] ==> c[|c| - 1] in partials && WellFormed(partials[c[|c| - 1]]))
    decreases |c|
  {
    ExpandsIffNamesDo(node, partials, n);
    if c != [] {
      if |c| == 1 {
        ExpandsIffNamesDo(partials[c[0]], partials, n - 1);
      } else {
        ExpandedChain(partials[c[0]], partials, n - 1, c[1..]);
      }
    }
  }

  lemma ChainAbove(node: Tree, partials: Partials, name: string, c: seq<string>)
    requires name in Names(node) && name in partials && IsChain(partials[name], partials, c)
    ensures IsChain(node, partials, [name] + c)
  {
    assert ([name] + c)[1..] == c;
  }

  /** Main result: the expansion along n includes is defined exactly when all
      that can be reached is there and no chain of includes is longer than n. */
  lemma {:induction false} ExpandsIffChainsWithin(node: Tree, partials: Partials, n: nat)
    ensures Expand(node, partials, n).Some? <==> Complete(node, partials) && ChainsWithin(node, partials, n)
    decreases n
  {
    ExpandsIffNamesDo(node, partials, n);
    if Expand(node, partials, n).Some? {
      forall c | IsChain(node, partials, c)
        ensures |c| <= n && (c != [] ==> c[|c| - 1] in partials && WellFormed(partials[c[|c| - 1]]))
      {
        ExpandedChain(node, partials, n, c);
      }
    }
    if Complete(node, partials) && ChainsWithin(node, partials, n) {
      forall name | name in Names(node)
          ensures n > 0 && name in partials && Expand(partials[name], partials, n - 1).Some? {
        assert IsChain(node, partials, [name]);
        StepDown(node, partials, n, name);
        ExpandsIffChainsWithin(partials[name], partials, n - 1);
      }
    }
  }

  lemma StepDown(node: Tree, partials: Partials, n: nat, name: string)
    requires Complete(node, partials) && ChainsWithin(node, partials, n) && name in Names(node)
    ensures n > 0 && name in partials && Complete(partials[name], partials)
        && ChainsWithin(partials[name], partials, n - 1)
  {
    var one := [name];
    assert IsChain(node, partials, one);
    assert one[|one| - 1] == name;
    forall c | IsChain(partials[name], partials, c)
      ensures |c| <= n - 1 && (c != [] ==> c[|c| - 1] in partials && WellFormed(partials[c[|c| - 1]]))
    {
      ChainAbove(node, partials, name, c);
      var longer := [name] + c;
      assert |longer| <= n;
      assert c != [] ==> longer[|longer| - 1] == c[|c| - 1];
    }
  }

  // ----- cycles -----

  /** Each name of the walk is asked for by the partial before it. */
  predicate Asks(partials: Partials, name: string, other: string) {
    name in partials && other in Names(partials[name])
  }

  ghost predicate Walk(partials: Partials, w: seq<string>) {
    forall i, j :: 0 <= i && j == i + 1 && j < |w| ==> Asks(partials, w[i], w[j])
  }

  ghost predicate Loop(partials: Partials, w: seq<string>) {
    |w| > 1 && w[0] == w[|w| - 1] && Walk(partials, w)
  }

  /** A partial that asks for itself, however indirectly, has no expansion of any length. */
  lemma {:induction false} LoopNeverExpands(partials: Partials, w: seq<string>, i: nat, n: nat)
    requires Loop(partials, w) && i < |w| - 1 && Asks(partials, w[i], w[i + 1])
    ensures Expand(partials[w[i]], partials, n).None?
    decreases n
  {
    var next := if i + 1 < |w| - 1 then i + 1 else 0;
    assert w[i + 1] == w[next];
    assert Asks(partials, w[next], w[next + 1]);
    ExpandsIffNamesDo(partials[w[i]], partials, n);
    if n > 0 {
      LoopNeverExpands(partials, w, next, n - 1);
    }
  }

  /** Does the chain ask for one name twice? */
  ghost predicate Repeats(c: seq<string>) {
    exists i, j :: 0 <= i < j < |c| && c[i] == c[j]
  }

  lemma {:induction false} ChainNames(node: Tree, partials: Partials, c: seq<string>, i: nat)
    requires Complete(node, partials) && IsChain(node, partials, c) && i < |c|
    ensures c[i] in partials && IsChain(node, partials, c[..i + 1])
  {
    ChainPrefix(node, partials, c, i + 1);
    assert c[..i + 1][|c[..i + 1]| - 1] == c[i];
  }

  lemma {:induction false} ChainPrefix(node: Tree, partials: Partials, c: seq<string>, i: nat)
    requires IsChain(node, partials, c) && i <= |c|
    ensures IsChain(node, partials, c[..i])
    decreases i
  {
    if i > 1 {
      ChainPrefix(partials[c[0]], partials, c[1..], i - 1);
      assert c[..i][1..] == c[1..][..i - 1];
    }
  }

  lemma {:induction false} DistinctFit(c: seq<string>, names: set<string>)
    requires !Repeats(c) && forall i :: 0 <= i < |c| ==> c[i] in names
    ensures |c| <= |names|
    decreases |c|
  {
    if c != [] {
      var last, rest := c[|c| - 1], c[..|c| - 1];
      forall i, j | 0 <= i < j < |rest| ensures rest[i] != rest[j] {
        assert c[i] != c[j];
      }
      forall i | 0 <= i < |rest| ensures rest[i] in names - {last} {
        assert c[i] != c[|c| - 1];
      }
      DistinctFit(rest, names - {last});
    }
  }

  lemma {:induction false} ChainIsWalk(node: Tree, partials: Partials, c: seq<string>)
    requires IsChain(node, partials, c)
    ensures Walk(partials, c)
    decreases |c|
  {
    if |c| > 1 {
      ChainIsWalk(partials[c[0]], partials, c[1..]);
      forall i, j | 0 <= i && j == i + 1 && j < |c| ensures Asks(partials, c[i], c[j]) {
        if i > 0 {
          assert c[1..][i - 1] == c[i] && c[1..][j - 1] == c[j];
        } else {
          assert c[1..][0] in Names(partials[c[0]]);
        }
      }
    }
  }

  lemma RepeatIsLoop(node: Tree, partials: Partials, c: seq<string>, i: nat, j: nat)
    requires IsChain(node, partials, c) && i < j < |c| && c[i] == c[j]
    ensures Loop(partials, c[i..j + 1])
  {
    ChainIsWalk(node, partials, c);
    var w := c[i..j + 1];
    forall k, l | 0 <= k && l == k + 1 && l < |w| ensures Asks(partials, w[k], w[l]) {
      assert w[k] == c[i + k] && w[l] == c[i + l];
      assert Asks(partials, c[i + k], c[i + l]);
    }
    assert w[0] == c[i] && w[|w| - 1] == c[j];
  }

  ghost predicate NoCycleReached(node: Tree, partials: Partials) {
    forall c {:trigger IsChain(node, partials, c)} :: IsChain(node, partials, c) ==> !Repeats(c)
  }

  ghost predicate Expandable(node: Tree, partials: Partials) {
    exists n: nat :: Expand(node, partials, n).Some?
  }

  /** Main result: when everything is there, some expansion exists exactly when
      no chain comes back to a name, that is when no cycle can be reached. */
  lemma ExpandsIffNoCycle(node: Tree, partials: Partials)
    requires Complete(node, partials)
    ensures Expandable(node, partials) <==> NoCycleReached(node, partials)
  {
    if Expandable(node, partials) {
      NoRepeats(node, partials);
    }
    if NoCycleReached(node, partials) {
      ExpandsWithoutRepeats(node, partials);
    }
  }

  lemma NoRepeats(node: Tree, partials: Partials)
    requires Expandable(node, partials)
    ensures NoCycleReached(node, partials)
  {
    var n: nat :| Expand(node, partials, n).Some?;
    forall c | IsChain(node, partials, c) ensures !Repeats(c) {
      NoRepeatInExpansion(node, partials, n, c);
    }
  }

  lemma ExpandsWithoutRepeats(node: Tree, partials: Partials)
    requires Complete(node, partials)
    requires NoCycleReached(node, partials)
    ensures Expandable(node, partials)
  {
    forall c | IsChain(node, partials, c) ensures |c| <= |partials.Keys| {
      forall i | 0 <= i < |c| ensures c[i] in partials.Keys {
        ChainNames(node, partials, c, i);
      }
      DistinctFit(c, partials.Keys);
    }
    var n: nat := |partials.Keys|;
    ExpandsIffChainsWithin(node, partials, n);
    assert Expand(node, partials, n).Some?;
  }

  lemma {:induction false} ExpandsAlong(node: Tree, partials: Partials, n: nat, c: seq<string>, i: nat)
    requires Expand(node, partials, n).Some? && IsChain(node, partials, c) && i < |c|
    ensures c[i] in partials && exists m: nat :: Expand(partials[c[i]], partials, m).Some?
    decreases |c|
  {
    ExpandsIffNamesDo(node, partials, n);
    if i > 0 {
      ExpandsAlong(partials[c[0]], partials, n - 1, c[1..], i - 1);
    }
  }

  lemma NoRepeatInExpansion(node: Tree, partials: Partials, n: nat, c: seq<string>)
    requires Expand(node, partials, n).Some? && IsChain(node, partials, c)
    ensures !Repeats(c)
  {
    if i, j :| 0 <= i < j < |c| && c[i] == c[j] {
      ExpandsAlong(node, partials, n, c, i);
      var m: nat :| Expand(partials[c[i]], partials, m).Some?;
      RepeatIsLoop(node, partials, c, i, j);
      assert c[i..j + 1][0] == c[i];
      assert Asks(partials, c[i..j + 1][0], c[i..j + 1][1]);
      LoopNeverExpands(partials, c[i..j + 1], 0, m);
    }
  }

  // ----- the resolver as coded -----

  class Visited {
    var names: set<string>

    constructor ()
      ensures names == {}
    {
      names := {};
    }
  }

  /** The names being resolved, outermost first: each asks for the next, and
      the last one asks for whatever the node asks for. */
  ghost predicate OnPath(path: seq<string>, node: Tree, partials: Partials, visited: set<string>) {
    && Walk(partials, path)
    && visited == (set i | 0 <= i < |path| :: path[i])
    && (path != [] ==> path[|path| - 1] in partials && Names(node) <= Names(partials[path[|path| - 1]]))
  }

  /** What a resolution says about the expansion. */
  ghost predicate Agrees(node: Tree, partials: Partials, n: nat, r: Outcome) {
    match r
    case Resolved(t) => Expand(node, partials, n) == Some(t)
    case Refused(_) => Expand(node, partials, n).None?
  }

  method ResolveIncludesAtDepth(node: Tree, partials: Partials, visited: Visited, depth: nat, ghost path: seq<string>)
      returns (r: Outcome)
    requires depth <= MAX_DEPTH + 1 && OnPath(path, node, partials, visited.names)
    modifies visited
    ensures visited.names == old(visited.names)
    ensures depth <= MAX_DEPTH ==> Agrees(node, partials, MAX_DEPTH - depth, r)
    ensures depth > MAX_DEPTH ==> r.Refused?
    decreases MAX_DEPTH + 1 - depth, node, 2
  {
    if depth > MAX_DEPTH {
      return Refused(TooDeep);
    }
    match node {
      case Map(_) => r := ResolveMap(node, partials, visited, depth, path);
      case List(_) => r := ResolveSlice(node, partials, visited, depth, path);
      case _ => r := Resolved(node);
    }
  }

  method ResolveMap(node: Tree, partials: Partials, visited: Visited, depth: nat, ghost path: seq<string>)
      returns (r: Outcome)
    requires node.Map? && depth <= MAX_DEPTH && OnPath(path, node, partials, visited.names)
    modifies visited
    ensures visited.names == old(visited.names)
    ensures Agrees(node, partials, MAX_DEPTH - depth, r)
    decreases MAX_DEPTH + 1 - depth, node, 1
  {
    var m := node.fields;
    if INCLUDE !in m {
      r := ResolveEntries(node, partials, visited, depth, path);
      return;
    }
    if !m[INCLUDE].Str? {
      return Refused(NotAString);
    }
    var name := TrimSpace(m[INCLUDE].s);
    if name in visited.names {
      VisitedIsLoop(node, partials, visited.names, path, name, MAX_DEPTH - depth);
      return Refused(Cycle);
    }
    if name !in partials {
      return Refused(NotFound);
    }
    EnterPartial(node, partials, visited.names, path, name);
    visited.names := visited.names + {name};
    r := ResolveIncludesAtDepth(partials[name], partials, visited, depth + 1, path + [name]);
    visited.names := visited.names - {name};
    if r.Refused? || !r.tree.Map? {
      return;
    }
    r := Resolved(Map(r.tree.fields + (m - {INCLUDE})));
  }

  method ResolveEntries(node: Tree, partials: Partials, visited: Visited, depth: nat, ghost path: seq<string>)
      returns (r: Outcome)
    requires node.Map? && !Includes(node) && depth <= MAX_DEPTH && OnPath(path, node, partials, visited.names)
    modifies visited
    ensures visited.names == old(visited.names)
    ensures Agrees(node, partials, MAX_DEPTH - depth, r)
    decreases MAX_DEPTH + 1 - depth, node, 0
  {
    hide OnPath, Agrees, Gathered;
    var m := node.fields;
    var left := m.Keys;
    var result: map<string, Tree> := map[];
    ghost var n := MAX_DEPTH - depth;
    NothingGathered(m, partials, n);
    while left != {}
      invariant visited.names == old(visited.names) && left <= m.Keys
      invariant Gathered(m, partials, n, left, result)
      decreases |left|
    {
      var k :| k in left;
      IntoEntry(node, partials, visited.names, path, k);
      var resolved := ResolveIncludesAtDepth(m[k], partials, visited, depth, path);
      EntryAgrees(node, partials, n, k, resolved, left, result);
      if resolved.Refused? {
        return resolved;
      }
      result := result[k := resolved.tree];
      left := left - {k};
    }
    AllGathered(node, partials, n, result);
    r := Resolved(Map(result));
  }

  /** The entries no longer left have been resolved. */
  ghost predicate Gathered(m: map<string, Tree>, partials: Partials, n: nat, left: set<string>,
      result: map<string, Tree>) {
    result.Keys == m.Keys - left && forall k :: k in result ==> Expand(m[k], partials, n) == Some(result[k])
  }

  lemma NothingGathered(m: map<string, Tree>, partials: Partials, n: nat)
    ensures Gathered(m, partials, n, m.Keys, map[])
  {
  }

  lemma IntoEntry(node: Tree, partials: Partials, visited: set<string>, path: seq<string>, k: string)
    requires node.Map? && !Includes(node) && k in node.fields && OnPath(path, node, partials, visited)
    ensures OnPath(path, node.fields[k], partials, visited)
  {
    assert Names(node.fields[k]) <= Names(node);
  }

  lemma EntryAgrees(node: Tree, partials: Partials, n: nat, k: string, r: Outcome, left: set<string>,
      result: map<string, Tree>)
    requires node.Map? && !Includes(node) && k in node.fields && Agrees(node.fields[k], partials, n, r)
    requires k in left && Gathered(node.fields, partials, n, left, result)
    ensures r.Refused? ==> Agrees(node, partials, n, r)
    ensures r.Resolved? ==> Gathered(node.fields, partials, n, left - {k}, result[k := r.tree])
  {
  }

  lemma AllGathered(node: Tree, partials: Partials, n: nat, result: map<string, Tree>)
    requires node.Map? && !Includes(node) && Gathered(node.fields, partials, n, {}, result)
    ensures Agrees(node, partials, n, Resolved(Map(result)))
  {
    assert Expand(node, partials, n).value.fields == result;
  }

  method ResolveSlice(node: Tree, partials: Partials, visited: Visited, depth: nat, ghost path: seq<string>)
      returns (r: Outcome)
    requires node.List? && depth <= MAX_DEPTH && OnPath(path, node, partials, visited.names)
    modifies visited
    ensures visited.names == old(visited.names)
    ensures Agrees(node, partials, MAX_DEPTH - depth, r)
    decreases MAX_DEPTH + 1 - depth, node, 0
  {
    var items := node.items;
    var result: seq<Tree> := [];
    for i := 0 to |items|
      invariant visited.names == old(visited.names) && |result| == i
      invariant forall j :: 0 <= j < i ==> Expand(items[j], partials, MAX_DEPTH - depth) == Some(result[j])
    {
      assert Names(items[i]) <= Names(node);
      var resolved := ResolveIncludesAtDepth(items[i], partials, visited, depth, path);
      if resolved.Refused? {
        return resolved;
      }
      result := result + [resolved.tree];
    }
    assert Expand(node, partials, MAX_DEPTH - depth).value.items == result;
    r := Resolved(List(result));
  }

  lemma EnterPartial(node: Tree, partials: Partials, visited: set<string>, path: seq<string>, name: string)
    requires OnPath(path, node, partials, visited) && name in Names(node) && name in partials
    ensures OnPath(path + [name], partials[name], partials, visited + {name})
  {
    var next := path + [name];
    forall i, j | 0 <= i && j == i + 1 && j < |next| ensures Asks(partials, next[i], next[j]) {
      if j < |path| { assert Asks(partials, path[i], path[j]); }
    }
    assert (set i | 0 <= i < |next| :: next[i]) == (set i | 0 <= i < |path| :: path[i]) + {name} by {
      assert next[|path|] == name;
      forall i | 0 <= i < |path| ensures next[i] == path[i] {}
    }
  }

  /** Meeting a name that is being resolved means there is no expansion at all. */
  lemma VisitedIsLoop(node: Tree, partials: Partials, visited: set<string>, path: seq<string>, name: string, n: nat)
    requires OnPath(path, node, partials, visited) && name in Names(node) && name in visited
    ensures Expand(node, partials, n).None?
  {
    var i :| 0 <= i < |path| && path[i] == name;
    var w := path[i..] + [name];
    forall k, l | 0 <= k && l == k + 1 && l < |w| ensures Asks(partials, w[k], w[l]) {
      assert w[k] == path[i + k];
      if l < |w| - 1 {
        assert w[l] == path[i + l];
        assert Asks(partials, path[i + k], path[i + l]);
      }
    }
    ExpandsIffNamesDo(node, partials, n);
    if n > 0 {
      assert Asks(partials, w[0], w[1]);
      LoopNeverExpands(partials, w, 0, n - 1);
    }
  }

  /** Main result: resolution terminates, and succeeds exactly when everything
      reachable is there and no chain of includes is longer than the limit; it
      then equals the expansion without cycle detection or limit. */
  method ResolveIncludes(node: Tree, partials: Partials) returns (r: Outcome)
    ensures r.Resolved? <==> Complete(node, partials) && ChainsWithin(node, partials, 64)
    ensures r.Resolved? ==> forall n: nat :: n >= 64 ==> Expand(node, partials, n) == Some(r.tree)
    ensures r.Refused? <==> Expand(node, partials, 64).None?
  {
    var visited := new Visited();
    r := ResolveIncludesAtDepth(node, partials, visited, 0, []);
    ExpandsIffChainsWithin(node, partials, MAX_DEPTH);
    if r.Resolved? {
      forall n: nat | n >= MAX_DEPTH ensures Expand(node, partials, n) == Some(r.tree) {
        ExpandMonotone(node, partials, MAX_DEPTH, n);
      }
    }
  }

  /** Main result: an include becomes the expansion of the partial it names,
      blanks around the name aside; over a map the other keys of the including
      map win, and they are copied as they stand, directives and all. */
  lemma OverridesWinUnexpanded(node: Tree, partials: Partials, n: nat, name: string, partial: Tree)
    requires node.Map? && INCLUDE in node.fields && node.fields[INCLUDE].Str?
    requires name == TrimSpace(node.fields[INCLUDE].s) && name in partials
    requires Expand(partials[name], partials, n) == Some(partial)
    ensures Expand(node, partials, n + 1).Some?
    ensures var r := Expand(node, partials, n + 1).value;
            if partial.Map? then
              && r.Map?
              && (forall k :: k in node.fields && k != "$include" ==> k in r.fields && r.fields[k] == node.fields[k])
              && (forall k :: k !in node.fields || k == "$include" ==> (k in r.fields <==> k in partial.fields))
              && (forall k :: k in partial.fields && (k !in node.fields || k == "$include") ==>
                    k in r.fields && r.fields[k] == partial.fields[k])
            else r == partial
  {
  }

  /** Everything else keeps its shape around the expansions of its parts. */
  lemma PartsAreExpanded(m: map<string, Tree>, items: seq<Tree>, partials: Partials, n: nat)
    ensures "$include" !in m && Expand(Map(m), partials, n).Some? ==>
      var r := Expand(Map(m), partials, n).value;
      r.Map? && r.fields.Keys == m.Keys && forall k :: k in m ==> Expand(m[k], partials, n) == Some(r.fields[k])
    ensures Expand(List(items), partials, n).Some? ==>
      var r := Expand(List(items), partials, n).value;
      r.List? && |r.items| == |items| && forall i :: 0 <= i < |items| ==>
          Expand(items[i], partials, n) == Some(r.items[i])
  {
  }
}
