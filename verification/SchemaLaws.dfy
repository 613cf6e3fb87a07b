/** What the schema predicate means: the nesting bound, the combinators, and
    where the checks part from JSON Schema. */
module SchemaLaws {
  import opened Basics
  import opened Trees
  import opened Schema

  // ----- the nesting bound -----

  /** Is the part of the check for one kind of value reached? */
  predicate Dispatches(s: Object, v: Tree, t: string, keywords: set<string>) {
    if StringAt(s, "type").Some? then StringAt(s, "type").value == t
    else if ListAt(s, "type").Some? then
      var ts := ListAt(s, "type").value;
      FirstType(ts, v, 0) < |ts| && ts[FirstType(ts, v, 0)].s == t
    else HasAny(s, keywords)
  }

  predicate Passes(c: Context, v: Tree, sub: Tree, n: nat) {
    sub.Map? && Conforms(c, v, sub.fields, n)
  }

  /** No schema the check enters is refused for its depth; anyOf enters
      alternatives up to the first that passes. */
  predicate Enough(c: Context, v: Tree, s: Object, n: nat)
    decreases n, 9
  {
    n > 0 &&
    if StringAt(s, "$ref").Some? then
      ResolveRef(c, StringAt(s, "$ref").value).Some? ==>
          Enough(c, v, ResolveRef(c, StringAt(s, "$ref").value).value, n - 1)
    else
      && (ListAt(s, "allOf").Some? ==> AllEnough(c, v, ListAt(s, "allOf").value, n))
      && (ListAt(s, "anyOf").Some? ==> TriedEnough(c, v, ListAt(s, "anyOf").value, n))
      && (ListAt(s, "oneOf").Some? ==> AllEnough(c, v, ListAt(s, "oneOf").value, n))
      && (MapAt(s, "not").Some? ==> Enough(c, v, MapAt(s, "not").value, n - 1))
      && (v.Map? && Dispatches(s, v, "object", OBJECT_KEYWORDS) ==> forall k :: k in v.fields ==>
          PropertyEnough(c, k, v.fields[k], s, n))
      && (v.List? && Dispatches(s, v, "array", ARRAY_KEYWORDS) && MapAt(s, "items").Some? ==>
            forall i :: 0 <= i < |v.items| ==> Enough(c, v.items[i], MapAt(s, "items").value, n - 1))
  }

  predicate AllEnough(c: Context, v: Tree, subs: seq<Tree>, n: nat)
    requires n > 0
    decreases n, 8
  {
    forall i :: 0 <= i < |subs| && subs[i].Map? ==> Enough(c, v, subs[i].fields, n - 1)
  }

  predicate TriedEnough(c: Context, v: Tree, subs: seq<Tree>, n: nat)
    requires n > 0
    decreases n, 8
  {
    forall i :: 0 <= i < |subs| && subs[i].Map? && (forall j :: 0 <= j < i ==> !Passes(c, v, subs[j], n - 1)) ==>
      Enough(c, v, subs[i].fields, n - 1)
  }

  predicate PropertyEnough(c: Context, k: string, v: Tree, s: Object, n: nat)
    requires n > 0
    decreases n, 8
  {
    && (Known(s, k) ==> Enough(c, v, Properties(s)[k].fields, n - 1))
    && (forall p :: p in Patterns(s) && Applies(c, s, p, k) ==> Enough(c, v, Patterns(s)[p].fields, n - 1))
    && (!Known(s, k) && (forall p :: p in Patterns(s) ==> !Applies(c, s, p, k))
        && MapAt(s, "additionalProperties").Some? ==>
          Enough(c, v, MapAt(s, "additionalProperties").value, n - 1))
  }

  /** Main result: when the bound is never the reason for a refusal, any larger
      bound gives the same verdict, though `not` and `oneOf` are not monotone. */
  lemma {:induction false} LargerBoundSameVerdict(c: Context, v: Tree, s: Object, n: nat, m: nat)
    requires n <= m && Enough(c, v, s, n)
    ensures Conforms(c, v, s, m) == Conforms(c, v, s, n)
    decreases n, 9
  {
    hide ObjectOk, ArrayOk, PropertyEnough, ValueOk, HasAny, ResolveRef;
    if StringAt(s, "$ref").Some? {
      if ResolveRef(c, StringAt(s, "$ref").value).Some? {
        LargerBoundSameVerdict(c, v, ResolveRef(c, StringAt(s, "$ref").value).value, n - 1, m - 1);
      }
    } else {
      CombinatorsStable(c, v, s, n, m);
      if v.Map? && Dispatches(s, v, "object", OBJECT_KEYWORDS) { ObjectStable(c, v.fields, s, n, m); }
      if v.List? && Dispatches(s, v, "array", ARRAY_KEYWORDS) { ArrayStable(c, v.items, s, n, m); }
      TypeStable(c, v, s, n, m);
    }
  }

  lemma {:induction false} AllStable(c: Context, v: Tree, subs: seq<Tree>, n: nat, m: nat)
    requires 0 < n <= m && AllEnough(c, v, subs, n)
    ensures forall i :: 0 <= i < |subs| ==> Passes(c, v, subs[i], n - 1) == Passes(c, v, subs[i], m - 1)
    decreases n, 7, 0
  {
    forall i | 0 <= i < |subs| ensures Passes(c, v, subs[i], n - 1) == Passes(c, v, subs[i], m - 1) {
      if subs[i].Map? { LargerBoundSameVerdict(c, v, subs[i].fields, n - 1, m - 1); }
    }
  }

  lemma {:induction false} TriedStable(c: Context, v: Tree, subs: seq<Tree>, n: nat, m: nat, i: nat)
    requires 0 < n <= m && TriedEnough(c, v, subs, n) && i <= |subs|
    requires forall j :: 0 <= j < i ==> !Passes(c, v, subs[j], n - 1) && !Passes(c, v, subs[j], m - 1)
    ensures (exists j :: 0 <= j < |subs| && Passes(c, v, subs[j], n - 1)) <==>
        (exists j :: 0 <= j < |subs| && Passes(c, v, subs[j], m - 1))
    decreases n, 7, |subs| - i
  {
    hide Conforms;
    if i < |subs| {
      if subs[i].Map? { LargerBoundSameVerdict(c, v, subs[i].fields, n - 1, m - 1); }
      if !Passes(c, v, subs[i], n - 1) { TriedStable(c, v, subs, n, m, i + 1); }
    }
  }

  lemma {:induction false} MatchingStable(c: Context, v: Tree, subs: seq<Tree>, n: nat, m: nat)
    requires n > 0 && m > 0 && forall i :: 0 <= i < |subs| ==>
        Passes(c, v, subs[i], n - 1) == Passes(c, v, subs[i], m - 1)
    ensures Matching(c, v, subs, n) == Matching(c, v, subs, m)
    decreases |subs|
  {
    hide Conforms;
    if subs != [] {
      var rest := subs[..|subs| - 1];
      assert forall i :: 0 <= i < |rest| ==> rest[i] == subs[i];
      MatchingStable(c, v, rest, n, m);
      assert Passes(c, v, subs[|subs| - 1], n - 1) == Passes(c, v, subs[|subs| - 1], m - 1);
    }
  }

  lemma {:induction false} CombinatorsStable(c: Context, v: Tree, s: Object, n: nat, m: nat)
    requires n <= m && Enough(c, v, s, n) && StringAt(s, "$ref").None?
    ensures CombinatorsOk(c, v, s, m) == CombinatorsOk(c, v, s, n)
    decreases n, 8, 1
  {
    hide PropertyEnough, Matching, Conforms, AllEnough, TriedEnough, Dispatches, ResolveRef;
    if ListAt(s, "allOf").Some? {
      AllOfStable(c, v, ListAt(s, "allOf").value, n, m);
    }
    if ListAt(s, "anyOf").Some? {
      AnyOfStable(c, v, ListAt(s, "anyOf").value, n, m);
    }
    if ListAt(s, "oneOf").Some? {
      AllStable(c, v, ListAt(s, "oneOf").value, n, m);
      MatchingStable(c, v, ListAt(s, "oneOf").value, n, m);
    }
    if MapAt(s, "not").Some? {
      LargerBoundSameVerdict(c, v, MapAt(s, "not").value, n - 1, m - 1);
    }
  }

  lemma {:induction false} AllOfStable(c: Context, v: Tree, subs: seq<Tree>, n: nat, m: nat)
    requires 0 < n <= m && AllEnough(c, v, subs, n)
    ensures (forall sub :: sub in subs && sub.Map? ==> Conforms(c, v, sub.fields, m - 1)) <==>
            (forall sub :: sub in subs && sub.Map? ==> Conforms(c, v, sub.fields, n - 1))
    decreases n, 7, 1
  {
    hide AllEnough, Conforms;
    AllStable(c, v, subs, n, m);
    AllAsIndices(c, v, subs, n - 1);
    AllAsIndices(c, v, subs, m - 1);
  }

  lemma {:induction false} AnyOfStable(c: Context, v: Tree, subs: seq<Tree>, n: nat, m: nat)
    requires 0 < n <= m && TriedEnough(c, v, subs, n)
    ensures (exists sub :: sub in subs && sub.Map? && Conforms(c, v, sub.fields, m - 1)) <==>
            (exists sub :: sub in subs && sub.Map? && Conforms(c, v, sub.fields, n - 1))
    decreases n, 8, 0
  {
    hide TriedEnough, Conforms;
    TriedStable(c, v, subs, n, m, 0);
    AllAsIndices(c, v, subs, n - 1);
    AllAsIndices(c, v, subs, m - 1);
  }

  lemma AllAsIndices(c: Context, v: Tree, subs: seq<Tree>, n: nat)
    ensures (forall sub :: sub in subs && sub.Map? ==> Conforms(c, v, sub.fields, n)) <==>
        forall i :: 0 <= i < |subs| ==> subs[i].Map? ==> Passes(c, v, subs[i], n)
    ensures (exists sub :: sub in subs && sub.Map? && Conforms(c, v, sub.fields, n)) <==>
        exists i :: 0 <= i < |subs| && Passes(c, v, subs[i], n)
  {
    hide Conforms;
    if sub :| sub in subs && sub.Map? && Conforms(c, v, sub.fields, n) {
      var i :| 0 <= i < |subs| && subs[i] == sub;
      assert Passes(c, v, subs[i], n);
    }
    if forall i :: 0 <= i < |subs| ==> subs[i].Map? ==> Passes(c, v, subs[i], n) {
      forall sub | sub in subs && sub.Map? ensures Conforms(c, v, sub.fields, n) {
        var i :| 0 <= i < |subs| && subs[i] == sub;
        assert Passes(c, v, subs[i], n);
      }
    }
  }

  lemma {:induction false} ObjectStable(c: Context, obj: Object, s: Object, n: nat, m: nat)
    requires 0 < n <= m && forall k :: k in obj ==> PropertyEnough(c, k, obj[k], s, n)
    ensures ObjectOk(c, obj, s, m) == ObjectOk(c, obj, s, n)
    decreases n, 8
  {
    hide Conforms, RequiredOk, DependentOk, SizeOk, PropertyOk, PropertyEnough, Patterns;
    forall k | k in obj ensures PropertyOk(c, k, obj[k], s, m) == PropertyOk(c, k, obj[k], s, n) {
      PropertyStable(c, k, obj[k], s, n, m);
    }
  }

  lemma {:induction false} PropertyStable(c: Context, k: string, v: Tree, s: Object, n: nat, m: nat)
    requires 0 < n <= m && PropertyEnough(c, k, v, s, n)
    ensures PropertyOk(c, k, v, s, m) == PropertyOk(c, k, v, s, n)
    decreases n, 7
  {
    hide Conforms, Enough;
    if Known(s, k) { LargerBoundSameVerdict(c, v, Properties(s)[k].fields, n - 1, m - 1); }
    forall p | p in Patterns(s) && Applies(c, s, p, k)
      ensures Conforms(c, v, Patterns(s)[p].fields, m - 1) == Conforms(c, v, Patterns(s)[p].fields, n - 1)
    {
      LargerBoundSameVerdict(c, v, Patterns(s)[p].fields, n - 1, m - 1);
    }
    if !Known(s, k) && (forall p :: p in Patterns(s) ==> !Applies(c, s, p, k))
        && MapAt(s, "additionalProperties").Some? {
      LargerBoundSameVerdict(c, v, MapAt(s, "additionalProperties").value, n - 1, m - 1);
    }
  }

  lemma {:induction false} ArrayStable(c: Context, items: seq<Tree>, s: Object, n: nat, m: nat)
    requires 0 < n <= m
    requires MapAt(s, "items").Some? ==> forall i :: 0 <= i < |items| ==>
        Enough(c, items[i], MapAt(s, "items").value, n - 1)
    ensures ArrayOk(c, items, s, m) == ArrayOk(c, items, s, n)
    decreases n, 8
  {
    hide Conforms, Enough, SizeOk, Unique;
    if MapAt(s, "items").Some? {
      var sub := MapAt(s, "items").value;
      forall i | 0 <= i < |items| ensures Conforms(c, items[i], sub, m - 1) == Conforms(c, items[i], sub, n - 1) {
        LargerBoundSameVerdict(c, items[i], sub, n - 1, m - 1);
      }
    }
  }

  lemma TypeStable(c: Context, v: Tree, s: Object, n: nat, m: nat)
    requires 0 < n <= m
    requires v.Map? && Dispatches(s, v, "object", OBJECT_KEYWORDS) ==>
        ObjectOk(c, v.fields, s, m) == ObjectOk(c, v.fields, s, n)
    requires v.List? && Dispatches(s, v, "array", ARRAY_KEYWORDS) ==>
        ArrayOk(c, v.items, s, m) == ArrayOk(c, v.items, s, n)
    ensures TypeOk(c, v, s, m) == TypeOk(c, v, s, n)
  {
    hide ObjectOk, ArrayOk, StringOk, NumberOk, HasAny, IsWhole;
  }

  // ----- the combinators (section 10.2.1 of JSON Schema Core 2020-12) -----

  /** The alternatives that pass. */
  ghost function Passing(c: Context, v: Tree, subs: seq<Tree>, n: nat): set<nat> {
    set i: nat | i < |subs| && Passes(c, v, subs[i], n)
  }

  lemma {:induction false} MatchingCounts(c: Context, v: Tree, subs: seq<Tree>, n: nat)
    requires n > 0
    ensures Matching(c, v, subs, n) == |Passing(c, v, subs, n - 1)|
    decreases |subs|
  {
    hide Conforms, Passing;
    if subs == [] {
      NonePassing(c, v, n - 1);
    } else {
      MatchingCounts(c, v, subs[..|subs| - 1], n);
      PassingSnoc(c, v, subs, n - 1);
    }
  }

  lemma NonePassing(c: Context, v: Tree, n: nat)
    ensures Passing(c, v, [], n) == {}
  {
  }

  lemma PassingSnoc(c: Context, v: Tree, subs: seq<Tree>, n: nat)
    requires subs != []
    ensures |Passing(c, v, subs, n)| == |Passing(c, v, subs[..|subs| - 1], n)| + if Passes(c, v, subs[|subs| - 1], n)
        then 1 else 0
  {
    hide Passes;
    var k := |subs| - 1;
    var rest := subs[..k];
    var some, all := Passing(c, v, rest, n), Passing(c, v, subs, n);
    forall i: nat | i < k ensures i in some <==> i in all {
      assert rest[i] == subs[i];
    }
    OneMore(some, all, k, Passes(c, v, subs[k], n));
  }

  lemma OneMore(some: set<nat>, all: set<nat>, k: nat, more: bool)
    requires forall i :: i in some ==> i < k
    requires forall i :: i in all ==> i <= k
    requires forall i: nat :: i < k ==> (i in some <==> i in all)
    requires k in all <==> more
    ensures |all| == |some| + if more then 1 else 0
  {
    assert all == some + if more then {k} else {};
  }

  /** Following references, the subschemas are nested at most n deep, whatever the value. */
  predicate Nests(c: Context, s: Object, n: nat)
    decreases n, 9
  {
    n > 0 &&
    if StringAt(s, "$ref").Some? then
      ResolveRef(c, StringAt(s, "$ref").value).Some? ==> Nests(c, ResolveRef(c, StringAt(s, "$ref").value).value, n - 1)
    else
      && (ListAt(s, "allOf").Some? ==> AllNest(c, ListAt(s, "allOf").value, n))
      && (ListAt(s, "anyOf").Some? ==> AllNest(c, ListAt(s, "anyOf").value, n))
      && (ListAt(s, "oneOf").Some? ==> AllNest(c, ListAt(s, "oneOf").value, n))
      && (MapAt(s, "not").Some? ==> Nests(c, MapAt(s, "not").value, n - 1))
      && (MapAt(s, "items").Some? ==> Nests(c, MapAt(s, "items").value, n - 1))
      && (MapAt(s, "additionalProperties").Some? ==> Nests(c, MapAt(s, "additionalProperties").value, n - 1))
      && (forall k :: k in Properties(s) && Properties(s)[k].Map? ==> Nests(c, Properties(s)[k].fields, n - 1))
      && (forall p :: p in Patterns(s) && Patterns(s)[p].Map? ==> Nests(c, Patterns(s)[p].fields, n - 1))
  }

  predicate AllNest(c: Context, subs: seq<Tree>, n: nat)
    requires n > 0
    decreases n, 8
  {
    forall i :: 0 <= i < |subs| && subs[i].Map? ==> Nests(c, subs[i].fields, n - 1)
  }

  lemma {:induction false} NestsIsEnough(c: Context, v: Tree, s: Object, n: nat)
    requires Nests(c, s, n)
    ensures Enough(c, v, s, n)
    decreases n, 9
  {
    hide Conforms, Dispatches, ResolveRef, Patterns, Properties, PropertyEnough;
    if StringAt(s, "$ref").Some? {
      var target := ResolveRef(c, StringAt(s, "$ref").value);
      if target.Some? { NestsIsEnough(c, v, target.value, n - 1); }
    } else {
      if ListAt(s, "allOf").Some? { NestsIsAllEnough(c, v, ListAt(s, "allOf").value, n); }
      if ListAt(s, "anyOf").Some? { NestsIsAllEnough(c, v, ListAt(s, "anyOf").value, n); }
      if ListAt(s, "oneOf").Some? { NestsIsAllEnough(c, v, ListAt(s, "oneOf").value, n); }
      if MapAt(s, "not").Some? { NestsIsEnough(c, v, MapAt(s, "not").value, n - 1); }
      if v.Map? {
        forall k | k in v.fields ensures PropertyEnough(c, k, v.fields[k], s, n) {
          NestsIsPropertyEnough(c, k, v.fields[k], s, n);
        }
      }
      if v.List? && MapAt(s, "items").Some? {
        forall i | 0 <= i < |v.items| ensures Enough(c, v.items[i], MapAt(s, "items").value, n - 1) {
          NestsIsEnough(c, v.items[i], MapAt(s, "items").value, n - 1);
        }
      }
    }
  }

  lemma {:induction false} NestsIsAllEnough(c: Context, v: Tree, subs: seq<Tree>, n: nat)
    requires n > 0 && AllNest(c, subs, n)
    ensures AllEnough(c, v, subs, n) && TriedEnough(c, v, subs, n)
    decreases n, 8
  {
    hide Conforms, Enough, Nests;
    forall i | 0 <= i < |subs| && subs[i].Map? ensures Enough(c, v, subs[i].fields, n - 1) {
      NestsIsEnough(c, v, subs[i].fields, n - 1);
    }
  }

  lemma {:induction false} NestsIsPropertyEnough(c: Context, k: string, v: Tree, s: Object, n: nat)
    requires Nests(c, s, n) && StringAt(s, "$ref").None?
    ensures PropertyEnough(c, k, v, s, n)
    decreases n, 8
  {
    hide Enough;
    if Known(s, k) { NestsIsEnough(c, v, Properties(s)[k].fields, n - 1); }
    forall p | p in Patterns(s) && Applies(c, s, p, k) ensures Enough(c, v, Patterns(s)[p].fields, n - 1) {
      NestsIsEnough(c, v, Patterns(s)[p].fields, n - 1);
    }
    if MapAt(s, "additionalProperties").Some? {
      NestsIsEnough(c, v, MapAt(s, "additionalProperties").value, n - 1);
    }
  }

  /** Main result: when the schema, references followed, is nested no deeper than
      the bound, the bound plays no part in the verdict on any value. */
  lemma SchemaAloneDecides(c: Context, v: Tree, s: Object, m: nat)
    requires Nests(c, s, MAX_DEPTH) && m >= MAX_DEPTH
    ensures Conforms(c, v, s, m) == Conforms(c, v, s, MAX_DEPTH)
  {
    hide Conforms, Nests, Enough;
    NestsIsEnough(c, v, s, MAX_DEPTH);
    LargerBoundSameVerdict(c, v, s, MAX_DEPTH, m);
  }

  function Only(keyword: string, t: Tree): Object {
    map[keyword := t]
  }

  lemma AllOfAlone(c: Context, v: Tree, subs: seq<Tree>, n: nat)
    requires n > 0
    ensures Conforms(c, v, Only("allOf", List(subs)), n) <==>
        forall i :: 0 <= i < |subs| ==> subs[i].Map? ==> Passes(c, v, subs[i], n - 1)
  {
    hide Conforms, Matching;
    AllAsIndices(c, v, subs, n - 1);
    Alone(c, v, "allOf", List(subs), n);
  }

  lemma AnyOfAlone(c: Context, v: Tree, subs: seq<Tree>, n: nat)
    requires n > 0
    ensures Conforms(c, v, Only("anyOf", List(subs)), n) <==>
        exists i :: 0 <= i < |subs| && Passes(c, v, subs[i], n - 1)
  {
    hide Conforms, Matching;
    AllAsIndices(c, v, subs, n - 1);
    Alone(c, v, "anyOf", List(subs), n);
  }

  /** Main result: oneOf holds exactly when a single alternative passes. */
  lemma OneOfAlone(c: Context, v: Tree, subs: seq<Tree>, n: nat)
    requires n > 0
    ensures Conforms(c, v, Only("oneOf", List(subs)), n) <==> |Passing(c, v, subs, n - 1)| == 1
  {
    hide Conforms, Matching, Passing;
    Alone(c, v, "oneOf", List(subs), n);
    MatchingCounts(c, v, subs, n);
  }

  lemma NotAlone(c: Context, v: Tree, sub: Object, n: nat)
    requires n > 0
    ensures Conforms(c, v, Only("not", Map(sub)), n) <==> !Conforms(c, v, sub, n - 1)
  {
    hide Conforms, Matching;
    Alone(c, v, "not", Map(sub), n);
  }

  lemma Alone(c: Context, v: Tree, keyword: string, t: Tree, n: nat)
    requires n > 0 && keyword in {"allOf", "anyOf", "oneOf", "not"}
    ensures Conforms(c, v, Only(keyword, t), n) <==> CombinatorsOk(c, v, Only(keyword, t), n)
  {
    hide CombinatorsOk, ObjectOk, ArrayOk, StringOk, NumberOk;
  }

  /** Main result: refusing anyOf is refusing every alternative. */
  lemma NotAnyIsAllNot(c: Context, v: Tree, a: Object, b: Object, n: nat)
    requires n > 1
    ensures Conforms(c, v, Only("not", Map(Only("anyOf", List([Map(a), Map(b)])))), n) <==>
            Conforms(c, v, Only("allOf", List([Map(Only("not", Map(a))), Map(Only("not", Map(b)))])), n)
  {
    hide Conforms, Matching, Only;
    var any, none := [Map(a), Map(b)], [Map(Only("not", Map(a))), Map(Only("not", Map(b)))];
    NotAlone(c, v, Only("anyOf", List(any)), n);
    AnyOfAlone(c, v, any, n - 1);
    AllOfAlone(c, v, none, n);
    NotAlone(c, v, a, n - 1);
    NotAlone(c, v, b, n - 1);
    assert Passes(c, v, any[0], n - 2) <==> Conforms(c, v, a, n - 2);
    assert Passes(c, v, any[1], n - 2) <==> Conforms(c, v, b, n - 2);
    assert Passes(c, v, none[0], n - 1) <==> !Conforms(c, v, a, n - 2);
    assert Passes(c, v, none[1], n - 1) <==> !Conforms(c, v, b, n - 2);
  }

  // ----- where the checks part from the standard -----

  const TYPES := {"object", "array", "string", "integer", "number", "boolean", "null"}
  const NULLABLE := {"object", "array", "string"}

  /** A list of types admits what one of them describes, as the standard has it. */
  lemma ListedTypes(c: Context, v: Tree, ts: seq<Tree>, n: nat)
    requires n > 0
    ensures Conforms(c, v, Only("type", List(ts)), n) <==>
        exists i :: 0 <= i < |ts| && ts[i].Str? && TypeMatches(ts[i].s, v)
  {
    hide HasType, TypeMatches, ObjectOk, ArrayOk, StringOk, NumberOk;
    var s := Only("type", List(ts));
    var k := FirstType(ts, v, 0);
    if k < |ts| { MatchSuffices(c, v, ts[k].s, s, n); }
  }

  /** With no other keyword a value of the right type has the type. */
  lemma MatchSuffices(c: Context, v: Tree, t: string, s: Object, n: nat)
    requires n > 0 && s.Keys == {"type"} && TypeMatches(t, v)
    ensures HasType(c, t, v, s, n)
  {
  }

  /** Main result: a single type means what the standard says exactly when the
      validator knows its name and the value is not a null it lets pass. */
  lemma SingleTypeIff(c: Context, v: Tree, t: string, n: nat)
    requires n > 0
    ensures (Conforms(c, v, Only("type", Str(t)), n) <==> TypeMatches(t, v)) <==>
        t in TYPES && !(v.Null? && t in NULLABLE)
  {
    hide HasType, TypeMatches, ObjectOk, ArrayOk, StringOk, NumberOk;
    var s := Only("type", Str(t));
    assert Conforms(c, v, s, n) <==> HasType(c, t, v, s, n);
    if TypeMatches(t, v) {
      MatchSuffices(c, v, t, s, n);
      KnownMatch(t, v);
    } else {
      MismatchPassesIff(c, v, t, s, n);
    }
  }

  lemma KnownMatch(t: string, v: Tree)
    requires TypeMatches(t, v)
    ensures t in TYPES && !(v.Null? && t in NULLABLE)
  {
  }

  lemma MismatchPassesIff(c: Context, v: Tree, t: string, s: Object, n: nat)
    requires n > 0 && !TypeMatches(t, v)
    ensures HasType(c, t, v, s, n) <==> t !in TYPES || (v.Null? && t in NULLABLE)
  {
    hide ObjectOk, ArrayOk, StringOk, NumberOk;
  }

  /** So one type by itself and the same type in a list agree exactly then. */
  lemma SingleAndListAgreeIff(c: Context, v: Tree, t: string, n: nat)
    requires n > 0
    ensures (Conforms(c, v, Only("type", Str(t)), n) <==> Conforms(c, v, Only("type", List([Str(t)])), n))
            <==> t in TYPES && !(v.Null? && t in NULLABLE)
  {
    hide Conforms, TypeMatches;
    SingleTypeIff(c, v, t, n);
    ListedTypes(c, v, [Str(t)], n);
    assert [Str(t)][0] == Str(t);
  }

  /** Equality with numbers compared by value at every depth. */
  predicate EqualByValue(a: Tree, b: Tree)
    decreases a
  {
    match (a, b)
    case (List(x), List(y)) => |x| == |y| && forall i :: 0 <= i < |x| ==> EqualByValue(x[i], y[i])
    case (Map(x), Map(y)) => x.Keys == y.Keys && forall k :: k in x ==> EqualByValue(x[k], y[k])
    case _ => a == b || (Numeric(a).Some? && Numeric(a) == Numeric(b))
  }

  /** At some place an integer stands where the other value has a real. */
  predicate Meets(a: Tree, b: Tree)
    decreases a, 1
  {
    (a.Int? && b.Real?) || (a.Real? && b.Int?) || MeetsBelow(a, b)
  }

  predicate MeetsBelow(a: Tree, b: Tree)
    decreases a, 0
  {
    match (a, b)
    case (List(x), List(y)) => exists i :: 0 <= i < |x| && i < |y| && Meets(x[i], y[i])
    case (Map(x), Map(y)) => exists k :: k in x && k in y && Meets(x[k], y[k])
    case _ => false
  }

  lemma {:induction false} SameUnlessMeets(a: Tree, b: Tree)
    ensures a == b ==> EqualByValue(a, b)
    ensures EqualByValue(a, b) ==> (a == b <==> !Meets(a, b))
    decreases a
  {
    match (a, b) {
      case (List(x), List(y)) =>
        forall i | 0 <= i < |x| && i < |y| { SameUnlessMeets(x[i], y[i]); }
      case (Map(x), Map(y)) =>
        forall k | k in x && k in y { SameUnlessMeets(x[k], y[k]); }
      case _ =>
    }
  }

  /** Main result: members of an enum compare by value, as the standard has it,
      exactly unless an integer meets a real of the same value below the top. */
  lemma EqualityIff(a: Tree, b: Tree)
    ensures EqualAny(a, b) <==> EqualByValue(a, b) && !MeetsBelow(a, b)
  {
    SameUnlessMeets(a, b);
  }

  /** An input: an integer from the values equals a number of the schema at the top, not inside a list or map. */
  lemma NestedNumbersDiffer(k: int)
    ensures EqualAny(Real(k as real), Int(k))
    ensures !EqualAny(List([Real(k as real)]), List([Int(k)])) && EqualByValue(List([Real(k as real)]), List([Int(k)]))
    ensures !EqualAny(Map(map["x" := Real(k as real)]), Map(map["x" := Int(k)]))
  {
    EqualityIff(List([Real(k as real)]), List([Int(k)]));
    assert Meets([Real(k as real)][0], [Int(k)][0]);
    assert map["x" := Real(k as real)]["x"] != map["x" := Int(k)]["x"];
  }

  function Nest(depth: nat): Object {
    if depth == 0 then map[] else Only("items", Map(Nest(depth - 1)))
  }

  function NestedList(depth: nat): Tree {
    if depth == 0 then Null else List([NestedList(depth - 1)])
  }

  /** Main result: the bound counts every subschema entered, not references
      only: without a single reference, values nested as deep as the bound are refused. */
  lemma {:induction false} NestingIsBounded(c: Context, depth: nat, n: nat)
    ensures Conforms(c, NestedList(depth), Nest(depth), n) <==> depth < n
    decreases depth
  {
    var s, v := Nest(depth), NestedList(depth);
    if depth > 0 && n > 0 {
      hide Conforms;
      NestingIsBounded(c, depth - 1, n - 1);
      ItemsAlone(c, v.items, Nest(depth - 1), n);
      assert v.items == [NestedList(depth - 1)];
      assert Conforms(c, v.items[0], Nest(depth - 1), n - 1) <==> depth - 1 < n - 1;
    } else if n > 0 {
      EmptySchema(c, v, n);
    }
  }

  lemma EmptySchema(c: Context, v: Tree, n: nat)
    requires n > 0
    ensures Conforms(c, v, map[], n)
  {
  }

  lemma ItemsAlone(c: Context, items: seq<Tree>, sub: Object, n: nat)
    requires n > 0
    ensures Conforms(c, List(items), Only("items", Map(sub)), n) <==>
        forall i :: 0 <= i < |items| ==> Conforms(c, items[i], sub, n - 1)
  {
    var s := Only("items", Map(sub));
    OnlyItems(c, items, sub, n);
    assert Conforms(c, List(items), s, n) <==> ArrayOk(c, items, s, n) by {
      hide ArrayOk, ObjectOk;
      assert "items" in ARRAY_KEYWORDS && "items" in s;
      assert HasAny(s, ARRAY_KEYWORDS);
      assert TypeOk(c, List(items), s, n) <==> ArrayOk(c, items, s, n);
      assert ValueOk(List(items), s) && CombinatorsOk(c, List(items), s, n);
    }
  }

  lemma OnlyItems(c: Context, items: seq<Tree>, sub: Object, n: nat)
    requires n > 0
    ensures ArrayOk(c, items, Only("items", Map(sub)), n) <==>
        forall i :: 0 <= i < |items| ==> Conforms(c, items[i], sub, n - 1)
  {
    hide Conforms;
    assert MapAt(Only("items", Map(sub)), "items") == Some(sub);
  }
}
