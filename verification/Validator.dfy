/** The validator as coded: it walks value and schema and collects problems.
    Maps are visited in an arbitrary order and alternatives are tried on validators
    of their own; each method is held against the pure predicate for its keywords. */
module Validator {
  import opened Basics
  import opened Trees
  import opened Schema

  datatype Problem = Problem(path: seq<string>, keyword: string)

  /** Problems were only added, and none was added exactly when ok. */
  ghost predicate Appends(before: seq<Problem>, after: seq<Problem>, ok: bool) {
    before <= after && (after == before <==> ok)
  }

  lemma AppendsBoth(a: seq<Problem>, b: seq<Problem>, c: seq<Problem>, p: bool, q: bool)
    requires Appends(a, b, p) && Appends(b, c, q)
    ensures Appends(a, c, p && q)
  {
    if c == a { assert |b| == |a|; }
  }

  lemma AppendsNothing(a: seq<Problem>)
    ensures Appends(a, a, true)
  {
  }

  /** Schemas that may still be entered at a nesting depth. */
  function Left(depth: nat): nat {
    if depth >= MAX_DEPTH then 0 else MAX_DEPTH - depth
  }

  class Checker {
    const c: Context
    var errs: seq<Problem>

    constructor (context: Context)
      ensures c == context && errs == []
    {
      c, errs := context, [];
    }

    method Require(ok: bool, path: seq<string>, keyword: string)
      modifies this
      ensures Appends(old(errs), errs, ok)
    {
      if !ok {
        errs := errs + [Problem(path, keyword)];
      }
    }

    method Validate(path: seq<string>, v: Tree, s: Object, depth: nat)
      modifies this
      ensures Appends(old(errs), errs, Conforms(c, v, s, Left(depth)))
      decreases Left(depth), 9
    {
      hide CombinatorsOk, TypeOk, ValueOk, Appends, ResolveRef;
      if MAX_DEPTH <= depth {
        Require(false, path, "depth");
        return;
      }
      if StringAt(s, "$ref").Some? {
        var resolved := ResolveRef(c, StringAt(s, "$ref").value);
        if resolved.None? {
          Require(false, path, "$ref");
          return;
        }
        Validate(path, v, resolved.value, depth + 1);
        return;
      }
      ghost var e0 := errs;
      ValidateValue(path, v, s);
      ghost var e1 := errs;
      ValidateCombinators(path, v, s, depth);
      AppendsBoth(e0, e1, errs, ValueOk(v, s), CombinatorsOk(c, v, s, Left(depth)));
      ghost var e2 := errs;
      ValidateDeclared(path, v, s, depth);
      AppendsBoth(e0, e2, errs, ValueOk(v, s) && CombinatorsOk(c, v, s, Left(depth)), TypeOk(c, v, s, Left(depth)));
    }

    method ValidateValue(path: seq<string>, v: Tree, s: Object)
      modifies this
      ensures Appends(old(errs), errs, ValueOk(v, s))
    {
      hide Appends, EqualAny;
      ghost var e0 := errs;
      Require("const" in s ==> EqualAny(s["const"], v), path, "const");
      ghost var e1 := errs;
      var found := true;
      if ListAt(s, "enum").Some? {
        found := EnumContains(ListAt(s, "enum").value, v);
      }
      Require(found, path, "enum");
      AppendsBoth(e0, e1, errs, "const" in s ==> EqualAny(s["const"], v), found);
    }

    // ----- combinators -----

    /** Asks a validator of its own; the problems collected here stay untouched. */
    method Probe(path: seq<string>, v: Tree, s: Object, depth: nat) returns (ok: bool)
      ensures ok == Conforms(c, v, s, Left(depth))
      decreases Left(depth), 10
    {
      hide Conforms;
      var probe := new Checker(c);
      probe.Validate(path, v, s, depth);
      ok := |probe.errs| == 0;
    }

    method ValidateCombinators(path: seq<string>, v: Tree, s: Object, depth: nat)
      requires depth < MAX_DEPTH
      modifies this
      ensures Appends(old(errs), errs, CombinatorsOk(c, v, s, Left(depth)))
      decreases Left(depth), 8
    {
      hide Appends, Conforms, Matching, AllOk, AnyOk, OneOk;
      ghost var n, e0 := Left(depth), errs;
      AppendsNothing(e0);
      if ListAt(s, "allOf").Some? {
        ValidateAll(path, v, ListAt(s, "allOf").value, depth);
      }
      ghost var all := ListAt(s, "allOf").Some? ==>
          AllOk(c, v, ListAt(s, "allOf").value, n, |ListAt(s, "allOf").value|);
      ghost var e1 := errs;
      AppendsNothing(e1);
      if ListAt(s, "anyOf").Some? {
        var passed := AnyPasses(path, v, ListAt(s, "anyOf").value, depth);
        Require(passed, path, "anyOf");
      }
      ghost var any := ListAt(s, "anyOf").Some? ==> AnyOk(c, v, ListAt(s, "anyOf").value, n);
      ghost var e2 := errs;
      AppendsNothing(e2);
      if ListAt(s, "oneOf").Some? {
        var matches := CountMatches(path, v, ListAt(s, "oneOf").value, depth);
        Require(matches == 1, path, "oneOf");
      }
      ghost var one := ListAt(s, "oneOf").Some? ==> OneOk(c, v, ListAt(s, "oneOf").value, n);
      ghost var e3 := errs;
      AppendsNothing(e3);
      if MapAt(s, "not").Some? {
        var matched := Probe(path, v, MapAt(s, "not").value, depth + 1);
        Require(!matched, path, "not");
      }
      ghost var none := MapAt(s, "not").Some? ==> !Conforms(c, v, MapAt(s, "not").value, n - 1);
      AppendsBoth(e0, e1, e2, all, any);
      AppendsBoth(e0, e2, e3, all && any, one);
      AppendsBoth(e0, e3, errs, all && any && one, none);
      CombinatorsMeaning(c, v, s, n);
    }

    method ValidateAll(path: seq<string>, v: Tree, subs: seq<Tree>, depth: nat)
      requires depth < MAX_DEPTH
      modifies this
      ensures Appends(old(errs), errs, AllOk(c, v, subs, Left(depth), |subs|))
      decreases Left(depth), 7
    {
      hide Appends, Conforms;
      AppendsNothing(errs);
      for i := 0 to |subs|
        invariant Appends(old(errs), errs, AllOk(c, v, subs, Left(depth), i))
      {
        if subs[i].Map? {
          ghost var before := errs;
          Validate(path + ["allOf"], v, subs[i].fields, depth + 1);
          AppendsBoth(old(errs), before, errs, AllOk(c, v, subs, Left(depth), i),
              Conforms(c, v, subs[i].fields, Left(depth) - 1));
        }
      }
    }

    method AnyPasses(path: seq<string>, v: Tree, subs: seq<Tree>, depth: nat) returns (passed: bool)
      requires depth < MAX_DEPTH
      ensures passed <==> AnyOk(c, v, subs, Left(depth))
      decreases Left(depth), 7
    {
      hide Conforms;
      for i := 0 to |subs|
        invariant forall j :: 0 <= j < i && subs[j].Map? ==> !Conforms(c, v, subs[j].fields, Left(depth) - 1)
      {
        if subs[i].Map? {
          var ok := Probe(path, v, subs[i].fields, depth + 1);
          if ok {
            assert subs[i] in subs;
            return true;
          }
        }
      }
      passed := false;
    }

    method CountMatches(path: seq<string>, v: Tree, subs: seq<Tree>, depth: nat) returns (matches: nat)
      requires depth < MAX_DEPTH
      ensures matches == 1 <==> OneOk(c, v, subs, Left(depth))
      decreases Left(depth), 7
    {
      hide Conforms;
      matches := 0;
      for i := 0 to |subs|
        invariant matches == Matching(c, v, subs[..i], Left(depth))
      {
        assert subs[..i + 1][..i] == subs[..i];
        if subs[i].Map? {
          var ok := Probe(path, v, subs[i].fields, depth + 1);
          if ok {
            matches := matches + 1;
          }
        }
      }
      assert subs[..|subs|] == subs;
    }

    // ----- types -----

    method ValidateDeclared(path: seq<string>, v: Tree, s: Object, depth: nat)
      requires depth < MAX_DEPTH
      modifies this
      ensures Appends(old(errs), errs, TypeOk(c, v, s, Left(depth)))
      decreases Left(depth), 8
    {
      hide Appends, HasType, ObjectOk, ArrayOk, StringOk, NumberOk, HasAny, TypeMatches;
      if StringAt(s, "type").Some? {
        ValidateType(path, StringAt(s, "type").value, v, s, depth);
        return;
      }
      if ListAt(s, "type").Some? {
        var ts := ListAt(s, "type").value;
        for i := 0 to |ts|
          invariant errs == old(errs) && FirstType(ts, v, 0) == FirstType(ts, v, i)
        {
          if ts[i].Str? && TypeMatches(ts[i].s, v) {
            ValidateType(path, ts[i].s, v, s, depth);
            return;
          }
        }
        Require(false, path, "type");
        return;
      }
      AppendsNothing(errs);
      if v.Map? {
        if HasAny(s, OBJECT_KEYWORDS) { ValidateObject(path, v.fields, s, depth); }
      } else if v.List? {
        if HasAny(s, ARRAY_KEYWORDS) { ValidateArray(path, v.items, s, depth); }
      } else if v.Str? {
        if HasAny(s, STRING_KEYWORDS) { ValidateString(path, v.s, s); }
      } else if Numeric(v).Some? {
        if HasAny(s, NUMERIC_KEYWORDS) { ValidateNumeric(path, Numeric(v).value, s); }
      }
    }

    method ValidateType(path: seq<string>, t: string, v: Tree, s: Object, depth: nat)
      requires depth < MAX_DEPTH
      modifies this
      ensures Appends(old(errs), errs, HasType(c, t, v, s, Left(depth)))
      decreases Left(depth), 7
    {
      hide Appends, ObjectOk, ArrayOk, StringOk, NumberOk, IsWhole;
      AppendsNothing(errs);
      match t {
        case "object" =>
          if v.Map? { ValidateObject(path, v.fields, s, depth); } else { Require(v.Null?, path, "type"); }
        case "array" =>
          if v.List? { ValidateArray(path, v.items, s, depth); } else { Require(v.Null?, path, "type"); }
        case "string" =>
          if v.Str? { ValidateString(path, v.s, s); } else { Require(v.Null?, path, "type"); }
        case "integer" =>
          if Numeric(v).None? || !IsWhole(Numeric(v).value) { Require(false, path, "type"); }
              else { ValidateNumeric(path, Numeric(v).value, s); }
        case "number" =>
          if Numeric(v).None? { Require(false, path, "type"); } else { ValidateNumeric(path, Numeric(v).value, s); }
        case "boolean" => Require(v.Bool?, path, "type");
        case "null" => Require(v.Null?, path, "type");
        case _ =>
      }
    }

    method ValidateString(path: seq<string>, x: string, s: Object)
      modifies this
      ensures Appends(old(errs), errs, StringOk(c, x, s))
    {
      hide Appends, ByteLength, Truncated;
      ghost var e0 := errs;
      var short := NumberAt(s, "minLength").Some? && ByteLength(x) < Truncated(NumberAt(s, "minLength").value);
      Require(!short, path, "minLength");
      ghost var e1 := errs;
      var long := NumberAt(s, "maxLength").Some? && ByteLength(x) > Truncated(NumberAt(s, "maxLength").value);
      Require(!long, path, "maxLength");
      ghost var e2 := errs;
      var pattern := StringAt(s, "pattern").Some? ==>
          c.compiles(StringAt(s, "pattern").value) && c.matches(StringAt(s, "pattern").value, x);
      Require(pattern, path, "pattern");
      ghost var e3 := errs;
      var format := StringAt(s, "format").Some? ==> c.formatOk(StringAt(s, "format").value, x);
      Require(format, path, "format");
      AppendsBoth(e0, e1, e2, !short, !long);
      AppendsBoth(e0, e2, e3, !short && !long, pattern);
      AppendsBoth(e0, e3, errs, !short && !long && pattern, format);
    }

    method ValidateNumeric(path: seq<string>, f: real, s: Object)
      modifies this
      ensures Appends(old(errs), errs, NumberOk(f, s))
    {
      hide Appends, NearlyWhole;
      ghost var e0 := errs;
      var least := NumberAt(s, "minimum").Some? ==> f >= NumberAt(s, "minimum").value;
      Require(least, path, "minimum");
      ghost var e1 := errs;
      var most := NumberAt(s, "maximum").Some? ==> f <= NumberAt(s, "maximum").value;
      Require(most, path, "maximum");
      ghost var e2 := errs;
      var above := NumberAt(s, "exclusiveMinimum").Some? ==> f > NumberAt(s, "exclusiveMinimum").value;
      Require(above, path, "exclusiveMinimum");
      ghost var e3 := errs;
      var below := NumberAt(s, "exclusiveMaximum").Some? ==> f < NumberAt(s, "exclusiveMaximum").value;
      Require(below, path, "exclusiveMaximum");
      ghost var e4 := errs;
      var multiple := NumberAt(s, "multipleOf").Some? && NumberAt(s, "multipleOf").value != 0.0 ==>
          NearlyWhole(f / NumberAt(s, "multipleOf").value);
      Require(multiple, path, "multipleOf");
      AppendsBoth(e0, e1, e2, least, most);
      AppendsBoth(e0, e2, e3, least && most, above);
      AppendsBoth(e0, e3, e4, least && most && above, below);
      AppendsBoth(e0, e4, errs, least && most && above && below, multiple);
    }

    // ----- arrays -----

    method ValidateSize(path: seq<string>, size: nat, s: Object, least: string, most: string)
      modifies this
      ensures Appends(old(errs), errs, SizeOk(size, s, least, most))
    {
      hide Appends;
      ghost var e0 := errs;
      var enough := NumberAt(s, least).Some? ==> size as real >= NumberAt(s, least).value;
      Require(enough, path, least);
      ghost var e1 := errs;
      var few := NumberAt(s, most).Some? ==> size as real <= NumberAt(s, most).value;
      Require(few, path, most);
      AppendsBoth(e0, e1, errs, enough, few);
    }

    method ValidateUnique(path: seq<string>, items: seq<Tree>)
      modifies this
      ensures Appends(old(errs), errs, Unique(items))
    {
      hide Appends;
      AppendsNothing(errs);
      for i := 0 to |items|
        invariant Appends(old(errs), errs, Unique(items[..i]))
      {
        ghost var before := errs;
        AppendsNothing(before);
        for j := 0 to i
          invariant Appends(before, errs, items[i] !in items[..j])
        {
          ghost var e := errs;
          Require(items[j] != items[i], path, "uniqueItems");
          AppendsBoth(before, e, errs, items[i] !in items[..j], items[j] != items[i]);
          assert items[..j + 1] == items[..j] + [items[j]];
        }
        UniqueSnoc(items, i);
        AppendsBoth(old(errs), before, errs, Unique(items[..i]), items[i] !in items[..i]);
      }
      assert items[..|items|] == items;
    }

    method ValidateArray(path: seq<string>, items: seq<Tree>, s: Object, depth: nat)
      requires depth < MAX_DEPTH
      modifies this
      ensures Appends(old(errs), errs, ArrayOk(c, items, s, Left(depth)))
      decreases Left(depth), 6
    {
      hide Appends, SizeOk, Unique, Conforms;
      ghost var e0 := errs;
      ValidateSize(path, |items|, s, "minItems", "maxItems");
      ghost var e1 := errs;
      ghost var unique, each := true, true;
      AppendsNothing(e1);
      if "uniqueItems" in s && s["uniqueItems"] == Bool(true) {
        ValidateUnique(path, items);
        unique := Unique(items);
      }
      ghost var e2 := errs;
      AppendsNothing(e2);
      if MapAt(s, "items").Some? {
        ValidateItems(path, items, MapAt(s, "items").value, depth);
        each := ItemsOk(c, items, MapAt(s, "items").value, Left(depth), |items|);
      }
      AppendsBoth(e0, e1, e2, SizeOk(|items|, s, "minItems", "maxItems"), unique);
      AppendsBoth(e0, e2, errs, SizeOk(|items|, s, "minItems", "maxItems") && unique, each);
    }

    method ValidateItems(path: seq<string>, items: seq<Tree>, s: Object, depth: nat)
      requires depth < MAX_DEPTH
      modifies this
      ensures Appends(old(errs), errs, ItemsOk(c, items, s, Left(depth), |items|))
      decreases Left(depth), 5
    {
      hide Appends, Conforms;
      AppendsNothing(errs);
      for i := 0 to |items|
        invariant Appends(old(errs), errs, ItemsOk(c, items, s, Left(depth), i))
      {
        ghost var before := errs;
        Validate(path + ["[]"], items[i], s, depth + 1);
        AppendsBoth(old(errs), before, errs, ItemsOk(c, items, s, Left(depth), i),
            Conforms(c, items[i], s, Left(depth) - 1));
      }
    }

    // ----- objects -----

    method ValidateObject(path: seq<string>, obj: Object, s: Object, depth: nat)
      requires depth < MAX_DEPTH
      modifies this
      ensures Appends(old(errs), errs, ObjectOk(c, obj, s, Left(depth)))
      decreases Left(depth), 6
    {
      hide Appends, RequiredOk, SizeOk, DependentOk, PropertyOk, Patterns;
      ghost var e0 := errs;
      ValidateRequired(path, obj, s);
      ghost var e1 := errs;
      ValidateSize(path, |obj|, s, "minProperties", "maxProperties");
      ghost var e2 := errs;
      ValidateDependent(path, obj, s);
      ghost var e3 := errs;
      var usable := CompilePatterns(path, s);
      ghost var e4 := errs;
      ValidateProperties(path, obj, s, depth, usable);
      AppendsBoth(e0, e1, e2, RequiredOk(obj, s), SizeOk(|obj|, s, "minProperties", "maxProperties"));
      ghost var p2 := RequiredOk(obj, s) && SizeOk(|obj|, s, "minProperties", "maxProperties");
      AppendsBoth(e0, e2, e3, p2, DependentOk(obj, s));
      ghost var p3 := p2 && DependentOk(obj, s);
      AppendsBoth(e0, e3, e4, p3, AllCompile(c, s, Patterns(s).Keys));
      ghost var p4 := p3 && AllCompile(c, s, Patterns(s).Keys);
      AppendsBoth(e0, e4, errs, p4, PropertiesOk(c, obj, s, Left(depth), obj.Keys));
    }

    method ValidateRequired(path: seq<string>, obj: Object, s: Object)
      modifies this
      ensures Appends(old(errs), errs, RequiredOk(obj, s))
    {
      hide Appends;
      AppendsNothing(errs);
      if ListAt(s, "required").Some? {
        ValidatePresent(path, obj, ListAt(s, "required").value, "required");
      }
    }

    method ValidatePresent(path: seq<string>, obj: Object, names: seq<Tree>, keyword: string)
      modifies this
      ensures Appends(old(errs), errs, NamesPresent(obj, names, |names|))
    {
      hide Appends;
      AppendsNothing(errs);
      for i := 0 to |names|
        invariant Appends(old(errs), errs, NamesPresent(obj, names, i))
      {
        if names[i].Str? {
          ghost var before := errs;
          Require(names[i].s in obj, path + [names[i].s], keyword);
          AppendsBoth(old(errs), before, errs, NamesPresent(obj, names, i), names[i].s in obj);
        }
      }
    }

    method ValidateDependent(path: seq<string>, obj: Object, s: Object)
      modifies this
      ensures Appends(old(errs), errs, DependentOk(obj, s))
    {
      hide Appends;
      AppendsNothing(errs);
      if MapAt(s, "dependentRequired").None? {
        return;
      }
      var dr := MapAt(s, "dependentRequired").value;
      var left := dr.Keys;
      while left != {}
        invariant left <= dr.Keys && Appends(old(errs), errs, TriggersOk(obj, dr, dr.Keys - left))
        decreases |left|
      {
        var k :| k in left;
        ghost var before, seen := errs, dr.Keys - left;
        AppendsNothing(before);
        if k in obj && dr[k].List? {
          ValidatePresent(path, obj, dr[k].items, "dependentRequired");
        }
        left := left - {k};
        assert dr.Keys - left == seen + {k};
        AppendsBoth(old(errs), before, errs, TriggersOk(obj, dr, seen), TriggerOk(obj, dr, k));
      }
      assert DependentOk(obj, s) <==> forall k :: k in dr.Keys ==> TriggerOk(obj, dr, k);
    }

    /** Reports patterns that do not compile and returns those to match keys against. */
    method CompilePatterns(path: seq<string>, s: Object) returns (usable: set<string>)
      modifies this
      ensures Appends(old(errs), errs, AllCompile(c, s, Patterns(s).Keys))
      ensures usable == Usable(c, s)
    {
      hide Appends, AllCompile, UsableAmong, Patterns;
      AppendsNothing(errs);
      NoPatternYet(c, s);
      usable := {};
      var all := Patterns(s).Keys;
      var left := all;
      while left != {}
        invariant left <= all && Appends(old(errs), errs, AllCompile(c, s, all - left))
        invariant usable == UsableAmong(c, s, all - left)
        decreases |left|
      {
        var p :| p in left;
        ghost var seen := all - left;
        usable := CompileOne(path, s, p, usable, seen, old(errs));
        left := left - {p};
        assert all - left == seen + {p};
      }
      assert all - {} == all;
    }

    method CompileOne(path: seq<string>, s: Object, p: string, usable: set<string>, ghost seen: set<string>,
        ghost first: seq<Problem>) returns (next: set<string>)
      requires p in Patterns(s) && usable == UsableAmong(c, s, seen) && Appends(first, errs, AllCompile(c, s, seen))
      modifies this
      ensures next == UsableAmong(c, s, seen + {p}) && Appends(first, errs, AllCompile(c, s, seen + {p}))
    {
      hide Appends, AllCompile, UsableAmong, Patterns;
      ghost var before := errs;
      Require(c.compiles(p), path, "patternProperties");
      AppendsBoth(first, before, errs, AllCompile(c, s, seen), c.compiles(p));
      OnePatternMore(c, s, seen, p);
      next := usable + if c.compiles(p) && Patterns(s)[p].Map? then {p} else {};
    }

    method ValidateProperties(path: seq<string>, obj: Object, s: Object, depth: nat, usable: set<string>)
      requires depth < MAX_DEPTH && usable == Usable(c, s)
      modifies this
      ensures Appends(old(errs), errs, PropertiesOk(c, obj, s, Left(depth), obj.Keys))
      decreases Left(depth), 5
    {
      hide Appends, PropertyOk, Usable;
      AppendsNothing(errs);
      var left := obj.Keys;
      while left != {}
        invariant left <= obj.Keys && Appends(old(errs), errs, PropertiesOk(c, obj, s, Left(depth), obj.Keys - left))
        decreases |left|
      {
        var k :| k in left;
        ghost var before, seen := errs, obj.Keys - left;
        ValidateProperty(path + [k], k, obj[k], s, depth, usable);
        left := left - {k};
        assert obj.Keys - left == seen + {k};
        AppendsBoth(old(errs), before, errs, PropertiesOk(c, obj, s, Left(depth), seen),
            PropertyOk(c, k, obj[k], s, Left(depth)));
      }
    }

    method ValidateProperty(path: seq<string>, k: string, v: Tree, s: Object, depth: nat, usable: set<string>)
      requires depth < MAX_DEPTH && usable == Usable(c, s)
      modifies this
      ensures Appends(old(errs), errs, PropertyOk(c, k, v, s, Left(depth)))
      decreases Left(depth), 4
    {
      hide Appends, Conforms, Usable, MatchedOk;
      ghost var e0, n := errs, Left(depth);
      AppendsNothing(e0);
      var matched := false;
      ghost var known := true;
      if Known(s, k) {
        Validate(path, v, Properties(s)[k].fields, depth + 1);
        known := Conforms(c, v, Properties(s)[k].fields, n - 1);
        matched := true;
      }
      ghost var e1 := errs;
      var some := ValidateMatched(path, k, v, s, depth, usable);
      AppendsBoth(e0, e1, errs, known, MatchedOk(c, k, v, s, n, usable));
      MatchedMeaning(c, k, v, s, n, usable);
      if matched || some {
        return;
      }
      ghost var e2 := errs;
      AppendsNothing(e2);
      if "additionalProperties" in s {
        var additional := s["additionalProperties"];
        if additional == Bool(false) {
          Require(false, path, "additionalProperties");
        } else if additional.Map? {
          Validate(path, v, additional.fields, depth + 1);
        }
      }
      AppendsBoth(e0, e2, errs, MatchedOk(c, k, v, s, n, usable), AdditionalOk(c, v, s, n));
    }

    method ValidateMatched(path: seq<string>, k: string, v: Tree, s: Object, depth: nat, usable: set<string>)
        returns (some: bool)
      requires depth < MAX_DEPTH && usable == Usable(c, s)
      modifies this
      ensures Appends(old(errs), errs, MatchedOk(c, k, v, s, Left(depth), usable))
      ensures some <==> SomeMatches(c, k, usable)
      decreases Left(depth), 3
    {
      hide Appends, Conforms, MatchedOk, SomeMatches;
      AppendsNothing(errs);
      NoMatchYet(c, k, v, s, Left(depth));
      some := false;
      var left := usable;
      assert usable - left == {};
      while left != {}
        invariant left <= usable && Appends(old(errs), errs, MatchedOk(c, k, v, s, Left(depth), usable - left))
        invariant some <==> SomeMatches(c, k, usable - left)
        decreases |left|
      {
        var p :| p in left;
        ghost var before, seen := errs, usable - left;
        left := left - {p};
        assert usable - left == seen + {p};
        OneMatchMore(c, k, v, s, Left(depth), seen, p);
        if c.matches(p, k) {
          Validate(path, v, Patterns(s)[p].fields, depth + 1);
          some := true;
          AppendsBoth(old(errs), before, errs, MatchedOk(c, k, v, s, Left(depth), seen),
              Conforms(c, v, Patterns(s)[p].fields, Left(depth) - 1));
        }
      }
      assert usable - {} == usable;
    }
  }

  method EnumContains(enum: seq<Tree>, v: Tree) returns (found: bool)
    ensures found <==> exists i :: 0 <= i < |enum| && EqualAny(enum[i], v)
  {
    for i := 0 to |enum|
      invariant forall j :: 0 <= j < i ==> !EqualAny(enum[j], v)
    {
      if EqualAny(enum[i], v) {
        return true;
      }
    }
    found := false;
  }

  // ----- the loops' partial results -----

  ghost predicate AllOk(c: Context, v: Tree, subs: seq<Tree>, n: nat, i: nat)
    requires n > 0 && i <= |subs|
  {
    forall j :: 0 <= j < i && subs[j].Map? ==> Conforms(c, v, subs[j].fields, n - 1)
  }

  ghost predicate AnyOk(c: Context, v: Tree, subs: seq<Tree>, n: nat)
    requires n > 0
  {
    exists sub :: sub in subs && sub.Map? && Conforms(c, v, sub.fields, n - 1)
  }

  ghost predicate OneOk(c: Context, v: Tree, subs: seq<Tree>, n: nat)
    requires n > 0
  {
    Matching(c, v, subs, n) == 1
  }

  lemma CombinatorsMeaning(c: Context, v: Tree, s: Object, n: nat)
    requires n > 0
    ensures CombinatorsOk(c, v, s, n) <==>
            && (ListAt(s, "allOf").Some? ==> AllOk(c, v, ListAt(s, "allOf").value, n, |ListAt(s, "allOf").value|))
            && (ListAt(s, "anyOf").Some? ==> AnyOk(c, v, ListAt(s, "anyOf").value, n))
            && (ListAt(s, "oneOf").Some? ==> OneOk(c, v, ListAt(s, "oneOf").value, n))
            && (MapAt(s, "not").Some? ==> !Conforms(c, v, MapAt(s, "not").value, n - 1))
  {
    hide Conforms, Matching;
    if ListAt(s, "allOf").Some? {
      AllMeaning(c, v, ListAt(s, "allOf").value, n);
    }
  }

  lemma AllMeaning(c: Context, v: Tree, subs: seq<Tree>, n: nat)
    requires n > 0
    ensures AllOk(c, v, subs, n, |subs|) <==>
        forall sub :: sub in subs && sub.Map? ==> Conforms(c, v, sub.fields, n - 1)
  {
    hide Conforms;
  }

  ghost predicate ItemsOk(c: Context, items: seq<Tree>, s: Object, n: nat, i: nat)
    requires n > 0 && i <= |items|
  {
    forall j :: 0 <= j < i ==> Conforms(c, items[j], s, n - 1)
  }

  lemma UniqueSnoc(items: seq<Tree>, i: nat)
    requires i < |items|
    ensures Unique(items[..i + 1]) <==> Unique(items[..i]) && items[i] !in items[..i]
  {
    var longer, shorter := items[..i + 1], items[..i];
    assert forall j :: 0 <= j < i ==> longer[j] == shorter[j];
    assert longer[i] == items[i];
  }

  ghost predicate NamesPresent(obj: Object, names: seq<Tree>, i: nat)
    requires i <= |names|
  {
    forall j :: 0 <= j < i && names[j].Str? ==> names[j].s in obj
  }

  ghost predicate TriggerOk(obj: Object, dr: Object, k: string) {
    k in dr && k in obj && dr[k].List? ==> NamesPresent(obj, dr[k].items, |dr[k].items|)
  }

  ghost predicate TriggersOk(obj: Object, dr: Object, seen: set<string>) {
    forall k :: k in seen ==> TriggerOk(obj, dr, k)
  }

  ghost predicate AllCompile(c: Context, s: Object, seen: set<string>) {
    forall p :: p in seen ==> c.compiles(p)
  }

  function UsableAmong(c: Context, s: Object, seen: set<string>): set<string> {
    set p | p in seen && p in Patterns(s) && c.compiles(p) && Patterns(s)[p].Map?
  }

  function Usable(c: Context, s: Object): set<string> {
    UsableAmong(c, s, Patterns(s).Keys)
  }

  lemma NoPatternYet(c: Context, s: Object)
    ensures Patterns(s).Keys - Patterns(s).Keys == {} && UsableAmong(c, s, {}) == {} && AllCompile(c, s, {})
  {
  }

  lemma OnePatternMore(c: Context, s: Object, seen: set<string>, p: string)
    requires p in Patterns(s)
    ensures UsableAmong(c, s, seen + {p}) == UsableAmong(c, s, seen) + if c.compiles(p)
        && Patterns(s)[p].Map? then {p} else {}
    ensures AllCompile(c, s, seen + {p}) <==> AllCompile(c, s, seen) && c.compiles(p)
  {
  }

  ghost predicate SomeMatches(c: Context, k: string, seen: set<string>) {
    exists p :: p in seen && c.matches(p, k)
  }

  lemma OneMatchMore(c: Context, k: string, v: Tree, s: Object, n: nat, seen: set<string>, p: string)
    requires n > 0 && p in Patterns(s) && Patterns(s)[p].Map?
    ensures SomeMatches(c, k, seen + {p}) <==> SomeMatches(c, k, seen) || c.matches(p, k)
    ensures MatchedOk(c, k, v, s, n, seen + {p}) <==>
        MatchedOk(c, k, v, s, n, seen) && (c.matches(p, k) ==> Conforms(c, v, Patterns(s)[p].fields, n - 1))
  {
    hide Conforms, Patterns;
  }

  lemma NoMatchYet(c: Context, k: string, v: Tree, s: Object, n: nat)
    requires n > 0
    ensures !SomeMatches(c, k, {}) && MatchedOk(c, k, v, s, n, {})
  {
  }

  ghost predicate PropertiesOk(c: Context, obj: Object, s: Object, n: nat, seen: set<string>)
    requires n > 0
  {
    forall k :: k in seen && k in obj ==> PropertyOk(c, k, obj[k], s, n)
  }

  ghost predicate MatchedOk(c: Context, k: string, v: Tree, s: Object, n: nat, seen: set<string>)
    requires n > 0
  {
    forall p :: p in seen && p in Patterns(s) && Patterns(s)[p].Map? && c.matches(p, k) ==>
        Conforms(c, v, Patterns(s)[p].fields, n - 1)
  }

  ghost predicate AdditionalOk(c: Context, v: Tree, s: Object, n: nat)
    requires n > 0
  {
    "additionalProperties" in s ==>
      s["additionalProperties"] != Bool(false)
      && (s["additionalProperties"].Map? ==> Conforms(c, v, s["additionalProperties"].fields, n - 1))
  }

  lemma MatchedMeaning(c: Context, k: string, v: Tree, s: Object, n: nat, usable: set<string>)
    requires n > 0 && usable == Usable(c, s)
    ensures MatchedOk(c, k, v, s, n, usable) <==>
        forall p :: p in Patterns(s) && Applies(c, s, p, k) ==> Conforms(c, v, Patterns(s)[p].fields, n - 1)
    ensures SomeMatches(c, k, usable) <==> exists p :: p in Patterns(s) && Applies(c, s, p, k)
  {
    hide Conforms;
  }

  /** Main result: values are accepted exactly when they conform to the root schema within the nesting bound. */
  method ValidateValues(c: Context, values: Object) returns (problems: seq<Problem>)
    ensures problems == [] <==> Conforms(c, Map(values), c.root, 32)
  {
    hide Conforms;
    var checker := new Checker(c);
    checker.Validate(["$"], Map(values), c.root, 0);
    problems := checker.errs;
  }
}
