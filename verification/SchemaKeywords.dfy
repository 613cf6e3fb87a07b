/** What each keyword admits, and that a schema asks for no more than its keywords. */
module SchemaKeywords {
  import opened Basics
  import opened Trees
  import opened Schema
  import opened SchemaLaws

  // ----- a schema is the conjunction of its keywords -----

  /** The three keywords that are read together. */
  const PROPERTIES := {"properties", "patternProperties", "additionalProperties"}

  function Group(s: Object): Object {
    map k | k in s && k in PROPERTIES :: s[k]
  }

  /** What the keywords for the kind of value ask for. */
  predicate KindOk(c: Context, v: Tree, s: Object, n: nat)
    requires n > 0
  {
    match v
    case Map(obj) => ObjectOk(c, obj, s, n)
    case List(items) => ArrayOk(c, items, s, n)
    case Str(x) => StringOk(c, x, s)
    case _ => Numeric(v).Some? ==> NumberOk(Numeric(v).value, s)
  }

  lemma NumbersByKeyword(f: real, s: Object)
    ensures NumberOk(f, s) <==> forall k :: k in s ==> NumberOk(f, Only(k, s[k]))
  {
    if NumberOk(f, s) {
      forall k | k in s ensures NumberOk(f, Only(k, s[k])) {}
    } else {
      var k :| k in NUMERIC_KEYWORDS && k in s && !NumberOk(f, Only(k, s[k]));
    }
  }

  lemma StringsByKeyword(c: Context, x: string, s: Object)
    ensures StringOk(c, x, s) <==> forall k :: k in s ==> StringOk(c, x, Only(k, s[k]))
  {
    hide ByteLength, Truncated;
    if StringOk(c, x, s) {
      forall k | k in s ensures StringOk(c, x, Only(k, s[k])) {}
    } else {
      var k :| k in STRING_KEYWORDS && k in s && !StringOk(c, x, Only(k, s[k]));
    }
  }

  lemma ArraysByKeyword(c: Context, items: seq<Tree>, s: Object, n: nat)
    requires n > 0
    ensures ArrayOk(c, items, s, n) <==> forall k :: k in s ==> ArrayOk(c, items, Only(k, s[k]), n)
  {
    hide Conforms, Unique;
    if ArrayOk(c, items, s, n) {
      forall k | k in s ensures ArrayOk(c, items, Only(k, s[k]), n) {}
    } else {
      var k :| k in ARRAY_KEYWORDS && k in s && !ArrayOk(c, items, Only(k, s[k]), n);
    }
  }

  /** The keywords for maps but for those that are read together. */
  predicate CountsOk(obj: Object, s: Object) {
    RequiredOk(obj, s) && SizeOk(|obj|, s, "minProperties", "maxProperties") && DependentOk(obj, s)
  }

  lemma RequiredReads(obj: Object, s: Object, t: Object)
    requires ListAt(t, "required") == ListAt(s, "required")
    ensures RequiredOk(obj, t) <==> RequiredOk(obj, s)
  {
  }

  lemma DependentReads(obj: Object, s: Object, t: Object)
    requires MapAt(t, "dependentRequired") == MapAt(s, "dependentRequired")
    ensures DependentOk(obj, t) <==> DependentOk(obj, s)
  {
  }

  lemma NothingRequired(obj: Object, s: Object)
    ensures "required" !in s ==> RequiredOk(obj, s)
    ensures "dependentRequired" !in s ==> DependentOk(obj, s)
  {
  }

  lemma CountKeyword(obj: Object, s: Object, k: string)
    requires k in s
    ensures CountsOk(obj, Only(k, s[k])) <==>
      && (k == "required" ==> RequiredOk(obj, s))
      && (k == "dependentRequired" ==> DependentOk(obj, s))
      && SizeOk(|obj|, Only(k, s[k]), "minProperties", "maxProperties")
  {
    hide RequiredOk, DependentOk, SizeOk;
    var t := Only(k, s[k]);
    NothingRequired(obj, t);
    if k == "required" { RequiredReads(obj, s, t); }
    if k == "dependentRequired" { DependentReads(obj, s, t); }
  }

  lemma SizesByKeyword(size: nat, s: Object)
    ensures SizeOk(size, s, "minProperties", "maxProperties") <==>
        forall k :: k in s ==> SizeOk(size, Only(k, s[k]), "minProperties", "maxProperties")
  {
    if !SizeOk(size, s, "minProperties", "maxProperties") {
      var k :| k in {"minProperties", "maxProperties"} && k in s
        && !SizeOk(size, Only(k, s[k]), "minProperties", "maxProperties");
    }
  }

  lemma CountsByKeyword(obj: Object, s: Object)
    ensures CountsOk(obj, s) <==> forall k :: k in s ==> CountsOk(obj, Only(k, s[k]))
  {
    hide RequiredOk, DependentOk, SizeOk, Only;
    SizesByKeyword(|obj|, s);
    NothingRequired(obj, s);
    forall k | k in s { CountKeyword(obj, s, k); }
  }

  predicate FieldsOk(c: Context, obj: Object, s: Object, n: nat)
    requires n > 0
  {
    && (forall p :: p in Patterns(s) ==> c.compiles(p))
    && forall k :: k in obj ==> PropertyOk(c, k, obj[k], s, n)
  }

  lemma FieldsByGroup(c: Context, obj: Object, s: Object, n: nat)
    requires n > 0
    ensures FieldsOk(c, obj, s, n) <==> FieldsOk(c, obj, Group(s), n)
    ensures s.Keys !! PROPERTIES ==> FieldsOk(c, obj, s, n)
  {
    hide Conforms;
    var g := Group(s);
    assert MapAt(g, "patternProperties") == MapAt(s, "patternProperties");
    assert MapAt(g, "properties") == MapAt(s, "properties");
    assert Patterns(g) == Patterns(s) && Properties(g) == Properties(s);
    forall k | k in obj ensures PropertyOk(c, k, obj[k], s, n) <==> PropertyOk(c, k, obj[k], g, n) {
      assert Known(g, k) == Known(s, k);
      assert forall p :: Applies(c, g, p, k) == Applies(c, s, p, k);
    }
  }

  lemma CountsAlone(obj: Object, s: Object)
    requires s.Keys <= PROPERTIES
    ensures CountsOk(obj, s)
  {
  }

  lemma ObjectsByKeyword(c: Context, obj: Object, s: Object, n: nat)
    requires n > 0
    ensures ObjectOk(c, obj, s, n) <==>
        && (forall k :: k in s && k !in PROPERTIES ==> ObjectOk(c, obj, Only(k, s[k]), n))
        && ObjectOk(c, obj, Group(s), n)
  {
    hide Conforms, PropertyOk, RequiredOk, SizeOk, DependentOk, Patterns, CountsOk, FieldsOk;
    forall t ensures ObjectOk(c, obj, t, n) <==> CountsOk(obj, t) && FieldsOk(c, obj, t, n) {
      CountsAndFields(c, obj, t, n);
    }
    CountsByKeyword(obj, s);
    FieldsByGroup(c, obj, s, n);
    CountsAlone(obj, Group(s));
    forall k | k in s && k !in PROPERTIES ensures FieldsOk(c, obj, Only(k, s[k]), n) {
      FieldsByGroup(c, obj, Only(k, s[k]), n);
    }
    forall k | k in s && k in PROPERTIES ensures CountsOk(obj, Only(k, s[k])) {
      CountsAlone(obj, Only(k, s[k]));
    }
  }

  lemma CountsAndFields(c: Context, obj: Object, s: Object, n: nat)
    requires n > 0
    ensures ObjectOk(c, obj, s, n) <==> CountsOk(obj, s) && FieldsOk(c, obj, s, n)
  {
    hide Conforms, PropertyOk, RequiredOk, SizeOk, DependentOk, Patterns;
  }

  /** The keywords for the kind of value. */
  function KindKeywords(v: Tree): set<string> {
    match v
    case Map(_) => OBJECT_KEYWORDS
    case List(_) => ARRAY_KEYWORDS
    case Str(_) => STRING_KEYWORDS
    case _ => NUMERIC_KEYWORDS
  }

  lemma NothingForKind(c: Context, v: Tree, s: Object, n: nat)
    requires n > 0 && s.Keys !! KindKeywords(v)
    ensures KindOk(c, v, s, n)
  {
    match v {
      case Map(obj) =>
        assert Patterns(s) == map[] && Properties(s) == map[];
      case _ =>
    }
  }

  lemma KindByKeyword(c: Context, v: Tree, s: Object, n: nat)
    requires n > 0
    ensures KindOk(c, v, s, n) <==>
        && (forall k :: k in s && k !in PROPERTIES ==> KindOk(c, v, Only(k, s[k]), n))
        && KindOk(c, v, Group(s), n)
  {
    hide ObjectOk, ArrayOk, StringOk, NumberOk;
    if v.Map? {
      ObjectsByKeyword(c, v.fields, s, n);
    } else {
      ScalarsAndLists(c, v, s, n);
      ScalarsAndLists(c, v, Group(s), n);
      forall k | k in s && k in PROPERTIES
          ensures KindOk(c, v, Only(k, s[k]), n) { PropertiesAreForMaps(c, v, Only(k, s[k]), n); }
      PropertiesAreForMaps(c, v, Group(s), n);
    }
  }

  lemma PropertiesAreForMaps(c: Context, v: Tree, s: Object, n: nat)
    requires n > 0 && !v.Map? && s.Keys <= PROPERTIES
    ensures KindOk(c, v, s, n)
  {
  }

  lemma ScalarsAndLists(c: Context, v: Tree, s: Object, n: nat)
    requires n > 0 && !v.Map?
    ensures KindOk(c, v, s, n) <==> forall k :: k in s ==> KindOk(c, v, Only(k, s[k]), n)
  {
    hide ArrayOk, StringOk, NumberOk;
    if v.List? {
      ArraysByKeyword(c, v.items, s, n);
    } else if v.Str? {
      StringsByKeyword(c, v.s, s);
    } else if Numeric(v).Some? {
      NumbersByKeyword(Numeric(v).value, s);
    }
  }

  lemma UntypedIsKind(c: Context, v: Tree, s: Object, n: nat)
    requires n > 0 && StringAt(s, "type").None? && ListAt(s, "type").None?
    ensures TypeOk(c, v, s, n) <==> KindOk(c, v, s, n)
  {
    hide ObjectOk, ArrayOk, StringOk, NumberOk;
    if s.Keys !! KindKeywords(v) { NothingForKind(c, v, s, n); }
  }

  lemma TypedIsBoth(c: Context, v: Tree, s: Object, n: nat)
    requires n > 0 && "type" in s && (s["type"].Str? ==> s["type"].s in TYPES)
    ensures TypeOk(c, v, s, n) <==> TypeOk(c, v, Only("type", s["type"]), n) && KindOk(c, v, s, n)
  {
    hide ObjectOk, ArrayOk, StringOk, NumberOk;
    var t := Only("type", s["type"]);
    NothingForKind(c, v, t, n);
    if s["type"].Str? || s["type"].List? {
    } else {
      UntypedIsKind(c, v, s, n);
      UntypedIsKind(c, v, t, n);
    }
  }

  const COMBINATORS := {"allOf", "anyOf", "oneOf", "not"}

  lemma CombinatorsByKeyword(c: Context, v: Tree, s: Object, n: nat)
    requires n > 0
    ensures CombinatorsOk(c, v, s, n) <==> forall k :: k in s ==> CombinatorsOk(c, v, Only(k, s[k]), n)
  {
    hide CombinatorsOk;
    if CombinatorsOk(c, v, s, n) {
      forall k | k in s ensures CombinatorsOk(c, v, Only(k, s[k]), n) { OneCombinator(c, v, s, n, k); }
    } else {
      SomeCombinator(c, v, s, n);
    }
  }

  lemma OneCombinator(c: Context, v: Tree, s: Object, n: nat, k: string)
    requires n > 0 && CombinatorsOk(c, v, s, n) && k in s
    ensures CombinatorsOk(c, v, Only(k, s[k]), n)
  {
    hide Conforms, Matching;
    forall x | x in COMBINATORS && x != k ensures x !in Only(k, s[k]) {}
  }

  lemma SomeCombinator(c: Context, v: Tree, s: Object, n: nat)
    requires n > 0 && !CombinatorsOk(c, v, s, n)
    ensures exists k :: k in s && !CombinatorsOk(c, v, Only(k, s[k]), n)
  {
    hide Conforms, Matching;
    forall k | k in s ensures ListAt(Only(k, s[k]), k) == ListAt(s, k) && MapAt(Only(k, s[k]), k) == MapAt(s, k) {}
  }

  lemma ValuesByKeyword(v: Tree, s: Object)
    ensures ValueOk(v, s) <==> forall k :: k in s ==> ValueOk(v, Only(k, s[k]))
  {
    hide EqualAny;
    if ValueOk(v, s) {
      forall k | k in s ensures ValueOk(v, Only(k, s[k])) {}
    } else {
      var k :| k in {"const", "enum"} && k in s && !ValueOk(v, Only(k, s[k]));
    }
  }

  lemma ConformsParts(c: Context, v: Tree, s: Object, n: nat)
    requires n > 0 && StringAt(s, "$ref").None?
    requires "type" in s && s["type"].Str? ==> s["type"].s in TYPES
    ensures Conforms(c, v, s, n) <==>
        && ValueOk(v, s) && CombinatorsOk(c, v, s, n) && KindOk(c, v, s, n)
        && ("type" in s ==> TypeOk(c, v, Only("type", s["type"]), n))
  {
    hide ValueOk, CombinatorsOk, KindOk, TypeOk;
    if "type" in s { TypedIsBoth(c, v, s, n); } else { UntypedIsKind(c, v, s, n); }
  }

  /** Main result: a schema without a reference asks for exactly what each of its
      keywords asks for, once the three that are read together are taken as one. */
  lemma KeywordsAreIndependent(c: Context, v: Tree, s: Object, n: nat)
    requires n > 0 && StringAt(s, "$ref").None?
    requires "type" in s && s["type"].Str? ==> s["type"].s in TYPES
    ensures Conforms(c, v, s, n) <==>
        && (forall k :: k in s && k !in PROPERTIES ==> Conforms(c, v, Only(k, s[k]), n))
        && Conforms(c, v, Group(s), n)
  {
    hide Conforms, ValueOk, CombinatorsOk, KindOk, TypeOk;
    ConformsParts(c, v, s, n);
    ConformsParts(c, v, Group(s), n);
    forall k | k in s { ConformsParts(c, v, Only(k, s[k]), n); }
    ValuesByKeyword(v, s);
    CombinatorsByKeyword(c, v, s, n);
    KindByKeyword(c, v, s, n);
    ValuesByKeyword(v, Group(s));
    CombinatorsByKeyword(c, v, Group(s), n);
    forall k | k in PROPERTIES && k in s ensures ValueOk(v, Only(k, s[k])) && CombinatorsOk(c, v, Only(k, s[k]), n) {
      PropertiesAlone(c, v, k, s[k], n);
    }
    if "type" in s { KindOnly(c, v, "type", s["type"], n); }
  }

  lemma PropertiesAlone(c: Context, v: Tree, k: string, t: Tree, n: nat)
    requires n > 0 && k in PROPERTIES
    ensures ValueOk(v, Only(k, t)) && CombinatorsOk(c, v, Only(k, t), n)
  {
  }

  lemma KindOnly(c: Context, v: Tree, k: string, t: Tree, n: nat)
    requires n > 0 && k !in KindKeywords(v)
    ensures KindOk(c, v, Only(k, t), n)
  {
    hide KindOk;
    NothingForKind(c, v, Only(k, t), n);
  }

  /** Next to an unknown type name only constants, enumerations and combinators count. */
  lemma UnknownTypeHidesKeywords(c: Context, v: Tree, s: Object, n: nat)
    requires n > 0 && StringAt(s, "$ref").None? && "type" in s && s["type"].Str? && s["type"].s !in TYPES
    ensures Conforms(c, v, s, n) <==>
        forall k :: k in s && k in {"const", "enum", "allOf", "anyOf", "oneOf", "not"} ==>
            Conforms(c, v, Only(k, s[k]), n)
  {
    hide Conforms, ValueOk, CombinatorsOk, KindOk, TypeOk;
    UnknownTypeParts(c, v, s, n);
    ValuesByKeyword(v, s);
    CombinatorsByKeyword(c, v, s, n);
    forall k | k in s && k in {"const", "enum", "allOf", "anyOf", "oneOf", "not"}
      ensures Conforms(c, v, Only(k, s[k]), n) <==> ValueOk(v, Only(k, s[k])) && CombinatorsOk(c, v, Only(k, s[k]), n)
    {
      ConformsParts(c, v, Only(k, s[k]), n);
      KindOnly(c, v, k, s[k], n);
    }
    forall k | k in s && k !in {"const", "enum", "allOf", "anyOf", "oneOf", "not"}
      ensures ValueOk(v, Only(k, s[k])) && CombinatorsOk(c, v, Only(k, s[k]), n)
    {
      NeitherValueNorCombinator(c, v, k, s[k], n);
    }
  }

  lemma UnknownTypeParts(c: Context, v: Tree, s: Object, n: nat)
    requires n > 0 && StringAt(s, "$ref").None? && "type" in s && s["type"].Str? && s["type"].s !in TYPES
    ensures Conforms(c, v, s, n) <==> ValueOk(v, s) && CombinatorsOk(c, v, s, n)
  {
    hide ValueOk, CombinatorsOk, ObjectOk, ArrayOk, StringOk, NumberOk;
    assert TypeOk(c, v, s, n) by { UnknownTypePasses(c, s["type"].s, v, s, n); }
  }

  lemma UnknownTypePasses(c: Context, t: string, v: Tree, s: Object, n: nat)
    requires n > 0 && t !in TYPES
    ensures HasType(c, t, v, s, n)
  {
  }

  lemma NeitherValueNorCombinator(c: Context, v: Tree, k: string, t: Tree, n: nat)
    requires n > 0 && k !in {"const", "enum", "allOf", "anyOf", "oneOf", "not"}
    ensures ValueOk(v, Only(k, t)) && CombinatorsOk(c, v, Only(k, t), n)
  {
  }

  /** A keyword for one kind of value alone asks for what it asks for in that kind. */
  lemma KindKeyword(c: Context, v: Tree, s: Object, n: nat)
    requires n > 0 && forall k :: k in s ==>
        k !in {"$ref", "type", "const", "enum", "allOf", "anyOf", "oneOf", "not"}
    ensures Conforms(c, v, s, n) <==> KindOk(c, v, s, n)
  {
    hide Conforms, KindOk, CombinatorsOk, ValueOk;
    ConformsParts(c, v, s, n);
    NoCombinators(c, v, s, n);
  }

  lemma NoCombinators(c: Context, v: Tree, s: Object, n: nat)
    requires n > 0 && forall k :: k in s ==> k !in {"const", "enum", "allOf", "anyOf", "oneOf", "not"}
    ensures CombinatorsOk(c, v, s, n) && ValueOk(v, s)
  {
  }

  // ----- numbers -----

  /** The tree is this number, written as an integer or as a real. */
  predicate Stands(t: Tree, x: real) {
    t == Real(x) || (t.Int? && t.n as real == x)
  }

  lemma StandsForNumber(t: Tree, x: real)
    ensures Stands(t, x) <==> Numeric(t) == Some(x)
  {
  }

  /** Main result: the numbers admitted between two bounds are the closed
      interval, and between two exclusive ones the open interval. */
  lemma NumbersWithin(c: Context, v: Tree, x: real, lo: Tree, a: real, hi: Tree, b: real, n: nat)
    requires n > 0 && Stands(v, x) && Stands(lo, a) && Stands(hi, b)
    ensures Conforms(c, v, map["minimum" := lo, "maximum" := hi], n) <==> a <= x <= b
    ensures Conforms(c, v, map["exclusiveMinimum" := lo, "exclusiveMaximum" := hi], n) <==> a < x < b
  {
    hide Conforms;
    KindKeyword(c, v, map["minimum" := lo, "maximum" := hi], n);
    KindKeyword(c, v, map["exclusiveMinimum" := lo, "exclusiveMaximum" := hi], n);
  }

  /** Within a billionth of the whole number. */
  predicate Near(y: real, k: int) {
    -0.000000001 <= y - k as real <= 0.000000001
  }

  ghost predicate NearSome(y: real) {
    exists k: int :: Near(y, k)
  }

  /** The multiples of a number are admitted, give or take a billionth of it. */
  lemma MultiplesOf(c: Context, v: Tree, x: real, m: Tree, d: real, n: nat)
    requires n > 0 && Stands(v, x) && Stands(m, d)
    ensures Conforms(c, v, Only("multipleOf", m), n) <==> d == 0.0 || NearSome(x / d)
  {
    hide Conforms, NearlyWhole;
    KindKeyword(c, v, Only("multipleOf", m), n);
    if d != 0.0 { NearAWhole(x / d); }
  }

  lemma NearAWhole(y: real)
    ensures NearlyWhole(y) <==> NearSome(y)
  {
    assert NearlyWhole(y) <==> Near(y, y.Floor) || Near(y, y.Floor + 1);
    forall k: int | Near(y, k) ensures k == y.Floor || k == y.Floor + 1 {
      assert y - 1.0 < k as real < y + 1.0;
    }
  }

  // ----- lengths and sizes -----

  /** The bytes of a text are those of its characters, one to four each. */
  lemma {:induction false} BytesOf(x: string, y: string, ch: char)
    ensures ByteLength(x + y) == ByteLength(x) + ByteLength(y) && ByteLength("") == 0
    ensures ByteLength([ch]) ==
        if ch < '\U{80}' then 1 else if ch < '\U{800}' then 2 else if ch < '\U{10000}' then 3 else 4
    decreases |x|
  {
    if x == "" {
      assert x + y == y;
    } else {
      BytesOf(x[1..], y, ch);
      assert (x + y)[1..] == x[1..] + y;
    }
  }

  /** Main result: the strings admitted between two lengths are those of that
      many bytes, the bounds cut to whole numbers towards zero. */
  lemma LengthsWithin(c: Context, x: string, lo: Tree, a: real, hi: Tree, b: real, n: nat)
    requires n > 0 && Stands(lo, a) && Stands(hi, b)
    ensures Conforms(c, Str(x), map["minLength" := lo, "maxLength" := hi], n) <==>
        && ByteLength(x) as real > a - 1.0
        && (ByteLength(x) as real <= b || (ByteLength(x) == 0 && b > -1.0))
  {
    hide Conforms, ByteLength;
    KindKeyword(c, Str(x), map["minLength" := lo, "maxLength" := hi], n);
  }

  /** The lists admitted between two sizes are those of that size. */
  lemma ItemsWithin(c: Context, items: seq<Tree>, lo: Tree, a: real, hi: Tree, b: real, n: nat)
    requires n > 0 && Stands(lo, a) && Stands(hi, b)
    ensures Conforms(c, List(items), map["minItems" := lo, "maxItems" := hi], n) <==> a <= |items| as real <= b
  {
    hide Conforms;
    KindKeyword(c, List(items), map["minItems" := lo, "maxItems" := hi], n);
  }

  lemma CountKeywords(c: Context, obj: Object, s: Object, n: nat)
    requires n > 0 && forall k :: k in s ==> k in {"required", "dependentRequired", "minProperties", "maxProperties"}
    ensures Conforms(c, Map(obj), s, n) <==> CountsOk(obj, s)
  {
    hide Conforms, ObjectOk, CountsOk, FieldsOk;
    KindKeyword(c, Map(obj), s, n);
    CountsAndFields(c, obj, s, n);
    FieldsByGroup(c, obj, s, n);
  }

  /** The maps admitted between two sizes are those of that size. */
  lemma FieldsWithin(c: Context, obj: Object, lo: Tree, a: real, hi: Tree, b: real, n: nat)
    requires n > 0 && Stands(lo, a) && Stands(hi, b)
    ensures Conforms(c, Map(obj), map["minProperties" := lo, "maxProperties" := hi], n) <==> a <= |obj| as real <= b
  {
    hide Conforms;
    CountKeywords(c, obj, map["minProperties" := lo, "maxProperties" := hi], n);
  }

  // ----- lists -----

  lemma UniqueItems(c: Context, items: seq<Tree>, t: Tree, n: nat)
    requires n > 0
    ensures Conforms(c, List(items), Only("uniqueItems", t), n) <==>
        (t == Bool(true) ==> forall i, j :: 0 <= i < j < |items| ==> items[i] != items[j])
  {
    hide Conforms;
    KindKeyword(c, List(items), Only("uniqueItems", t), n);
  }

  /** Repeating an item breaks uniqueness, wherever it is put. */
  lemma RepeatingBreaksUniqueness(c: Context, items: seq<Tree>, i: nat, at: nat, n: nat)
    requires n > 0 && i < |items| && at <= |items|
    ensures !Conforms(c, List(items[..at] + [items[i]] + items[at..]), Only("uniqueItems", Bool(true)), n)
  {
    hide Conforms;
    var more := items[..at] + [items[i]] + items[at..];
    UniqueItems(c, more, Bool(true), n);
    var j := if i < at then i else i + 1;
    assert more[at] == more[j] == items[i];
  }

  // ----- maps -----

  /** The keys a list of names asks for. */
  predicate HasAll(obj: Object, names: seq<Tree>) {
    forall i :: 0 <= i < |names| && names[i].Str? ==> names[i].s in obj
  }

  lemma RequiredKeys(c: Context, obj: Object, names: seq<Tree>, n: nat)
    requires n > 0
    ensures Conforms(c, Map(obj), Only("required", List(names)), n) <==> HasAll(obj, names)
  {
    hide Conforms, CountsOk;
    CountKeywords(c, obj, Only("required", List(names)), n);
    OnlyRequired(obj, names);
  }

  lemma OnlyRequired(obj: Object, names: seq<Tree>)
    ensures CountsOk(obj, Only("required", List(names))) <==> HasAll(obj, names)
  {
    var s := Only("required", List(names));
    assert ListAt(s, "required") == Some(names);
    assert RequiredOk(obj, s) <==> HasAll(obj, names);
  }

  /** Main result: adding a key never breaks what is required, and taking a required one away always does. */
  lemma RequiredIsMonotone(c: Context, obj: Object, names: seq<Tree>, k: string, v: Tree, n: nat)
    requires n > 0 && Conforms(c, Map(obj), Only("required", List(names)), n)
    ensures Conforms(c, Map(obj[k := v]), Only("required", List(names)), n)
    ensures Conforms(c, Map(obj - {k}), Only("required", List(names)), n) <==> Str(k) !in names
  {
    hide Conforms;
    RequiredKeys(c, obj, names, n);
    RequiredKeys(c, obj[k := v], names, n);
    RequiredKeys(c, obj - {k}, names, n);
    if Str(k) in names {
      var i :| 0 <= i < |names| && names[i] == Str(k);
      assert names[i].s !in obj - {k};
    }
  }

  /** A key that is there asks for the keys that depend on it. */
  lemma DependentKeys(c: Context, obj: Object, wanted: Object, n: nat)
    requires n > 0
    ensures Conforms(c, Map(obj), Only("dependentRequired", Map(wanted)), n) <==>
        forall k :: k in wanted && k in obj && wanted[k].List? ==> HasAll(obj, wanted[k].items)
  {
    hide Conforms, CountsOk;
    CountKeywords(c, obj, Only("dependentRequired", Map(wanted)), n);
    OnlyDependent(obj, wanted);
  }

  lemma OnlyDependent(obj: Object, wanted: Object)
    ensures CountsOk(obj, Only("dependentRequired", Map(wanted))) <==>
        forall k :: k in wanted && k in obj && wanted[k].List? ==> HasAll(obj, wanted[k].items)
  {
    var s := Only("dependentRequired", Map(wanted));
    assert MapAt(s, "dependentRequired") == Some(wanted);
    assert DependentOk(obj, s) <==>
      forall k :: k in wanted && k in obj && wanted[k].List? ==> HasAll(obj, wanted[k].items);
  }

  /** Is the value of the key described by the entry? */
  predicate Fulfils(c: Context, v: Tree, entry: Tree, n: nat) {
    entry.Map? ==> Conforms(c, v, entry.fields, n)
  }

  lemma DeclaredProperties(c: Context, obj: Object, props: Object, n: nat)
    requires n > 0
    ensures Conforms(c, Map(obj), Only("properties", Map(props)), n) <==>
        forall k :: k in props && k in obj ==> Fulfils(c, obj[k], props[k], n - 1)
  {
    hide Conforms;
    var s := Only("properties", Map(props));
    KindKeyword(c, Map(obj), s, n);
    CountsAlone(obj, s);
    CountsAndFields(c, obj, s, n);
    assert Properties(s) == props && Patterns(s) == map[];
    forall k | k in obj
      ensures PropertyOk(c, k, obj[k], s, n) <==> (k in props ==> Fulfils(c, obj[k], props[k], n - 1)) {}
  }

  lemma MatchedProperties(c: Context, obj: Object, patterns: Object, n: nat)
    requires n > 0
    ensures Conforms(c, Map(obj), Only("patternProperties", Map(patterns)), n) <==>
        && (forall p :: p in patterns ==> c.compiles(p))
        && forall p, k :: p in patterns && k in obj && c.matches(p, k) ==> Fulfils(c, obj[k], patterns[p], n - 1)
  {
    hide Conforms;
    var s := Only("patternProperties", Map(patterns));
    KindKeyword(c, Map(obj), s, n);
    CountsAlone(obj, s);
    CountsAndFields(c, obj, s, n);
    assert Properties(s) == map[] && Patterns(s) == patterns;
    if forall p :: p in patterns ==> c.compiles(p) {
      forall k | k in obj
        ensures PropertyOk(c, k, obj[k], s, n) <==>
            forall p :: p in patterns && c.matches(p, k) ==> Fulfils(c, obj[k], patterns[p], n - 1)
      {
        assert forall p :: p in patterns ==>
          (Applies(c, s, p, k) <==> patterns[p].Map? && c.matches(p, k));
      }
    }
  }

  /** Neither a schema of its own nor one of a matching pattern describes the key. */
  predicate IsExtra(c: Context, k: string, props: Object, patterns: Object) {
    && !(k in props && props[k].Map?)
    && forall p :: p in patterns && patterns[p].Map? ==> !(c.compiles(p) && c.matches(p, k))
  }

  /** Main result: of the three keywords read together the first two hold by
      themselves, and the third speaks about the keys they do not describe:
      none may be there, all must conform to it, or it says nothing. */
  lemma AdditionalProperties(c: Context, obj: Object, s: Object, props: Object, patterns: Object, n: nat)
    requires n > 0 && s.Keys <= {"properties", "patternProperties", "additionalProperties"}
    requires props == if "properties" in s && s["properties"].Map? then s["properties"].fields else map[]
    requires patterns ==
        if "patternProperties" in s && s["patternProperties"].Map? then s["patternProperties"].fields else map[]
    ensures Conforms(c, Map(obj), s, n) <==>
        && Conforms(c, Map(obj), Only("properties", Map(props)), n)
        && Conforms(c, Map(obj), Only("patternProperties", Map(patterns)), n)
        && ("additionalProperties" in s ==>
              forall k :: k in obj && IsExtra(c, k, props, patterns) ==>
                s["additionalProperties"] != Bool(false)
                && Fulfils(c, obj[k], s["additionalProperties"], n - 1))
  {
    hide Conforms, IsExtra, Fulfils, Properties, Patterns, PropertyOk, KeyOk, CountsOk, KindOk;
    MapsRead(s, props, patterns);
    assert KindOk(c, Map(obj), s, n) <==> ObjectOk(c, obj, s, n) by { KindOfMap(c, obj, s, n); }
    DeclaredProperties(c, obj, props, n);
    MatchedProperties(c, obj, patterns, n);
    KindKeyword(c, Map(obj), s, n);
    CountsAlone(obj, s);
    CountsAndFields(c, obj, s, n);
    if forall p :: p in patterns ==> c.compiles(p) {
      forall k | k in obj ensures PropertyOk(c, k, obj[k], s, n) <==> KeyOk(c, k, obj[k], s, props, patterns, n) {
        GroupedKey(c, k, obj[k], s, props, patterns, n);
      }
      KeysApart(c, obj, s, props, patterns, n);
    }
  }

  lemma KindOfMap(c: Context, obj: Object, s: Object, n: nat)
    requires n > 0
    ensures KindOk(c, Map(obj), s, n) <==> ObjectOk(c, obj, s, n)
  {
    hide ObjectOk;
  }

  lemma MapsRead(s: Object, props: Object, patterns: Object)
    requires props == if "properties" in s && s["properties"].Map? then s["properties"].fields else map[]
    requires patterns ==
        if "patternProperties" in s && s["patternProperties"].Map? then s["patternProperties"].fields else map[]
    ensures Properties(s) == props && Patterns(s) == patterns
  {
  }

  predicate KeyOk(c: Context, k: string, v: Tree, s: Object, props: Object, patterns: Object, n: nat)
    requires n > 0
  {
    && (k in props ==> Fulfils(c, v, props[k], n - 1))
    && (forall p :: p in patterns && c.matches(p, k) ==> Fulfils(c, v, patterns[p], n - 1))
    && ("additionalProperties" in s && IsExtra(c, k, props, patterns) ==>
          s["additionalProperties"] != Bool(false) && Fulfils(c, v, s["additionalProperties"], n - 1))
  }

  lemma KeysApart(c: Context, obj: Object, s: Object, props: Object, patterns: Object, n: nat)
    requires n > 0
    ensures (forall k :: k in obj ==> KeyOk(c, k, obj[k], s, props, patterns, n)) <==>
        && (forall k :: k in props && k in obj ==> Fulfils(c, obj[k], props[k], n - 1))
        && (forall p, k :: p in patterns && k in obj && c.matches(p, k) ==> Fulfils(c, obj[k], patterns[p], n - 1))
        && ("additionalProperties" in s ==>
              forall k :: k in obj && IsExtra(c, k, props, patterns) ==>
                s["additionalProperties"] != Bool(false)
                && Fulfils(c, obj[k], s["additionalProperties"], n - 1))
  {
    hide IsExtra, Fulfils;
  }

  lemma GroupedKey(c: Context, k: string, v: Tree, s: Object, props: Object, patterns: Object, n: nat)
    requires n > 0 && Properties(s) == props && Patterns(s) == patterns
    requires forall p :: p in patterns ==> c.compiles(p)
    ensures PropertyOk(c, k, v, s, n) <==> KeyOk(c, k, v, s, props, patterns, n)
  {
    hide Conforms;
    assert forall p :: p in patterns ==> (Applies(c, s, p, k) <==> patterns[p].Map? && c.matches(p, k));
    assert Known(s, k) <==> k in props && props[k].Map?;
  }

  /** A keyword for another kind of value asks for nothing. */
  lemma OtherKindsPass(c: Context, v: Tree, k: string, t: Tree, n: nat)
    requires n > 0 && k in OBJECT_KEYWORDS + ARRAY_KEYWORDS + STRING_KEYWORDS + NUMERIC_KEYWORDS
    requires k in OBJECT_KEYWORDS ==> !v.Map?
    requires k in ARRAY_KEYWORDS ==> !v.List?
    requires k in STRING_KEYWORDS ==> !v.Str?
    requires k in NUMERIC_KEYWORDS ==> !v.Int? && !v.Real?
    ensures Conforms(c, v, Only(k, t), n)
  {
    hide Conforms, ObjectOk, ArrayOk, StringOk, NumberOk;
    KindKeyword(c, v, Only(k, t), n);
    if k !in KindKeywords(v) { KindOnly(c, v, k, t, n); }
  }

  // ----- texts and constants -----

  lemma TextKeywords(c: Context, x: string, p: string, n: nat)
    requires n > 0
    ensures Conforms(c, Str(x), Only("pattern", Str(p)), n) <==> c.compiles(p) && c.matches(p, x)
    ensures Conforms(c, Str(x), Only("format", Str(p)), n) <==> c.formatOk(p, x)
  {
    hide Conforms;
    KindKeyword(c, Str(x), Only("pattern", Str(p)), n);
    KindKeyword(c, Str(x), Only("format", Str(p)), n);
  }

  lemma ConstantsAlone(c: Context, v: Tree, t: Tree, ts: seq<Tree>, n: nat)
    requires n > 0
    ensures Conforms(c, v, Only("const", t), n) <==> EqualAny(t, v)
    ensures Conforms(c, v, Only("enum", List(ts)), n) <==> exists i :: 0 <= i < |ts| && EqualAny(ts[i], v)
  {
    hide Conforms, KindOk, CombinatorsOk, EqualAny;
    ConformsParts(c, v, Only("const", t), n);
    ConformsParts(c, v, Only("enum", List(ts)), n);
    KindOnly(c, v, "const", t, n);
    KindOnly(c, v, "enum", List(ts), n);
    assert CombinatorsOk(c, v, Only("const", t), n) by { ConstantsDoNotCombine(c, v, "const", t, n); }
    assert CombinatorsOk(c, v, Only("enum", List(ts)), n) by { ConstantsDoNotCombine(c, v, "enum", List(ts), n); }
  }

  lemma ConstantsDoNotCombine(c: Context, v: Tree, k: string, t: Tree, n: nat)
    requires n > 0 && k in {"const", "enum"}
    ensures CombinatorsOk(c, v, Only(k, t), n)
  {
  }

  // ----- types -----

  /** The seven types in the standard's words; a whole number may be written as a real. */
  lemma TypesMean(v: Tree)
    ensures TypeMatches("integer", v) <==> v.Int? || (v.Real? && v.r == v.r.Floor as real)
    ensures TypeMatches("number", v) <==> v.Int? || v.Real?
    ensures TypeMatches("string", v) <==> v.Str?
    ensures TypeMatches("boolean", v) <==> v.Bool?
    ensures TypeMatches("null", v) <==> v == Null
    ensures TypeMatches("array", v) <==> v.List?
    ensures TypeMatches("object", v) <==> v.Map?
  {
  }
}
