/** The JSON Schema subset values are checked against: what conforms, as a pure
    predicate over a nesting bound, and what the collected problems say about it. */
module Schema {
  import opened Basics
  import opened Trees

  type Object = map<string, Tree>

  const MAX_DEPTH: nat := 32

  /** The whole schema document, and the pattern and format matchers. */
  datatype Context = Context(root: Object, compiles: string -> bool, matches: (string, string) -> bool,
      formatOk: (string, string) -> bool)

  // ----- reading keywords -----

  function Numeric(v: Tree): Option<real> {
    match v
    case Int(n) => Some(n as real)
    case Real(r) => Some(r)
    case _ => None
  }

  function NumberAt(s: Object, k: string): Option<real> {
    if k in s then Numeric(s[k]) else None
  }

  function ListAt(s: Object, k: string): Option<seq<Tree>> {
    if k in s && s[k].List? then Some(s[k].items) else None
  }

  function MapAt(s: Object, k: string): Option<Object> {
    if k in s && s[k].Map? then Some(s[k].fields) else None
  }

  function StringAt(s: Object, k: string): Option<string> {
    if k in s && s[k].Str? then Some(s[k].s) else None
  }

  /** Numbers compare by value at the top level, inside lists and maps by representation. */
  predicate EqualAny(a: Tree, b: Tree) {
    a == b || (Numeric(a).Some? && Numeric(a) == Numeric(b))
  }

  // ----- references -----

  function SplitSlash(s: string): (parts: seq<string>)
    ensures parts != []
  {
    if s == "" then [""]
    else
      var rest := SplitSlash(s[1..]);
      if s[0] == '/' then [""] + rest else [[s[0]] + rest[0]] + rest[1..]
  }

  /** Every occurrence of the two characters, left to right, becomes the one. */
  function ReplaceAll(s: string, first: char, second: char, put: char): string {
    if |s| < 2 then s
    else if s[0] == first && s[1] == second then [put] + ReplaceAll(s[2..], first, second, put)
    else [s[0]] + ReplaceAll(s[1..], first, second, put)
  }

  function Unescape(part: string): string {
    ReplaceAll(ReplaceAll(part, '~', '1', '/'), '~', '0', '~')
  }

  function Follow(t: Tree, parts: seq<string>): Option<Tree> {
    if parts == [] then Some(t)
    else if t.Map? && Unescape(parts[0]) in t.fields then Follow(t.fields[Unescape(parts[0])], parts[1..])
    else None
  }

  function ResolveRef(c: Context, ref: string): Option<Object> {
    if !("#/" <= ref) then None
    else
      match Follow(Map(c.root), SplitSlash(ref[2..]))
      case Some(Map(m)) => Some(m)
      case _ => None
  }

  // ----- what conforms -----

  function Utf8Size(c: char): nat {
    if c < '\U{80}' then 1 else if c < '\U{800}' then 2 else if c < '\U{10000}' then 3 else 4
  }

  function ByteLength(s: string): nat {
    if s == "" then 0 else Utf8Size(s[0]) + ByteLength(s[1..])
  }

  function Truncated(x: real): int {
    if x >= 0.0 then x.Floor else -((-x).Floor)
  }

  predicate IsWhole(x: real) {
    x.Floor as real == x
  }

  /** Within a billionth of a whole number. */
  predicate NearlyWhole(x: real) {
    var above := x - x.Floor as real;
    above <= 0.000000001 || 1.0 - above <= 0.000000001
  }

  predicate NumberOk(f: real, s: Object) {
    && (NumberAt(s, "minimum").Some? ==> f >= NumberAt(s, "minimum").value)
    && (NumberAt(s, "maximum").Some? ==> f <= NumberAt(s, "maximum").value)
    && (NumberAt(s, "exclusiveMinimum").Some? ==> f > NumberAt(s, "exclusiveMinimum").value)
    && (NumberAt(s, "exclusiveMaximum").Some? ==> f < NumberAt(s, "exclusiveMaximum").value)
    && (NumberAt(s, "multipleOf").Some? && NumberAt(s, "multipleOf").value != 0.0 ==>
        NearlyWhole(f / NumberAt(s, "multipleOf").value))
  }

  predicate StringOk(c: Context, x: string, s: Object) {
    && (NumberAt(s, "minLength").Some? ==> ByteLength(x) >= Truncated(NumberAt(s, "minLength").value))
    && (NumberAt(s, "maxLength").Some? ==> ByteLength(x) <= Truncated(NumberAt(s, "maxLength").value))
    && (StringAt(s, "pattern").Some? ==>
        c.compiles(StringAt(s, "pattern").value) && c.matches(StringAt(s, "pattern").value, x))
    && (StringAt(s, "format").Some? ==> c.formatOk(StringAt(s, "format").value, x))
  }

  predicate ValueOk(v: Tree, s: Object) {
    && ("const" in s ==> EqualAny(s["const"], v))
    && (ListAt(s, "enum").Some? ==>
        exists i :: 0 <= i < |ListAt(s, "enum").value| && EqualAny(ListAt(s, "enum").value[i], v))
  }

  predicate RequiredOk(obj: Object, s: Object) {
    ListAt(s, "required").Some? ==>
      forall i :: 0 <= i < |ListAt(s, "required").value| && ListAt(s, "required").value[i].Str? ==>
          ListAt(s, "required").value[i].s in obj
  }

  predicate DependentOk(obj: Object, s: Object) {
    MapAt(s, "dependentRequired").Some? ==>
      var dr := MapAt(s, "dependentRequired").value;
      forall k :: k in dr && k in obj && dr[k].List? ==> forall i :: 0 <= i < |dr[k].items| && dr[k].items[i].Str? ==>
          dr[k].items[i].s in obj
  }

  predicate SizeOk(size: nat, s: Object, least: string, most: string) {
    && (NumberAt(s, least).Some? ==> size as real >= NumberAt(s, least).value)
    && (NumberAt(s, most).Some? ==> size as real <= NumberAt(s, most).value)
  }

  function Patterns(s: Object): Object {
    if MapAt(s, "patternProperties").Some? then MapAt(s, "patternProperties").value else map[]
  }

  function Properties(s: Object): Object {
    if MapAt(s, "properties").Some? then MapAt(s, "properties").value else map[]
  }

  predicate Known(s: Object, k: string) {
    k in Properties(s) && Properties(s)[k].Map?
  }

  /** A usable pattern property that applies to the key. */
  predicate Applies(c: Context, s: Object, p: string, k: string) {
    p in Patterns(s) && c.compiles(p) && Patterns(s)[p].Map? && c.matches(p, k)
  }

  predicate Unique(items: seq<Tree>) {
    forall i, j :: 0 <= i < j < |items| ==> items[i] != items[j]
  }

  predicate HasAny(s: Object, keys: set<string>) {
    exists k :: k in keys && k in s
  }

  const OBJECT_KEYWORDS := {"properties", "required", "patternProperties", "additionalProperties", "dependentRequired",
      "minProperties", "maxProperties"}
  const ARRAY_KEYWORDS := {"items", "minItems", "maxItems", "uniqueItems"}
  const STRING_KEYWORDS := {"minLength", "maxLength", "pattern", "format"}
  const NUMERIC_KEYWORDS := {"minimum", "maximum", "exclusiveMinimum", "exclusiveMaximum", "multipleOf"}

  predicate TypeMatches(t: string, v: Tree) {
    match t
    case "object" => v.Map?
    case "array" => v.List?
    case "string" => v.Str?
    case "boolean" => v.Bool?
    case "null" => v.Null?
    case "integer" => Numeric(v).Some? && IsWhole(Numeric(v).value)
    case "number" => Numeric(v).Some?
    case _ => false
  }

  /** Does v conform to the schema, looking at most n schemas deep? */
  predicate Conforms(c: Context, v: Tree, s: Object, n: nat)
    decreases n, 9
  {
    n > 0 &&
    if StringAt(s, "$ref").Some? then
      ResolveRef(c, StringAt(s, "$ref").value).Some?
          && Conforms(c, v, ResolveRef(c, StringAt(s, "$ref").value).value, n - 1)
    else ValueOk(v, s) && CombinatorsOk(c, v, s, n) && TypeOk(c, v, s, n)
  }

  function Matching(c: Context, v: Tree, subs: seq<Tree>, n: nat): nat
    requires n > 0
    decreases n, 1, |subs|
  {
    if subs == [] then 0
    else
      var last := subs[|subs| - 1];
      Matching(c, v, subs[..|subs| - 1], n) + if last.Map? && Conforms(c, v, last.fields, n - 1) then 1 else 0
  }

  predicate CombinatorsOk(c: Context, v: Tree, s: Object, n: nat)
    requires n > 0
    decreases n, 8
  {
    && (ListAt(s, "allOf").Some? ==>
          forall sub :: sub in ListAt(s, "allOf").value && sub.Map? ==> Conforms(c, v, sub.fields, n - 1))
    && (ListAt(s, "anyOf").Some? ==>
          exists sub :: sub in ListAt(s, "anyOf").value && sub.Map? && Conforms(c, v, sub.fields, n - 1))
    && (ListAt(s, "oneOf").Some? ==> Matching(c, v, ListAt(s, "oneOf").value, n) == 1)
    && (MapAt(s, "not").Some? ==> !Conforms(c, v, MapAt(s, "not").value, n - 1))
  }

  /** The first of the listed types that matches, or the number of types. */
  function FirstType(ts: seq<Tree>, v: Tree, i: nat): (k: nat)
    requires i <= |ts|
    ensures i <= k <= |ts|
    ensures k < |ts| ==> ts[k].Str? && TypeMatches(ts[k].s, v)
    ensures forall j :: i <= j < k ==> !(ts[j].Str? && TypeMatches(ts[j].s, v))
    decreases |ts| - i
  {
    if i == |ts| || (ts[i].Str? && TypeMatches(ts[i].s, v)) then i else FirstType(ts, v, i + 1)
  }

  predicate TypeOk(c: Context, v: Tree, s: Object, n: nat)
    requires n > 0
    decreases n, 8
  {
    if StringAt(s, "type").Some? then HasType(c, StringAt(s, "type").value, v, s, n)
    else if ListAt(s, "type").Some? then
      var ts := ListAt(s, "type").value;
      var k := FirstType(ts, v, 0);
      k < |ts| && HasType(c, ts[k].s, v, s, n)
    else
      match v
      case Map(obj) => HasAny(s, OBJECT_KEYWORDS) ==> ObjectOk(c, obj, s, n)
      case List(items) => HasAny(s, ARRAY_KEYWORDS) ==> ArrayOk(c, items, s, n)
      case Str(x) => HasAny(s, STRING_KEYWORDS) ==> StringOk(c, x, s)
      case _ => Numeric(v).Some? && HasAny(s, NUMERIC_KEYWORDS) ==> NumberOk(Numeric(v).value, s)
  }

  /** A single named type lets null pass as an object, array or string, and an unknown name lets everything pass. */
  predicate HasType(c: Context, t: string, v: Tree, s: Object, n: nat)
    requires n > 0
    decreases n, 7
  {
    match t
    case "object" => if v.Map? then ObjectOk(c, v.fields, s, n) else v.Null?
    case "array" => if v.List? then ArrayOk(c, v.items, s, n) else v.Null?
    case "string" => if v.Str? then StringOk(c, v.s, s) else v.Null?
    case "integer" => Numeric(v).Some? && IsWhole(Numeric(v).value) && NumberOk(Numeric(v).value, s)
    case "number" => Numeric(v).Some? && NumberOk(Numeric(v).value, s)
    case "boolean" => v.Bool?
    case "null" => v.Null?
    case _ => true
  }

  predicate ObjectOk(c: Context, obj: Object, s: Object, n: nat)
    requires n > 0
    decreases n, 6
  {
    && RequiredOk(obj, s) && SizeOk(|obj|, s, "minProperties", "maxProperties") && DependentOk(obj, s)
    && (forall p :: p in Patterns(s) ==> c.compiles(p))
    && forall k :: k in obj ==> PropertyOk(c, k, obj[k], s, n)
  }

  predicate PropertyOk(c: Context, k: string, v: Tree, s: Object, n: nat)
    requires n > 0
    decreases n, 5
  {
    && (Known(s, k) ==> Conforms(c, v, Properties(s)[k].fields, n - 1))
    && (forall p :: p in Patterns(s) && Applies(c, s, p, k) ==> Conforms(c, v, Patterns(s)[p].fields, n - 1))
    && (!Known(s, k) && (forall p :: p in Patterns(s) ==> !Applies(c, s, p, k)) && "additionalProperties" in s ==>
          s["additionalProperties"] != Bool(false)
          && (s["additionalProperties"].Map? ==> Conforms(c, v, s["additionalProperties"].fields, n - 1)))
  }

  predicate ArrayOk(c: Context, items: seq<Tree>, s: Object, n: nat)
    requires n > 0
    decreases n, 6
  {
    && SizeOk(|items|, s, "minItems", "maxItems")
    && ("uniqueItems" in s && s["uniqueItems"] == Bool(true) ==> Unique(items))
    && (MapAt(s, "items").Some? ==> forall i :: 0 <= i < |items| ==>
        Conforms(c, items[i], MapAt(s, "items").value, n - 1))
  }
}
