/** Parsed YAML values. Omit marks a value the template engine is to drop. */
module Trees {

  datatype Tree =
    | Null | Bool(b: bool) | Int(n: int) | Real(r: real) | Str(s: string)
    | List(items: seq<Tree>) | Map(fields: map<string, Tree>) | Omit
}
