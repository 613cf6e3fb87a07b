/** References: a pointer written with its escapes finds what the keys lead to. */
module SchemaRefs {
  import opened Basics
  import opened Trees
  import opened Schema

  /** A key as RFC 6901, section 3, writes it in a pointer. */
  function Escaped(k: string): string {
    if k == "" then ""
    else (if k[0] == '~' then "~0" else if k[0] == '/' then "~1" else [k[0]]) + Escaped(k[1..])
  }

  function Path(ks: seq<string>): string
    requires ks != []
  {
    if |ks| == 1 then Escaped(ks[0]) else Escaped(ks[0]) + "/" + Path(ks[1..])
  }

  /** Where the keys, taken as they are, lead from here. */
  function At(t: Tree, ks: seq<string>): Option<Tree> {
    if ks == [] then Some(t)
    else if t.Map? && ks[0] in t.fields then At(t.fields[ks[0]], ks[1..])
    else None
  }

  /** The key with only its tildes escaped. */
  function Half(k: string): string {
    if k == "" then "" else (if k[0] == '~' then "~0" else [k[0]]) + Half(k[1..])
  }

  lemma PlainStep(ch: char, s: string, first: char, second: char, put: char)
    requires ch != first || (s != "" && s[0] != second) || s == ""
    ensures ReplaceAll([ch] + s, first, second, put) == [ch] + ReplaceAll(s, first, second, put)
  {
    assert ([ch] + s)[1..] == s;
  }

  lemma PairStep(s: string, first: char, second: char, put: char)
    ensures ReplaceAll([first, second] + s, first, second, put) == [put] + ReplaceAll(s, first, second, put)
  {
    assert ([first, second] + s)[2..] == s;
  }

  lemma {:induction false} SlashesBack(k: string)
    ensures ReplaceAll(Escaped(k), '~', '1', '/') == Half(k)
    decreases |k|
  {
    if k != "" {
      var rest := Escaped(k[1..]);
      SlashesBack(k[1..]);
      if k[0] == '~' {
        assert "~0" + rest == ['~'] + (['0'] + rest);
        PlainStep('~', ['0'] + rest, '~', '1', '/');
        PlainStep('0', rest, '~', '1', '/');
        assert ['~'] + (['0'] + Half(k[1..])) == "~0" + Half(k[1..]);
      } else if k[0] == '/' {
        PairStep(rest, '~', '1', '/');
      } else {
        PlainStep(k[0], rest, '~', '1', '/');
      }
    }
  }

  lemma {:induction false} TildesBack(k: string)
    ensures ReplaceAll(Half(k), '~', '0', '~') == k
    decreases |k|
  {
    if k != "" {
      var rest := Half(k[1..]);
      TildesBack(k[1..]);
      assert k == [k[0]] + k[1..];
      if k[0] == '~' { PairStep(rest, '~', '0', '~'); } else { PlainStep(k[0], rest, '~', '0', '~'); }
    }
  }

  /** Reading an escaped key gives the key. */
  lemma UnescapeUndoesEscaped(k: string)
    ensures Unescape(Escaped(k)) == k
  {
    SlashesBack(k);
    TildesBack(k);
  }

  lemma {:induction false} EscapedHasNoSlash(k: string)
    ensures '/' !in Escaped(k)
    decreases |k|
  {
    if k != "" { EscapedHasNoSlash(k[1..]); }
  }

  lemma {:induction false} SplitFirst(a: string, rest: string)
    requires '/' !in a
    ensures SplitSlash(a) == [a] && SplitSlash(a + "/" + rest) == [a] + SplitSlash(rest)
    decreases |a|
  {
    if a == "" {
      assert (a + "/" + rest)[1..] == rest;
    } else {
      SplitFirst(a[1..], rest);
      assert a == [a[0]] + a[1..];
      assert (a + "/" + rest)[1..] == a[1..] + "/" + rest;
    }
  }

  lemma {:induction false} FollowIsAt(t: Tree, ks: seq<string>)
    requires ks != []
    ensures Follow(t, SplitSlash(Path(ks))) == At(t, ks)
    decreases |ks|
  {
    EscapedHasNoSlash(ks[0]);
    UnescapeUndoesEscaped(ks[0]);
    if |ks| == 1 {
      SplitFirst(Escaped(ks[0]), "");
      if t.Map? && ks[0] in t.fields {
        assert Follow(t.fields[ks[0]], []) == At(t.fields[ks[0]], ks[1..]);
      }
    } else {
      SplitFirst(Escaped(ks[0]), Path(ks[1..]));
      var parts := SplitSlash(Path(ks));
      assert parts[1..] == SplitSlash(Path(ks[1..]));
      if t.Map? && ks[0] in t.fields { FollowIsAt(t.fields[ks[0]], ks[1..]); }
    }
  }

  /** Main result: a schema with a reference asks for exactly what the schema at
      the end of the keys asks for, whatever characters the keys hold and
      whatever else the schema says. */
  lemma ReferenceMeansTarget(c: Context, v: Tree, s: Object, ks: seq<string>, n: nat)
    requires ks != [] && "$ref" in s && s["$ref"] == Str("#/" + Path(ks))
    ensures Conforms(c, v, s, n) <==>
        && n > 0 && At(Map(c.root), ks).Some? && At(Map(c.root), ks).value.Map?
        && Conforms(c, v, At(Map(c.root), ks).value.fields, n - 1)
  {
    hide ValueOk, CombinatorsOk, TypeOk;
    FollowIsAt(Map(c.root), ks);
    assert ("#/" + Path(ks))[2..] == Path(ks);
  }

  /** A reference to anywhere else admits nothing. */
  lemma ForeignReferenceFails(c: Context, v: Tree, s: Object, n: nat)
    requires "$ref" in s && s["$ref"].Str? && !("#/" <= s["$ref"].s)
    ensures !Conforms(c, v, s, n)
  {
  }
}
