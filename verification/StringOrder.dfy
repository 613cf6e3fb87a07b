/** The byte-wise order Go uses on strings, and sorting by it. Sorting a list
    keeps its elements and their number, and a set of strings has one sorted
    list only, so a loop over a Go map that sorts its keys first is deterministic. */
module StringOrder {

  /** s is a prefix of t, or has the lower character where the two first differ. */
  predicate LessEq(s: string, t: string) {
    s <= t || exists k: nat :: k < |s| && k < |t| && s[..k] == t[..k] && s[k] < t[k]
  }

  /** The same order, read from the front. */
  lemma FromTheFront(s: string, t: string)
    ensures LessEq(s, t) <==>
        s == "" || (t != "" && (s[0] < t[0] || (s[0] == t[0] && LessEq(s[1..], t[1..]))))
  {
    if s != "" && t != "" {
      assert s == [s[0]] + s[1..] && t == [t[0]] + t[1..];
      if s[0] < t[0] {
        assert s[..0] == t[..0];
      } else if s[0] == t[0] {
        SameStart(s, t);
      } else {
        forall k: nat | k < |s| && k < |t| && s[k] < t[k] ensures s[..k] != t[..k] {
          assert s[..k][0] != t[..k][0];
        }
      }
    }
  }

  lemma SameStart(s: string, t: string)
    requires s != "" && t != "" && s[0] == t[0]
    ensures LessEq(s, t) <==> LessEq(s[1..], t[1..])
  {
    var s', t' := s[1..], t[1..];
    assert s == [s[0]] + s' && t == [t[0]] + t';
    if k: nat :| k < |s| && k < |t| && s[..k] == t[..k] && s[k] < t[k] {
      assert s[..k] == [s[0]] + s'[..k - 1] && t[..k] == [t[0]] + t'[..k - 1];
      assert s'[..k - 1] == s[..k][1..] == t[..k][1..] == t'[..k - 1];
      assert s'[k - 1] < t'[k - 1];
    }
    if k: nat :| k < |s'| && k < |t'| && s'[..k] == t'[..k] && s'[k] < t'[k] {
      assert s[..k + 1] == [s[0]] + s'[..k] && t[..k + 1] == [t[0]] + t'[..k];
      assert s[k + 1] < t[k + 1];
    }
  }

  lemma Reflexive(s: string)
    ensures LessEq(s, s)
  {
  }

  lemma {:induction false} Total(s: string, t: string)
    ensures LessEq(s, t) || LessEq(t, s)
  {
    hide LessEq;
    FromTheFront(s, t);
    FromTheFront(t, s);
    if s != "" && t != "" && s[0] == t[0] { Total(s[1..], t[1..]); }
  }

  lemma {:induction false} Antisymmetric(s: string, t: string)
    requires LessEq(s, t) && LessEq(t, s)
    ensures s == t
  {
    hide LessEq;
    FromTheFront(s, t);
    FromTheFront(t, s);
    if s != "" {
      Antisymmetric(s[1..], t[1..]);
      assert s == [s[0]] + s[1..] && t == [t[0]] + t[1..];
    }
  }

  lemma {:induction false} Transitive(s: string, t: string, u: string)
    requires LessEq(s, t) && LessEq(t, u)
    ensures LessEq(s, u)
  {
    hide LessEq;
    FromTheFront(s, t);
    FromTheFront(t, u);
    FromTheFront(s, u);
    if s != "" && s[0] == t[0] == u[0] { Transitive(s[1..], t[1..], u[1..]); }
  }

  predicate Sorted(ss: seq<string>) {
    forall i, j :: 0 <= i < j < |ss| ==> LessEq(ss[i], ss[j])
  }

  predicate Distinct(ss: seq<string>) {
    forall i, j :: 0 <= i < j < |ss| ==> ss[i] != ss[j]
  }

  function Elements(ss: seq<string>): set<string> {
    set s | s in ss
  }

  function Insert(s: string, ss: seq<string>): (r: seq<string>)
    requires Sorted(ss)
    ensures Sorted(r) && multiset(r) == multiset{s} + multiset(ss)
  {
    hide LessEq;
    if ss == [] then [s]
    else if LessEq(s, ss[0]) then
      InsertFirst(s, ss);
      [s] + ss
    else
      Total(s, ss[0]);
      var rest := Insert(s, ss[1..]);
      assert ss == [ss[0]] + ss[1..];
      InsertLater(s, ss, rest);
      [ss[0]] + rest
  }

  lemma InsertFirst(s: string, ss: seq<string>)
    requires Sorted(ss) && ss != [] && LessEq(s, ss[0])
    ensures Sorted([s] + ss)
  {
    hide LessEq;
    forall i | 0 <= i < |ss| ensures LessEq(s, ss[i]) {
      if i > 0 { Transitive(s, ss[0], ss[i]); }
    }
  }

  lemma InsertLater(s: string, ss: seq<string>, rest: seq<string>)
    requires Sorted(ss) && ss != [] && LessEq(ss[0], s) && Sorted(rest)
    requires multiset(rest) == multiset{s} + multiset(ss[1..])
    ensures Sorted([ss[0]] + rest)
  {
    hide LessEq;
    forall i | 0 <= i < |rest| ensures LessEq(ss[0], rest[i]) {
      assert rest[i] in multiset(rest);
      if rest[i] != s {
        assert rest[i] in ss[1..];
      }
    }
  }

  /** sort.Strings */
  function Sort(ss: seq<string>): (r: seq<string>)
    ensures Sorted(r) && multiset(r) == multiset(ss)
  {
    if ss == [] then []
    else
      assert ss == [ss[0]] + ss[1..];
      Insert(ss[0], Sort(ss[1..]))
  }

  lemma SortKeeps(ss: seq<string>)
    ensures |Sort(ss)| == |ss| && Elements(Sort(ss)) == Elements(ss)
    ensures Distinct(ss) ==> Distinct(Sort(ss))
  {
    var r := Sort(ss);
    assert |multiset(r)| == |r| && |multiset(ss)| == |ss|;
    forall s ensures s in r <==> s in ss {
      assert s in multiset(r) <==> s in multiset(ss);
    }
    if Distinct(ss) {
      CountsOne(ss);
      if i, j :| 0 <= i < j < |r| && r[i] == r[j] {
        CountsTwo(r, i, j);
      }
    }
  }

  lemma {:induction false} CountsOne(ss: seq<string>)
    requires Distinct(ss)
    ensures forall s :: multiset(ss)[s] <= 1
  {
    if ss != [] {
      CountsOne(ss[1..]);
      assert ss == [ss[0]] + ss[1..];
      assert ss[0] !in ss[1..];
    }
  }

  lemma CountsTwo<T>(ss: seq<T>, i: nat, j: nat)
    requires i < j < |ss| && ss[i] == ss[j]
    ensures multiset(ss)[ss[i]] >= 2
  {
    assert ss == ss[..j] + ss[j..];
    assert ss[i] in ss[..j] && ss[j] in ss[j..];
  }

  lemma {:induction false} DistinctSize(ss: seq<string>)
    requires Distinct(ss)
    ensures |Elements(ss)| == |ss|
  {
    if ss != [] {
      DistinctSize(ss[1..]);
      assert Elements(ss) == {ss[0]} + Elements(ss[1..]);
    }
  }

  // ----- sorted key lists -----

  ghost function Least(s: set<string>): (k: string)
    requires s != {}
    ensures k in s && forall x :: x in s ==> LessEq(k, x)
  {
    LeastExists(s);
    var k :| k in s && forall x :: x in s ==> LessEq(k, x);
    k
  }

  lemma {:induction false} LeastExists(s: set<string>)
    requires s != {}
    ensures exists k :: k in s && forall x :: x in s ==> LessEq(k, x)
    decreases |s|
  {
    hide LessEq;
    var k :| k in s;
    Reflexive(k);
    if s == {k} {
      assert forall x :: x in s ==> LessEq(k, x);
    } else {
      var rest := s - {k};
      LeastExists(rest);
      var l :| l in rest && forall x :: x in rest ==> LessEq(l, x);
      Total(k, l);
      if LessEq(k, l) {
        forall x | x in s ensures LessEq(k, x) {
          if x in rest { Transitive(k, l, x); }
        }
      } else {
        assert forall x :: x in s ==> x in rest || x == k;
      }
    }
  }

  ghost function SortedKeys(s: set<string>): seq<string>
    decreases |s|
  {
    if s == {} then [] else [Least(s)] + SortedKeys(s - {Least(s)})
  }

  lemma {:induction false} KeysListed(s: set<string>)
    ensures forall k :: k in SortedKeys(s) <==> k in s
    ensures Distinct(SortedKeys(s))
    decreases |s|
  {
    if s != {} {
      KeysListed(s - {Least(s)});
    }
  }

  lemma {:induction false} KeysSorted(s: set<string>)
    ensures Sorted(SortedKeys(s))
    decreases |s|
  {
    hide LessEq;
    if s != {} {
      var rest := SortedKeys(s - {Least(s)});
      KeysSorted(s - {Least(s)});
      KeysListed(s - {Least(s)});
      forall i | 0 <= i < |rest| ensures LessEq(Least(s), rest[i]) {
        assert rest[i] in rest;
      }
    }
  }

  /** The greatest key is listed last. */
  lemma GreatestIsLast(s: set<string>, k: string)
    requires k in s && forall x :: x in s ==> LessEq(x, k)
    ensures SortedKeys(s) == SortedKeys(s - {k}) + [k]
  {
    hide LessEq, SortedKeys;
    var ks := SortedKeys(s - {k});
    KeysSorted(s - {k});
    KeysListed(s - {k});
    forall i | 0 <= i < |ks| ensures LessEq(ks[i], k) {
      assert ks[i] in ks;
    }
    assert Elements(ks) == s - {k};
    OneMoreElement(ks, k);
    assert Elements(ks + [k]) == s;
    SortedOnce(ks + [k]);
  }

  lemma {:induction false} SortedOnce(ks: seq<string>)
    requires Sorted(ks) && Distinct(ks)
    ensures ks == SortedKeys(Elements(ks))
    decreases |ks|
  {
    hide LessEq;
    if ks != [] {
      var s := Elements(ks);
      assert ks[0] in s;
      Antisymmetric(ks[0], Least(s)) by {
        var i :| 0 <= i < |ks| && ks[i] == Least(s);
        if i == 0 { Reflexive(ks[0]); }
      }
      SortedOnce(ks[1..]);
      assert Elements(ks[1..]) == s - {ks[0]} by {
        forall x | x in s && x != ks[0] ensures x in ks[1..] {
          var i :| 0 <= i < |ks| && ks[i] == x;
          assert ks[1..][i - 1] == x;
        }
      }
    }
  }

  lemma SortedList(s: set<string>, ks: seq<string>)
    requires Distinct(ks) && Elements(ks) == s
    ensures Sort(ks) == SortedKeys(s) && Elements(Sort(ks)) == s
  {
    SortKeeps(ks);
    SortedOnce(Sort(ks));
  }

  lemma OneMoreElement(ks: seq<string>, k: string)
    requires Distinct(ks) && k !in Elements(ks)
    ensures Distinct(ks + [k]) && Elements(ks + [k]) == Elements(ks) + {k}
  {
    forall i | 0 <= i < |ks| ensures ks[i] != k {
      assert ks[i] in Elements(ks);
    }
    assert Elements(ks + [k]) == Elements(ks) + {k};
  }

  /** Collects the keys in any order, then sorts them. */
  method ListKeys(s: set<string>) returns (ks: seq<string>)
    ensures ks == SortedKeys(s) && Elements(ks) == s
  {
    hide Distinct, Elements, Sorted, SortedKeys;
    var left := s;
    ks := [];
    NoElements();
    while left != {}
      invariant Distinct(ks) && left <= s && Elements(ks) == s - left
      decreases |left|
    {
      var k :| k in left;
      OneMoreElement(ks, k);
      ks := ks + [k];
      left := left - {k};
    }
    SortedList(s, ks);
    ks := Sort(ks);
  }

  lemma NoElements()
    ensures Distinct([]) && Elements([]) == {}
  {
  }
}
