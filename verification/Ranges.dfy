/** Integer ranges in 64 bits. A list that is returned is the mathematical
    progression up to its bound, with no item that has wrapped around; what is
    refused for its size is stated where the size is computed exactly. */
module Ranges {

  const TWO_63: int := 0x8000_0000_0000_0000
  const TWO_64: int := 0x1_0000_0000_0000_0000
  const TWO_52: int := 0x10_0000_0000_0000
  const MAX_RANGE: int := 65536

  type Int64 = x: int | -TWO_63 <= x < TWO_63

  datatype Outcome = Range(items: seq<int>) | Rejected

  /** Two's complement wrap-around. */
  function Wrap(x: int): Int64 {
    (x + TWO_63) % TWO_64 - TWO_63
  }

  function Truncated(x: int, y: int): int
    requires y != 0
  {
    if x >= 0 && y > 0 then x / y
    else if x >= 0 then -(x / -y)
    else if y > 0 then -(-x / y)
    else -x / -y
  }

  /** Division as the hardware does it: towards zero, then wrapped. */
  function Quotient(x: Int64, y: Int64): Int64
    requires y != 0
  {
    Wrap(Truncated(x, y))
  }

  lemma WrapInRange(x: int)
    requires -TWO_63 <= x < TWO_63
    ensures Wrap(x) == x
  {
  }

  /** A sum of two 64-bit integers wraps exactly when it compares the wrong way round. */
  lemma WrapShows(i: Int64, step: Int64)
    ensures step > 0 ==> (Wrap(i + step) < i <==> i + step >= TWO_63)
    ensures step < 0 ==> (Wrap(i + step) > i <==> i + step < -TWO_63)
    ensures -TWO_63 <= i + step < TWO_63 ==> Wrap(i + step) == i + step
  {
    var x := i + step;
    if x >= TWO_63 {
      assert (x + TWO_63) % TWO_64 == x + TWO_63 - TWO_64;
    } else if x < -TWO_63 {
      assert (x + TWO_63) % TWO_64 == x + TWO_63 + TWO_64;
    } else {
      WrapInRange(x);
    }
  }

  ghost predicate Progression(items: seq<int>, start: int, step: int) {
    forall k :: 0 <= k < |items| ==> items[k] == start + k * step
  }

  /** Has the bound been reached, going in the direction of step? */
  predicate Beyond(i: int, stop: int, step: int) {
    if step > 0 then i >= stop else i <= stop
  }

  /** All of the progression before the bound and nothing else. */
  ghost predicate UpTo(items: seq<int>, start: int, stop: int, step: int) {
    && Progression(items, start, step)
    && (forall k :: 0 <= k < |items| ==> !Beyond(items[k], stop, step))
    && Beyond(start + |items| * step, stop, step)
  }

  /** UpTo determines the list. */
  lemma UpToIsUnique(a: seq<int>, b: seq<int>, start: int, stop: int, step: int)
    requires step != 0 && UpTo(a, start, stop, step) && UpTo(b, start, stop, step)
    ensures a == b
  {
    NotLonger(a, b, start, stop, step);
    NotLonger(b, a, start, stop, step);
  }

  lemma NotLonger(a: seq<int>, b: seq<int>, start: int, stop: int, step: int)
    requires Progression(a, start, step) && Beyond(start + |b| * step, stop, step)
    requires forall k :: 0 <= k < |a| ==> !Beyond(a[k], stop, step)
    ensures |a| <= |b|
  {
    if |b| < |a| { ItemBefore(a, |b|, start, stop, step); }
  }

  lemma ItemBefore(a: seq<int>, n: nat, start: int, stop: int, step: int)
    requires n < |a| && Progression(a, start, step)
    requires forall k :: 0 <= k < |a| ==> !Beyond(a[k], stop, step)
    ensures !Beyond(start + n * step, stop, step)
  {
    assert a[n] == start + n * step;
  }

  function RoundUp(distance: int, step: int): int
    requires step > 0
  {
    (distance + step - 1) / step
  }

  /** The number of items is the distance divided by the step, rounded up. */
  lemma CountUpTo(items: seq<int>, start: int, stop: int, step: int)
    requires step != 0 && UpTo(items, start, stop, step) && !Beyond(start, stop, step)
    ensures step > 0 ==> |items| == RoundUp(stop - start, step)
    ensures step < 0 ==> |items| == RoundUp(start - stop, 0 - step)
  {
    var n := |items|;
    assert n == 0 ==> start + n * step == start;
    assert items[n - 1] == start + (n - 1) * step && !Beyond(items[n - 1], stop, step);
    if step > 0 {
      RoundedUp(stop - start, step, n);
    } else {
      assert n * -step == -(n * step) && (n - 1) * -step == -((n - 1) * step);
      RoundedUp(start - stop, -step, n);
    }
  }

  lemma RoundedUp(distance: int, step: int, n: int)
    requires step > 0 && n * step >= distance && (n - 1) * step < distance
    ensures RoundUp(distance, step) == n
  {
    assert (n - 1) * step == n * step - step;
    var x := distance + step - 1;
    var q, r := x / step, x % step;
    assert x == q * step + r;
    if q < n { LessFactors(q, n, step); }
    if q > n { LessFactors(n, q, step); }
  }

  lemma LessFactors(a: int, b: int, step: int)
    requires a < b && step > 0
    ensures a * step + step <= b * step
  {
    assert (b - a - 1) * step >= 0;
    assert (b - a - 1) * step == b * step - a * step - step;
  }

  lemma NextItem(items: seq<int>, start: int, step: int, i: int)
    requires Progression(items, start, step) && i == start + |items| * step
    ensures Progression(items + [i], start, step) && i + step == start + (|items| + 1) * step
  {
  }

  /** Small operands: the length the code computes in 64 bits is the real one. */
  lemma SmallLength(start: Int64, stop: Int64, step: Int64)
    requires -TWO_52 <= start <= TWO_52 && -TWO_52 <= stop <= TWO_52 && -TWO_52 <= step <= TWO_52 && step != 0
    requires !Beyond(start, stop, step)
    ensures step > 0 ==> Length(start, stop, step) == RoundUp(stop - start, step)
    ensures step < 0 ==> Length(start, stop, step) == RoundUp(start - stop, 0 - step)
  {
    hide Wrap, Quotient, RoundUp;
    if step > 0 {
      SmallQuotient(stop - start, step);
    } else {
      WrapInRange(0 - step);
      SmallQuotient(start - stop, 0 - step);
    }
  }

  lemma SmallQuotient(d: int, s: int)
    requires 0 < d <= 2 * TWO_52 && 0 < s <= TWO_52
    ensures Wrap(d) == d && Wrap(d + s) == d + s && Wrap(d + s - 1) == d + s - 1
    ensures Quotient(d + s - 1, s) == RoundUp(d, s)
  {
    WrapInRange(d);
    WrapInRange(d + s);
    WrapInRange(d + s - 1);
    QuotientBound(d + s - 1, s);
    WrapInRange((d + s - 1) / s);
  }

  lemma QuotientBound(x: int, s: int)
    requires x >= 0 && s > 0
    ensures 0 <= x / s <= x
  {
    var q, r := x / s, x % s;
    assert x == q * s + r && q >= 0 && r >= 0;
    AtLeastOnce(q, s);
  }

  lemma AtLeastOnce(q: int, s: int)
    requires q >= 0 && s > 0
    ensures q * s >= q
  {
    assert q * s == q * (s - 1) + q;
    assert q * (s - 1) >= 0;
  }

  /** The length as computed, every operation wrapped. */
  function Length(start: Int64, stop: Int64, step: Int64): Int64
    requires step != 0
  {
    if step > 0 then Quotient(Wrap(Wrap(Wrap(stop - start) + step) - 1), step)
    else Quotient(Wrap(Wrap(Wrap(start - stop) - step) - 1), Wrap(0 - step))
  }

  /** The loop both functions share: it stops at the bound, or when the sum has wrapped. */
  method Count(start: Int64, stop: int, step: Int64) returns (items: seq<int>)
    requires step != 0 && -TWO_63 - 1 <= stop <= TWO_63
    ensures Beyond(start, stop, step) ==> items == []
    ensures UpTo(items, start, stop, step)
  {
    items := [];
    var i: Int64 := start;
    assert start + |items| * step == start;
    while !Beyond(i, stop, step)
      invariant Progression(items, start, step) && i == start + |items| * step
      invariant forall k :: 0 <= k < |items| ==> !Beyond(items[k], stop, step)
      invariant Beyond(start, stop, step) ==> items == []
      decreases if step > 0 then stop - i else i - stop
    {
      NextItem(items, start, step, i);
      items := items + [i];
      WrapShows(i, step);
      var next := Wrap(i + step);
      if step > 0 {
        if next < i {
          break;
        }
      } else {
        if next > i {
          break;
        }
      }
      i := next;
    }
  }

  /** An empty range and a step the wrong way both give the empty list. */
  lemma WrongWayIsEmpty(start: int, stop: int, step: int)
    requires step != 0 && Beyond(start, stop, step)
    ensures UpTo([], start, stop, step)
  {
    assert start + 0 * step == start;
  }

  /** Main result: a returned list is exactly the progression before the bound,
      with no wrapped item, and small operands give at most 65536 items. The
      floating-point estimate may reject on its own. */
  method UntilStep(start: Int64, stop: Int64, step: Int64, estimateRejects: bool) returns (r: Outcome)
    ensures step == 0 ==> r.Rejected?
    ensures r.Range? ==> UpTo(r.items, start, stop, step)
    ensures r.Range? ==> forall k :: 0 <= k < |r.items| ==> -TWO_63 <= r.items[k] < TWO_63
    ensures -TWO_52 <= start <= TWO_52 && -TWO_52 <= stop <= TWO_52 && -TWO_52 <= step <= TWO_52 ==>
              (r.Range? ==> |r.items| <= 65536)
    ensures -TWO_52 <= start <= TWO_52 && -TWO_52 <= stop <= TWO_52 && -TWO_52 <= step <= TWO_52 ==>
              (r.Rejected? && step != 0 && !estimateRejects ==>
                  !Beyond(start, stop, step) && forall items :: UpTo(items, start, stop, step) ==> |items| > 65536)
  {
    if step == 0 {
      return Rejected;
    }
    if Beyond(start, stop, step) {
      WrongWayIsEmpty(start, stop, step);
      return Range([]);
    }
    if estimateRejects {
      return Rejected;
    }
    var size := Length(start, stop, step);
    if -TWO_52 <= start <= TWO_52 && -TWO_52 <= stop <= TWO_52 && -TWO_52 <= step <= TWO_52 {
      SmallLength(start, stop, step);
      forall items | UpTo(items, start, stop, step) ensures |items| == size {
        CountUpTo(items, start, stop, step);
      }
    }
    if size < 0 || size > MAX_RANGE {
      if -TWO_52 <= start <= TWO_52 && -TWO_52 <= stop <= TWO_52 && -TWO_52 <= step <= TWO_52 {
        forall items | UpTo(items, start, stop, step) ensures |items| > MAX_RANGE {}
      }
      return Rejected;
    }
    var items := Count(start, stop, step);
    ItemsInRange(items, start, stop, step);
    r := Range(items);
  }

  lemma ItemsInRange(items: seq<int>, start: Int64, stop: int, step: Int64)
    requires step != 0 && -TWO_63 - 1 <= stop <= TWO_63 && UpTo(items, start, stop, step)
    ensures forall k :: 0 <= k < |items| ==> -TWO_63 <= items[k] < TWO_63
  {
    forall k | 0 <= k < |items| ensures -TWO_63 <= items[k] < TWO_63 {
      assert !Beyond(items[k], stop, step) && items[k] == start + k * step;
      if step > 0 { assert k * step >= 0; } else { assert k * step <= 0; }
    }
  }

  datatype SeqArguments = SeqArguments(start: int, step: int, end: int)

  function Arguments(nums: seq<Int64>): SeqArguments
    requires 1 <= |nums| <= 3
  {
    if |nums| == 1 then SeqArguments(1, 1, nums[0])
    else if |nums| == 2 then SeqArguments(nums[0], 1, nums[1])
    else SeqArguments(nums[0], nums[1], nums[2])
  }

  /** `seq` counts up to and including its end; one to three arguments. */
  method Seq(nums: seq<Int64>, estimateRejects: bool) returns (r: Outcome)
    ensures |nums| == 0 || |nums| > 3 ==> r.Rejected?
    ensures r.Rejected? <==> |nums| == 0 || |nums| > 3 || (|nums| == 3 && nums[1] == 0) || estimateRejects
    ensures r.Range? ==>
              var a := Arguments(nums);
              && UpTo(r.items, a.start, if a.step > 0 then a.end + 1 else a.end - 1, a.step)
              && forall k :: 0 <= k < |r.items| ==> -TWO_63 <= r.items[k] < TWO_63
  {
    var start: Int64, end: Int64, step: Int64;
    if |nums| == 1 {
      start, end, step := 1, nums[0], 1;
    } else if |nums| == 2 {
      start, end, step := nums[0], nums[1], 1;
    } else if |nums| == 3 {
      start, end, step := nums[0], nums[2], nums[1];
    } else {
      return Rejected;
    }
    if step == 0 || estimateRejects {
      return Rejected;
    }
    var stop: int := if step > 0 then end + 1 else end - 1;
    var items := Count(start, stop, step);
    ItemsInRange(items, start, stop, step);
    r := Range(items);
  }

  method Until(n: Int64) returns (r: Outcome)
    ensures r.Rejected? <==> n > 65536 || n < -65536
    ensures r.Range? ==> UpTo(r.items, 0, n, if n < 0 then -1 else 1)
    ensures r.Range? ==> |r.items| == if n < 0 then -n else n
  {
    if n > MAX_RANGE || n < -MAX_RANGE {
      return Rejected;
    }
    var items: seq<int> := [];
    if n < 0 {
      var i := 0;
      while i > n
        invariant n <= i <= 0 && |items| == -i && forall k :: 0 <= k < |items| ==> items[k] == -k
      {
        items := items + [i];
        i := i - 1;
      }
      return Range(items);
    }
    for i := 0 to n
      invariant |items| == i && forall k :: 0 <= k < |items| ==> items[k] == k
    {
      items := items + [i];
    }
    r := Range(items);
  }
}
