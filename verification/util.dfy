/** gdbplotlib/util.py: index generation for Python slices over known and
    unbounded dimensions, and the two string helpers. */
module Util {
  import opened Wrappers
  import opened Exceptions
  import opened Text

  /** A Python `slice`: each of start, stop and step may be omitted. */
  datatype Slice = Slice(start: Option<int>, stop: Option<int>, step: Option<int>)

  /** `slice(None, None, None)`, which selects a whole dimension. */
  const Full: Slice := Slice(None, None, None)

  function Fulls(n: nat): (r: seq<Slice>)
    ensures |r| == n && forall i :: 0 <= i < n ==> r[i] == Full
  {
    seq(n, _ => Full)
  }

  /** A slice list after appending full slices until it covers `n` dimensions;
      a list that is already long enough is left as it is. */
  function Padded(slices: seq<Slice>, n: nat): (r: seq<Slice>)
    ensures |r| >= n && |r| >= |slices| && r[..|slices|] == slices
    ensures |slices| >= n ==> r == slices
    ensures |slices| < n ==> |r| == n
    ensures forall i :: |slices| <= i < |r| ==> r[i] == Full
  {
    if |slices| < n then slices + Fulls(n - |slices|) else slices
  }

  // ---------------------------------------------------------------------
  // indices_1d
  // ---------------------------------------------------------------------

  /** The (start, stop, step) triple the generator walks. */
  datatype Bounds = Bounds(start: int, stop: int, step: int)

  /** One bound as `slice.indices` computes it: the default when omitted;
      otherwise a negative bound is shifted by the length and raised to
      `lower`, a non-negative one is lowered to `upper`. */
  function ClampBound(b: Option<int>, default: int, length: int, lower: int, upper: int): (r: int)
    ensures b.None? ==> r == default
    ensures b.Some? && lower <= 0 && length - 1 <= upper && lower <= upper ==>
      r == Clamp(FromEnd(b.value, length), lower, upper)
  {
    match b
    case None => default
    case Some(x) =>
      if x < 0 then (if x + length < lower then lower else x + length)
      else (if x > upper then upper else x)
  }

  /** A negative position counts from the end. */
  function FromEnd(x: int, length: int): int {
    if x < 0 then x + length else x
  }

  /** `x` moved into [lo, hi]. */
  function Clamp(x: int, lo: int, hi: int): (r: int)
    requires lo <= hi
    ensures lo <= r <= hi
    ensures lo <= x <= hi ==> r == x
  {
    if x < lo then lo else if x > hi then hi else x
  }

  /** Python's `slice.indices(length)`, which clamps the bounds into the
      dimension. For a positive step the bounds lie in [0, length] and an
      omitted start (stop) is 0 (length); for a negative step they lie in
      [-1, length - 1] and an omitted start (stop) is length - 1 (-1). A
      given bound counts from the end when negative and is then clamped. */
  function SliceIndices(s: Slice, length: int): (r: Result<Bounds, Error>)
    ensures r.Failure? <==> length < 0 || s.step == Some(0)
    ensures length < 0 ==> r == Failure(NegativeLength)
    ensures r.Ok? ==> r.value.step == s.step.GetOr(1) && r.value.step != 0
    ensures r.Ok? && r.value.step > 0 ==>
      0 <= r.value.start <= length && 0 <= r.value.stop <= length
    ensures r.Ok? && r.value.step < 0 ==>
      -1 <= r.value.start < length && -1 <= r.value.stop < length
    ensures r.Ok? ==>
      var lo := if r.value.step > 0 then 0 else -1;
      var hi := if r.value.step > 0 then length else length - 1;
      && r.value.start == (if s.start.Some? then Clamp(FromEnd(s.start.value, length), lo, hi)
                           else if r.value.step > 0 then lo else hi)
      && r.value.stop == (if s.stop.Some? then Clamp(FromEnd(s.stop.value, length), lo, hi)
                          else if r.value.step > 0 then hi else lo)
  {
    if length < 0 then Failure(NegativeLength)
    else
      var step := s.step.GetOr(1);
      if step == 0 then Failure(StepZero)
      else
        var lower := if step < 0 then -1 else 0;
        var upper := if step < 0 then length - 1 else length;
        var start := ClampBound(s.start, if step < 0 then upper else lower, length, lower, upper);
        var stop := ClampBound(s.stop, if step < 0 then lower else upper, length, lower, upper);
        Ok(Bounds(start, stop, step))
  }

  /** The bounds `indices_1d` iterates with: `slice.indices` for a known
      length, and 0/0/1 defaults for an unbounded dimension (`None`). */
  function DimensionBounds(s: Slice, shape: Option<int>): Result<Bounds, Error> {
    match shape
    case None => Ok(Bounds(s.start.GetOr(0), s.stop.GetOr(0), s.step.GetOr(1)))
    case Some(length) => SliceIndices(s, length)
  }

  /** The generator's `in_range(i, stop, step)`. */
  predicate InRange(i: int, stop: int, step: int) {
    if step > 0 then i < stop else i > stop
  }

  /** start, start + step, ... up to the first value not in range. */
  function Range(start: int, stop: int, step: int): (r: seq<int>)
    requires step != 0
    ensures step > 0 ==> forall x :: x in r ==> start <= x < stop
    ensures step < 0 ==> forall x :: x in r ==> stop < x <= start
    ensures |r| == 0 <==> !InRange(start, stop, step)
    ensures |r| > 0 ==> r[0] == start
    decreases if step > 0 then stop - start else start - stop
  {
    if InRange(start, stop, step) then [start] + Range(start + step, stop, step) else []
  }

  /** Everything `indices_1d(s, shape)` yields, or the error it raises.
      On a known length every index lies inside the dimension. */
  function IndexRange(s: Slice, shape: Option<int>): (r: Result<seq<int>, Error>)
    ensures shape.Some? ==> (r.Failure? <==> shape.value < 0 || s.step == Some(0))
    ensures shape.None? ==>
      (r.Failure? <==> s.step == Some(0) && s.start.GetOr(0) > s.stop.GetOr(0))
    ensures r.Ok? && shape.Some? ==> forall i :: i in r.value ==> 0 <= i < shape.value
  {
    var b :- DimensionBounds(s, shape);
    if b.step == 0 then
      // only an unbounded dimension gets here; `in_range` is then `i > stop`
      // and `i` never moves
      if b.start > b.stop then Failure(Diverges) else Ok([])
    else
      Ok(Range(b.start, b.stop, b.step))
  }

  /** `indices_1d` itself: the generator's while loop, consumed to the end. */
  method Indices1D(s: Slice, shape: Option<int>) returns (r: Result<seq<int>, Error>)
    ensures r == IndexRange(s, shape)
  {
    var b :- DimensionBounds(s, shape);
    var start, stop, step := b.start, b.stop, b.step;
    if step == 0 {
      if start > stop {
        return Failure(Diverges);
      }
      return Ok([]);
    }
    var out := [];
    var i := start;
    while InRange(i, stop, step)
      invariant out + Range(i, stop, step) == Range(start, stop, step)
      decreases if step > 0 then stop - i else i - stop
    {
      out := out + [i];
      i := i + step;
    }
    assert out + [] == out;
    return Ok(out);
  }

  predicate StrictlyIncreasing(s: seq<int>) {
    forall j, k :: 0 <= j < k < |s| ==> s[j] < s[k]
  }

  predicate StrictlyDecreasing(s: seq<int>) {
    forall j, k :: 0 <= j < k < |s| ==> s[j] > s[k]
  }

  /** The j-th value is start + j * step. */
  lemma {:induction false} RangeAt(start: int, stop: int, step: int, j: nat)
    requires step != 0 && j < |Range(start, stop, step)|
    ensures Range(start, stop, step)[j] == start + j * step
    decreases j
  {
    if j > 0 {
      RangeAt(start + step, stop, step, j - 1);
      assert start + step + (j - 1) * step == start + j * step;
    }
  }

  /** The values move strictly in the direction of the step. */
  lemma {:induction false} RangeMonotone(start: int, stop: int, step: int)
    requires step != 0
    ensures step > 0 ==> StrictlyIncreasing(Range(start, stop, step))
    ensures step < 0 ==> StrictlyDecreasing(Range(start, stop, step))
    decreases if step > 0 then stop - start else start - stop
  {
    if InRange(start, stop, step) {
      RangeMonotone(start + step, stop, step);
    }
  }

  /** The count is the number of steps that fit: n values when
      (n - 1) * |step| < distance <= n * |step|, none when out of range. */
  lemma {:induction false} RangeCount(start: int, stop: int, step: int)
    requires step != 0
    ensures var n := |Range(start, stop, step)|;
      (step > 0 && n > 0 ==> (n - 1) * step < stop - start <= n * step) &&
      (step < 0 && n > 0 ==> (n - 1) * -step < start - stop <= n * -step)
    decreases if step > 0 then stop - start else start - stop
  {
    if InRange(start, stop, step) {
      RangeCount(start + step, stop, step);
      var n := |Range(start, stop, step)|;
      assert n == |Range(start + step, stop, step)| + 1;
      assert n * step == (n - 1) * step + step;
      assert (n - 1) * step == (n - 2) * step + step;
    }
  }

  /** `ceil(d / c)` for a positive divisor. */
  function CeilDiv(d: int, c: int): int
    requires c > 0
  {
    (d + c - 1) / c
  }

  lemma MulSign(e: int, c: int)
    requires c > 0
    ensures e >= 1 ==> e * c >= c
    ensures e <= -1 ==> e * c <= -c
  {
    if e >= 1 {
      assert e * c == (e - 1) * c + c;
    } else if e <= -1 {
      assert e * c == (e + 1) * c - c;
    }
  }

  lemma CeilDivUnique(d: int, c: int, n: int)
    requires c > 0 && (n - 1) * c < d <= n * c
    ensures CeilDiv(d, c) == n
  {
    var x := d + c - 1;
    var q, r := x / c, x % c;
    assert x == q * c + r && 0 <= r < c;
    assert n * c == (n - 1) * c + c;
    var e := q - n;
    assert e * c == q * c - n * c;
    MulSign(e, c);
  }

  /** The number of indices `indices_1d` yields is
      max(0, ceil((stop - start) / step)), as for Python's `range`, and they
      are strictly monotone in the direction of the step. */
  lemma IndexRangeCount(s: Slice, shape: Option<int>)
    requires IndexRange(s, shape).Ok? && DimensionBounds(s, shape).value.step != 0
    ensures var b := DimensionBounds(s, shape).value;
      var n := |IndexRange(s, shape).value|;
      if b.step > 0 then n == (if b.start < b.stop then CeilDiv(b.stop - b.start, b.step) else 0)
      else n == (if b.start > b.stop then CeilDiv(b.start - b.stop, -b.step) else 0)
    ensures var b := DimensionBounds(s, shape).value;
      (b.step > 0 ==> StrictlyIncreasing(IndexRange(s, shape).value)) &&
      (b.step < 0 ==> StrictlyDecreasing(IndexRange(s, shape).value))
  {
    var b := DimensionBounds(s, shape).value;
    RangeCount(b.start, b.stop, b.step);
    RangeMonotone(b.start, b.stop, b.step);
    var n := |Range(b.start, b.stop, b.step)|;
    if b.step > 0 && b.start < b.stop {
      CeilDivUnique(b.stop - b.start, b.step, n);
    } else if b.step < 0 && b.start > b.stop {
      CeilDivUnique(b.start - b.stop, -b.step, n);
    }
  }

  /** The slice (k, k + 1) selects exactly index k: on a known length when
      0 <= k < length, and always on an unbounded dimension. */
  lemma UnitSliceSelectsOne(k: int, shape: Option<int>)
    requires shape.Some? ==> 0 <= k < shape.value
    ensures IndexRange(Slice(Some(k), Some(k + 1), None), shape) == Ok([k])
  {
    assert Range(k, k + 1, 1) == [k] + Range(k + 1, k + 1, 1) == [k];
  }

  /** Within the bounds, `a:b` selects a, a + 1, ..., b - 1. */
  lemma InBoundsSlice(a: int, b: int, length: int)
    requires 0 <= a <= b <= length
    ensures IndexRange(Slice(Some(a), Some(b), None), Some(length)) == Ok(seq(b - a, j requires 0 <= j < b - a => a + j))
  {
    var r := Range(a, b, 1);
    assert SliceIndices(Slice(Some(a), Some(b), None), length) == Ok(Bounds(a, b, 1));
    assert IndexRange(Slice(Some(a), Some(b), None), Some(length)) == Ok(r);
    RangeCount(a, b, 1);
    assert |r| == b - a;
    forall j | 0 <= j < b - a
      ensures r[j] == a + j
    {
      RangeAt(a, b, 1, j);
    }
    assert r == seq(b - a, j requires 0 <= j < b - a => a + j);
  }

  /** `a:b` on a known length selects the clamped start, start + 1, ...,
      up to the clamped stop: `5:100` on length 10 selects 5, ..., 9 and
      `-3:` style negative bounds count from the end. */
  lemma ForwardSlice(a: int, b: int, length: nat)
    ensures var lo := Clamp(FromEnd(a, length), 0, length);
            var hi := Clamp(FromEnd(b, length), 0, length);
            var n := if lo < hi then hi - lo else 0;
            IndexRange(Slice(Some(a), Some(b), None), Some(length)) == Ok(seq(n, j requires 0 <= j < n => lo + j))
  {
    var lo := Clamp(FromEnd(a, length), 0, length);
    var hi := Clamp(FromEnd(b, length), 0, length);
    var n := if lo < hi then hi - lo else 0;
    var r := Range(lo, hi, 1);
    assert SliceIndices(Slice(Some(a), Some(b), None), length) == Ok(Bounds(lo, hi, 1));
    assert IndexRange(Slice(Some(a), Some(b), None), Some(length)) == Ok(r);
    RangeCount(lo, hi, 1);
    assert |r| == n;
    forall j | 0 <= j < n
      ensures r[j] == lo + j
    {
      RangeAt(lo, hi, 1, j);
    }
    assert r == seq(n, j requires 0 <= j < n => lo + j);
  }

  /** A negative k counts from the end for (k, k + 1), except k = -1: its
      stop 0 is not shifted, so the slice selects nothing. Below -length
      both bounds are clamped to 0, so the slice selects nothing either,
      rather than raising. */
  lemma NegativeUnitSlice(k: int, length: nat)
    requires k < 0
    ensures 0 <= k + length && k < -1 ==> IndexRange(Slice(Some(k), Some(k + 1), None), Some(length)) == Ok([k + length])
    ensures k == -1 ==> IndexRange(Slice(Some(k), Some(k + 1), None), Some(length)) == Ok([])
    ensures k + length < 0 ==> IndexRange(Slice(Some(k), Some(k + 1), None), Some(length)) == Ok([])
  {
    if k + length < 0 {
      assert SliceIndices(Slice(Some(k), Some(k + 1), None), length) == Ok(Bounds(0, 0, 1));
      assert Range(0, 0, 1) == [];
    } else if k < -1 {
      var i := k + length;
      assert Range(i, i + 1, 1) == [i] + Range(i + 1, i + 1, 1) == [i];
    }
  }

  /** On an unbounded dimension an omitted stop is 0: with a positive step
      and a start of at least 0 nothing is selected, and with a negative step
      the indices count down from the start and stay above 0. */
  lemma UnboundedOpenStop(s: Slice)
    requires s.stop.None? && s.step != Some(0)
    ensures s.step.GetOr(1) > 0 && s.start.GetOr(0) >= 0 ==> IndexRange(s, None) == Ok([])
    ensures s.step.GetOr(1) < 0 ==>
      var r := IndexRange(s, None).value;
      (s.start.GetOr(0) > 0 ==> r != [] && r[0] == s.start.GetOr(0)) &&
      forall i :: i in r ==> 1 <= i <= s.start.GetOr(0)
    ensures s.step == Some(-1) ==>
      var r := IndexRange(s, None).value;
      |r| == (if s.start.GetOr(0) > 0 then s.start.GetOr(0) else 0) &&
      forall j :: 0 <= j < |r| ==> r[j] == s.start.GetOr(0) - j
  {
    var start := s.start.GetOr(0);
    if s.step == Some(-1) {
      var r := Range(start, 0, -1);
      RangeCount(start, 0, -1);
      forall j | 0 <= j < |r| ensures r[j] == start - j {
        RangeAt(start, 0, -1, j);
      }
    }
  }

  // ---------------------------------------------------------------------
  // indices
  // ---------------------------------------------------------------------

  /** Each index of `outer` followed by each tuple of `inner`, outer-major. */
  function Prefixed(outer: seq<int>, inner: seq<seq<int>>): (r: seq<seq<int>>)
    ensures |r| == |outer| * |inner|
  {
    if outer == [] then []
    else
      var init := outer[..|outer| - 1];
      var last := outer[|outer| - 1];
      var r := Prefixed(init, inner) + seq(|inner|, k requires 0 <= k < |inner| => [last] + inner[k]);
      MulSucc(|init|, |inner|);
      r
  }

  lemma MulSucc(a: int, n: int)
    ensures (a + 1) * n == a * n + n
  {
  }

  /** Every tuple of `Prefixed` is an outer index followed by an inner tuple. */
  lemma {:induction false} PrefixedMembers(outer: seq<int>, inner: seq<seq<int>>)
    ensures forall t :: t in Prefixed(outer, inner) ==> |t| >= 1 && t[0] in outer && t[1..] in inner
    decreases |outer|
  {
    if outer != [] {
      var init := outer[..|outer| - 1];
      PrefixedMembers(init, inner);
      forall t | t in Prefixed(outer, inner)
        ensures |t| >= 1 && t[0] in outer && t[1..] in inner
      {
        if t !in Prefixed(init, inner) {
          var k :| 0 <= k < |inner| && t == [outer[|outer| - 1]] + inner[k];
          assert t[1..] == inner[k];
        }
      }
    }
  }

  /** One more outer index adds its tuples at the end. */
  lemma PrefixedStep(outer: seq<int>, j: nat, inner: seq<seq<int>>)
    requires j < |outer|
    ensures Prefixed(outer[..j + 1], inner)
         == Prefixed(outer[..j], inner) + seq(|inner|, k requires 0 <= k < |inner| => [outer[j]] + inner[k])
  {
    assert outer[..j + 1][..j] == outer[..j];
  }

  /** Everything `indices(slices, shape)` yields, consumed to the end, or
      the error it raises. The slices are first padded to the rank. A
      rank-0 shape always fails, and an error of an inner dimension only
      surfaces once the outer dimension yields an index. */
  function MultiIndices(slices: seq<Slice>, shape: seq<Option<int>>): Result<seq<seq<int>>, Error>
    decreases |shape|
  {
    var ss := Padded(slices, |shape|);
    if |shape| == 0 then Failure(IndexError)
    else
      var outer :- IndexRange(ss[0], shape[0]);
      if |ss| == 1 then Ok(seq(|outer|, j requires 0 <= j < |outer| => [outer[j]]))
      else if outer == [] then Ok([])
      else
        var inner :- MultiIndices(ss[1..], shape[1..]);
        Ok(Prefixed(outer, inner))
  }

  /** Tuple q * |inner| + k is index q of `outer` followed by tuple k of
      `inner`: the row-major order of the two nested loops. */
  lemma {:induction false} PrefixedAt(outer: seq<int>, inner: seq<seq<int>>, q: nat, k: nat)
    requires q < |outer| && k < |inner|
    ensures q * |inner| + k < |Prefixed(outer, inner)|
    ensures Prefixed(outer, inner)[q * |inner| + k] == [outer[q]] + inner[k]
    decreases |outer|
  {
    var init := outer[..|outer| - 1];
    var n := |inner|;
    var left := Prefixed(init, inner);
    var right := seq(n, k requires 0 <= k < n => [outer[|outer| - 1]] + inner[k]);
    assert Prefixed(outer, inner) == left + right;
    if q == |init| {
      assert (left + right)[|left| + k] == right[k];
    } else {
      PrefixedAt(init, inner, q, k);
      assert q * n + k < |left|;
      assert outer[q] == init[q];
    }
  }

  /** The number of indices one dimension selects (none when it fails). */
  function DimCount(s: Slice, dim: Option<int>): nat {
    if IndexRange(s, dim).Ok? then |IndexRange(s, dim).value| else 0
  }

  /** The product of the per-dimension counts. */
  function CountProduct(ss: seq<Slice>, shape: seq<Option<int>>): nat
    requires |ss| >= |shape|
    decreases |shape|
  {
    if |shape| == 0 then 1 else DimCount(ss[0], shape[0]) * CountProduct(ss[1..], shape[1..])
  }

  /** A tuple with one index per dimension, index d being one that
      `indices_1d` selects in dimension d. */
  predicate SelectedTuple(t: seq<int>, ss: seq<Slice>, shape: seq<Option<int>>)
    requires |ss| >= |shape|
  {
    |t| == |shape| &&
    forall d :: 0 <= d < |shape| ==> IndexRange(ss[d], shape[d]).Ok? && t[d] in IndexRange(ss[d], shape[d]).value
  }

  lemma SelectedTupleCons(t: seq<int>, ss: seq<Slice>, shape: seq<Option<int>>)
    requires |shape| >= 1 && |ss| >= |shape| && |t| >= 1
    requires IndexRange(ss[0], shape[0]).Ok? && t[0] in IndexRange(ss[0], shape[0]).value
    requires SelectedTuple(t[1..], ss[1..], shape[1..])
    ensures SelectedTuple(t, ss, shape)
  {
    forall d | 1 <= d < |shape|
      ensures IndexRange(ss[d], shape[d]).Ok? && t[d] in IndexRange(ss[d], shape[d]).value
    {
      assert t[d] == t[1..][d - 1] && ss[d] == ss[1..][d - 1] && shape[d] == shape[1..][d - 1];
    }
  }

  /** Every tuple `indices` yields has one index per dimension, index d
      being one that `indices_1d` selects in dimension d, and there are as
      many tuples as the product of the per-dimension counts. */
  lemma {:induction false} MultiIndicesShape(slices: seq<Slice>, shape: seq<Option<int>>)
    requires MultiIndices(slices, shape).Ok?
    ensures var r := MultiIndices(slices, shape).value;
            var ss := Padded(slices, |shape|);
            && |r| == CountProduct(ss, shape)
            && forall t :: t in r ==> SelectedTuple(t, ss, shape)
    decreases |shape|
  {
    var ss := Padded(slices, |shape|);
    var outer := IndexRange(ss[0], shape[0]).value;
    if |ss| == 1 {
      SingletonsShape(ss, shape, outer);
    } else if outer == [] {
      assert MultiIndices(slices, shape) == Ok([]);
      assert CountProduct(ss, shape) == 0 * CountProduct(ss[1..], shape[1..]);
    } else {
      var tail, tshape := ss[1..], shape[1..];
      assert Padded(tail, |tshape|) == tail;
      assert MultiIndices(tail, tshape).Ok?;
      MultiIndicesShape(tail, tshape);
      var inner := MultiIndices(tail, tshape).value;
      assert MultiIndices(slices, shape) == Ok(Prefixed(outer, inner));
      PrefixedCount(ss, shape, outer, inner);
      PrefixedTuples(ss, shape, outer, inner);
    }
  }

  /** The rank-1 case of `MultiIndicesShape`. */
  lemma SingletonsShape(ss: seq<Slice>, shape: seq<Option<int>>, outer: seq<int>)
    requires |ss| == 1 && |shape| == 1 && IndexRange(ss[0], shape[0]) == Ok(outer)
    ensures var r := seq(|outer|, j requires 0 <= j < |outer| => [outer[j]]);
            && |r| == CountProduct(ss, shape)
            && forall t :: t in r ==> SelectedTuple(t, ss, shape)
  {
    var r := seq(|outer|, j requires 0 <= j < |outer| => [outer[j]]);
    assert CountProduct(ss, shape) == |outer| * CountProduct(ss[1..], shape[1..]);
    forall t | t in r
      ensures SelectedTuple(t, ss, shape)
    {
      var j :| 0 <= j < |r| && r[j] == t;
    }
  }

  /** The step of `MultiIndicesShape` from the inner dimensions to all:
      the count. */
  lemma PrefixedCount(ss: seq<Slice>, shape: seq<Option<int>>, outer: seq<int>, inner: seq<seq<int>>)
    requires |shape| >= 1 && |ss| >= |shape| && IndexRange(ss[0], shape[0]) == Ok(outer)
    requires |inner| == CountProduct(ss[1..], shape[1..])
    ensures |Prefixed(outer, inner)| == CountProduct(ss, shape)
  {
  }

  /** The same step for the tuples. */
  lemma PrefixedTuples(ss: seq<Slice>, shape: seq<Option<int>>, outer: seq<int>, inner: seq<seq<int>>)
    requires |shape| >= 1 && |ss| >= |shape| && IndexRange(ss[0], shape[0]) == Ok(outer)
    requires forall u :: u in inner ==> SelectedTuple(u, ss[1..], shape[1..])
    ensures forall t :: t in Prefixed(outer, inner) ==> SelectedTuple(t, ss, shape)
  {
    PrefixedMembers(outer, inner);
    forall t | t in Prefixed(outer, inner)
      ensures SelectedTuple(t, ss, shape)
    {
      SelectedTupleCons(t, ss, shape);
    }
  }

  /** A Python list of slices, which `indices` extends in place. */
  class SliceList {
    var items: seq<Slice>

    constructor (items: seq<Slice>)
      ensures this.items == items
    {
      this.items := items;
    }
  }

  /** The padding step of `indices`: full slices are appended to the
      caller's list until it covers every dimension. */
  method PadSlices(slices: SliceList, n: nat)
    modifies slices
    ensures slices.items == Padded(old(slices.items), n)
  {
    if |slices.items| != n {
      var missing := n - |slices.items|;
      for i := 0 to if missing < 0 then 0 else missing
        invariant slices.items == old(slices.items) + Fulls(i)
      {
        slices.items := slices.items + [Full];
      }
    }
  }

  /** The one-dimensional case of `indices`: each index as a 1-tuple. */
  method Singletons(outer: seq<int>) returns (out: seq<seq<int>>)
    ensures |out| == |outer| && forall j :: 0 <= j < |outer| ==> out[j] == [outer[j]]
  {
    out := [];
    for j := 0 to |outer|
      invariant |out| == j && forall k :: 0 <= k < j ==> out[k] == [outer[k]]
    {
      out := out + [[outer[j]]];
    }
  }

  /** `indices`, consumed to the end: pads the caller's list in place and
      yields the multi-indices row-major. Recursive calls get copies. */
  method Indices(slices: SliceList, shape: seq<Option<int>>) returns (r: Result<seq<seq<int>>, Error>)
    modifies slices
    ensures slices.items == Padded(old(slices.items), |shape|)
    ensures r == MultiIndices(old(slices.items), shape)
    decreases |shape|
  {
    PadSlices(slices, |shape|);
    var ss := slices.items;
    if |shape| == 0 {
      return Failure(IndexError);
    }
    var outer :- Indices1D(ss[0], shape[0]);
    if |ss| == 1 {
      var out := Singletons(outer);
      assert out == seq(|outer|, j requires 0 <= j < |outer| => [outer[j]]);
      return Ok(out);
    }
    ghost var innerSpec := MultiIndices(ss[1..], shape[1..]);
    var out := [];
    for j := 0 to |outer|
      invariant slices.items == ss
      invariant j > 0 ==> innerSpec.Ok? && out == Prefixed(outer[..j], innerSpec.value)
      invariant j == 0 ==> out == []
    {
      var tail := new SliceList(ss[1..]);
      var inner :- Indices(tail, shape[1..]);
      PrefixedStep(outer, j, inner);
      out := out + seq(|inner|, k requires 0 <= k < |inner| => [outer[j]] + inner[k]);
    }
    assert outer[..|outer|] == outer;
    return Ok(out);
  }

  // ---------------------------------------------------------------------
  // split_variable_and_slice, strip_non_alphanumeric
  // ---------------------------------------------------------------------

  /** `split_variable_and_slice`: the text before the last `[` and the text
      between the last `[` and the last `]`; no slice when either bracket is
      missing. Python's `v[l + 1:r]` is empty when the last `]` comes before
      the last `[`. */
  function SplitVariableAndSlice(v: string): (r: (string, Option<string>))
    ensures r.1.None? <==> '[' !in v || ']' !in v
    ensures r.1.None? ==> r.0 == v
    ensures r.1.Some? ==> |r.0| < |v| && v[..|r.0|] == r.0 && v[|r.0|] == '[' && '[' !in v[|r.0| + 1..]
    ensures r.1.Some? && ']' in v[|r.0| + 1..] ==>
      var e := |r.0| + 1 + |r.1.value|;
      e < |v| && v[|r.0| + 1..e] == r.1.value && v[e] == ']' && ']' !in v[e + 1..]
    ensures r.1.Some? && ']' !in v[|r.0| + 1..] ==> r.1.value == ""
  {
    var l := RFind(v, '[');
    var rb := RFind(v, ']');
    if l == -1 || rb == -1 then (v, None)
    else (v[..l], Some(if l + 1 <= rb then v[l + 1..rb] else ""))
  }

  lemma RFindAt(s: string, c: char, k: int)
    requires 0 <= k < |s| && s[k] == c && c !in s[k + 1..]
    ensures RFind(s, c) == k
  {
  }

  /** Appending `[text]` to any expression is undone by the split, as long
      as the text holds no bracket. */
  lemma SplitVariableRoundTrip(base: string, text: string)
    requires '[' !in text && ']' !in text
    ensures SplitVariableAndSlice(base + "[" + text + "]") == (base, Some(text))
  {
    var v := base + "[" + text + "]";
    assert v[|base| + 1..] == text + "]";
    assert v[|v| - 1..] == "]";
    RFindAt(v, '[', |base|);
    RFindAt(v, ']', |v| - 1);
    assert v[..|base|] == base;
    assert v[|base| + 1..|v| - 1] == text;
  }

  /** When the last `]` precedes the last `[`, the slice text is empty. */
  lemma SplitVariableReversedBrackets()
    ensures SplitVariableAndSlice("a]b[c") == ("a]b", Some(""))
  {
    var v := "a]b[c";
    assert v[4..] == "c" && v[2..] == "b[c";
    RFindAt(v, '[', 3);
    RFindAt(v, ']', 1);
    assert v[..3] == "a]b";
  }

  /** Characters matched by the regular expression class `\w` (ASCII). */
  predicate IsWordChar(c: char) {
    'a' <= c <= 'z' || 'A' <= c <= 'Z' || '0' <= c <= '9' || c == '_'
  }

  /** `a` can be obtained from `b` by deleting characters. */
  predicate IsSubsequence(a: string, b: string)
    decreases |b|
  {
    a == [] || (|b| > 0 && ((a[0] == b[0] && IsSubsequence(a[1..], b[1..])) || IsSubsequence(a, b[1..])))
  }

  /** `re.sub("\\W+", "", s)`: only word characters are left, in their
      original order. */
  function StripNonAlphanumeric(s: string): (r: string)
    ensures forall i :: 0 <= i < |r| ==> IsWordChar(r[i])
  {
    if s == [] then []
    else
      var rest := StripNonAlphanumeric(s[1..]);
      if IsWordChar(s[0]) then [s[0]] + rest else rest
  }

  /** What is left is obtained by deleting characters, in their order. */
  lemma {:induction false} StripSubsequence(s: string)
    ensures IsSubsequence(StripNonAlphanumeric(s), s)
  {
    if s != [] {
      StripSubsequence(s[1..]);
      var rest := StripNonAlphanumeric(s[1..]);
      if IsWordChar(s[0]) {
        assert ([s[0]] + rest)[1..] == rest;
      }
    }
  }

  /** A string of word characters only is left unchanged. */
  lemma {:induction false} StripKeepsWords(s: string)
    requires forall i :: 0 <= i < |s| ==> IsWordChar(s[i])
    ensures StripNonAlphanumeric(s) == s
  {
    if s != [] {
      StripKeepsWords(s[1..]);
      assert [s[0]] + s[1..] == s;
    }
  }

  /** Stripping twice is stripping once. */
  lemma StripIdempotent(s: string)
    ensures StripNonAlphanumeric(StripNonAlphanumeric(s)) == StripNonAlphanumeric(s)
  {
    StripKeepsWords(StripNonAlphanumeric(s));
  }

  /** Stripping works piecewise, so no word character is ever dropped. */
  lemma {:induction false} StripConcat(a: string, b: string)
    ensures StripNonAlphanumeric(a + b) == StripNonAlphanumeric(a) + StripNonAlphanumeric(b)
  {
    if a == [] {
      assert a + b == b;
    } else {
      var s := a + b;
      assert s[0] == a[0] && s[1..] == a[1..] + b;
      StripConcat(a[1..], b);
      var x, y := StripNonAlphanumeric(a[1..]), StripNonAlphanumeric(b);
      if IsWordChar(a[0]) {
        assert StripNonAlphanumeric(s) == [a[0]] + (x + y);
        assert StripNonAlphanumeric(a) == [a[0]] + x;
        assert [a[0]] + (x + y) == ([a[0]] + x) + y;
      }
    }
  }

}
