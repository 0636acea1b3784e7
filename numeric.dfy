/** Python and numpy arithmetic the metadata pipeline relies on, over exact reals:
    the built-in `round` (half to even), `round(x, places)`, `np.mean`, `max`, `min`,
    and pandas' `dropna`. */
module Numeric {
  import opened Wrappers

  /** Python's `round(x)`: the nearest integer, a tie going to the even neighbour. */
  function RoundHalfEven(x: real): (n: int)
    ensures x - 0.5 <= n as real <= x + 0.5
    ensures (n as real - x == 0.5 || x - n as real == 0.5) ==> n % 2 == 0
  {
    var f := x.Floor;
    var d := x - f as real;
    if d < 0.5 then f
    else if d > 0.5 then f + 1
    else if f % 2 == 0 then f else f + 1
  }

  /** The two properties above determine the rounded value. */
  lemma RoundHalfEvenUnique(x: real, n: int)
    requires x - 0.5 <= n as real <= x + 0.5
    requires (n as real - x == 0.5 || x - n as real == 0.5) ==> n % 2 == 0
    ensures n == RoundHalfEven(x)
  {
  }

  lemma RoundHalfEvenMonotone(x: real, y: real)
    requires x <= y
    ensures RoundHalfEven(x) <= RoundHalfEven(y)
  {
  }

  lemma RoundHalfEvenOfInt(n: int)
    ensures RoundHalfEven(n as real) == n
  {
  }

  /** Python's `round(x, places)` on the exact value of `x`, where `scale` is 10 to the
      power `places` (100.0 for two places, 10000.0 for four). */
  function RoundTo(x: real, scale: real): real
    requires scale >= 1.0
  {
    RoundHalfEven(x * scale) as real / scale
  }

  lemma DivideBounds(a: real, b: real, c: real, s: real)
    requires s > 0.0 && a <= b <= c
    ensures a / s <= b / s <= c / s
  {
  }

  lemma ScaleMonotone(x: real, y: real, s: real)
    requires x <= y && s >= 0.0
    ensures x * s <= y * s
  {
  }

  lemma RoundToMonotone(x: real, y: real, scale: real)
    requires x <= y && scale >= 1.0
    ensures RoundTo(x, scale) <= RoundTo(y, scale)
  {
    ScaleMonotone(x, y, scale);
    RoundHalfEvenMonotone(x * scale, y * scale);
    var a, b := RoundHalfEven(x * scale), RoundHalfEven(y * scale);
    DivideBounds(a as real, a as real, b as real, scale);
  }

  lemma RoundToNonNegative(x: real, scale: real)
    requires x >= 0.0 && scale >= 1.0
    ensures RoundTo(x, scale) >= 0.0
  {
    RoundToMonotone(0.0, x, scale);
    RoundHalfEvenOfInt(0);
  }

  /** `x` is a whole number of `1 / scale` steps. */
  predicate OnGrid(x: real, scale: real) {
    var scaled := x * scale;
    scaled.Floor as real == scaled
  }

  lemma RoundToOnGrid(x: real, scale: real)
    requires scale >= 1.0
    ensures OnGrid(RoundTo(x, scale), scale)
  {
    var n := RoundHalfEven(x * scale);
    assert RoundTo(x, scale) * scale == n as real;
  }

  /** Rounding moves a value by at most half a step. */
  lemma RoundToClose(x: real, scale: real)
    requires scale >= 1.0
    ensures x - 0.5 / scale <= RoundTo(x, scale) <= x + 0.5 / scale
  {
    var n := RoundHalfEven(x * scale);
    DivideBounds(x * scale - 0.5, n as real, x * scale + 0.5, scale);
    assert (x * scale - 0.5) / scale == x - 0.5 / scale;
    assert (x * scale + 0.5) / scale == x + 0.5 / scale;
  }

  function Sum(xs: seq<real>): real
  {
    if xs == [] then 0.0 else Sum(xs[..|xs| - 1]) + xs[|xs| - 1]
  }

  /** Python's `max` over a non-empty list. */
  function MaxOf(xs: seq<real>): (m: real)
    requires |xs| > 0
    ensures m in xs
    ensures forall i :: 0 <= i < |xs| ==> xs[i] <= m
  {
    if |xs| == 1 then xs[0]
    else
      var m := MaxOf(xs[..|xs| - 1]);
      assert forall i :: 0 <= i < |xs| - 1 ==> xs[i] == xs[..|xs| - 1][i];
      if xs[|xs| - 1] > m then xs[|xs| - 1] else m
  }

  /** Python's `min` over a non-empty list. */
  function MinOf(xs: seq<real>): (m: real)
    requires |xs| > 0
    ensures m in xs
    ensures forall i :: 0 <= i < |xs| ==> m <= xs[i]
  {
    if |xs| == 1 then xs[0]
    else
      var m := MinOf(xs[..|xs| - 1]);
      assert forall i :: 0 <= i < |xs| - 1 ==> xs[i] == xs[..|xs| - 1][i];
      if xs[|xs| - 1] < m then xs[|xs| - 1] else m
  }

  lemma {:induction false} SumBounds(xs: seq<real>, lo: real, hi: real)
    requires forall i :: 0 <= i < |xs| ==> lo <= xs[i] <= hi
    ensures |xs| as real * lo <= Sum(xs) <= |xs| as real * hi
  {
    if xs != [] {
      var init := xs[..|xs| - 1];
      assert forall i :: 0 <= i < |init| ==> init[i] == xs[i];
      SumBounds(init, lo, hi);
      assert |xs| as real * lo == |init| as real * lo + lo;
      assert |xs| as real * hi == |init| as real * hi + hi;
    }
  }

  /** `np.mean`, which lies between the minimum and the maximum. */
  function Mean(xs: seq<real>): (m: real)
    requires |xs| > 0
    ensures MinOf(xs) <= m <= MaxOf(xs)
  {
    var n := |xs| as real;
    SumBounds(xs, MinOf(xs), MaxOf(xs));
    MeanBetween(Sum(xs), n, MinOf(xs), MaxOf(xs));
    Sum(xs) / n
  }

  lemma MeanBetween(total: real, n: real, lo: real, hi: real)
    requires n > 0.0 && n * lo <= total <= n * hi
    ensures lo <= total / n <= hi
  {
    assert (n * lo) / n == lo;
    assert (n * hi) / n == hi;
    DivideBounds(n * lo, total, n * hi, n);
  }

  function Count<T(==)>(xs: seq<T>, x: T): nat
  {
    if xs == [] then 0
    else Count(xs[..|xs| - 1], x) + (if xs[|xs| - 1] == x then 1 else 0)
  }

  lemma {:induction false} CountPositive<T>(xs: seq<T>, x: T)
    ensures Count(xs, x) > 0 <==> x in xs
  {
    if xs != [] {
      var init := xs[..|xs| - 1];
      CountPositive(init, x);
      assert xs == init + [xs[|xs| - 1]];
    }
  }

  /** The number of missing entries of `xs`. */
  function Missing<T>(xs: seq<Option<T>>): (n: nat)
    ensures n <= |xs|
  {
    if xs == [] then 0
    else Missing(xs[..|xs| - 1]) + (if xs[|xs| - 1].None? then 1 else 0)
  }

  /** pandas' `dropna`: the present values, in order. */
  function DropMissing<T>(xs: seq<Option<T>>): (r: seq<T>)
    ensures |r| == |xs| - Missing(xs)
    ensures forall i :: 0 <= i < |r| ==> Some(r[i]) in xs
    ensures forall i :: 0 <= i < |xs| && xs[i].Some? ==> xs[i].value in r
  {
    if xs == [] then []
    else
      var init := xs[..|xs| - 1];
      assert xs == init + [xs[|xs| - 1]];
      var r := DropMissing(init);
      match xs[|xs| - 1]
      case None => r
      case Some(y) => r + [y]
  }

  /** `dropna` works entry by entry: it keeps a present value, drops a missing one, and
      keeps the order of what it keeps. These three facts determine it. */
  lemma {:induction false} DropMissingConcat<T>(a: seq<Option<T>>, b: seq<Option<T>>)
    ensures DropMissing(a + b) == DropMissing(a) + DropMissing(b)
    ensures DropMissing<T>([None]) == []
    ensures forall x: T :: DropMissing([Some(x)]) == [x]
  {
    if b == [] {
      assert a + b == a;
    } else {
      var init := b[..|b| - 1];
      DropMissingConcat(a, init);
      assert (a + b)[..|a + b| - 1] == a + init;
      assert DropMissing<T>([None]) == DropMissing<T>([]);
    }
  }

  lemma {:induction false} DropMissingAllPresent<T>(xs: seq<Option<T>>)
    requires forall i :: 0 <= i < |xs| ==> xs[i].Some?
    ensures |DropMissing(xs)| == |xs|
    ensures forall i :: 0 <= i < |xs| ==> DropMissing(xs)[i] == xs[i].value
  {
    if xs != [] {
      var init := xs[..|xs| - 1];
      DropMissingAllPresent(init);
      assert DropMissing(xs) == DropMissing(init) + [xs[|xs| - 1].value];
    }
  }

  /** A plane vector `[x, y]`, longitude first. */
  datatype Vec2 = Vec2(x: real, y: real)

  /** `get_vector`: the displacement from `(x1, y1)` to `(x2, y2)`. */
  function GetVector(x1: real, y1: real, x2: real, y2: real): (v: Vec2)
    ensures x1 + v.x == x2 && y1 + v.y == y2
  {
    Vec2(x2 - x1, y2 - y1)
  }

  /** The displacement back is the opposite vector. */
  lemma GetVectorReverse(x1: real, y1: real, x2: real, y2: real)
    ensures GetVector(x2, y2, x1, y1) == Vec2(-GetVector(x1, y1, x2, y2).x, -GetVector(x1, y1, x2, y2).y)
  {
  }

  /** `np.vdot` of two real 2-vectors. */
  function Dot(a: Vec2, b: Vec2): real
  {
    a.x * b.x + a.y * b.y
  }

  lemma DotNegate(a: Vec2, b: Vec2)
    ensures Dot(a, Vec2(-b.x, -b.y)) == -Dot(a, b)
  {
  }
}
