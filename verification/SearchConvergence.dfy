/** Why the binary search for a chunk size always ends with a bracket that is narrow enough: the
    midpoint rule of tensorstore/chunk_layout.cc needs few rounds to make the ends comparable, and
    then halves their distance in every round. */
module SearchConvergence {
  import opened Int64
  import opened IndexIntervals
  import opened ChunkSizeSearch

  // ----- The midpoint rule ------------------------------------------------------------------------

  /** The mean; but when the ends are far apart the geometric mean, of which only the magnitude
      matters: its square is the product of the ends, up to a factor of two. */
  predicate IsMidpoint(low: real, high: real, mid: real) {
    if high > 4.0 * low then mid > 0.0 && low * high <= 2.0 * (mid * mid) && mid * mid <= 2.0 * (low * high)
    else mid == low + (high - low) / 2.0
  }

  ghost predicate FollowsRule(midpoint: (real, real) -> real) {
    forall low: real, high: real :: 0.0 < low < high ==> IsMidpoint(low, high, midpoint(low, high))
  }

  /** A midpoint within the rule, found by doubling. */
  function Doubled(low: real, high: real, mid: real): (r: real)
    requires 0.0 < low <= mid && low < high && mid * mid <= 2.0 * (low * high)
    ensures r > 0.0 && low * high <= 2.0 * (r * r) && r * r <= 2.0 * (low * high)
    decreases (high / low).Floor - (mid / low).Floor + 1
  {
    if low * high <= 2.0 * (mid * mid) then mid
    else
      DoublingEnds(low, high, mid);
      Doubled(low, high, 2.0 * mid)
  }

  lemma DoublingEnds(low: real, high: real, mid: real)
    requires 0.0 < low <= mid && low < high && low * high > 2.0 * (mid * mid)
    ensures (2.0 * mid) * (2.0 * mid) <= 2.0 * (low * high)
    ensures (mid / low).Floor < ((2.0 * mid) / low).Floor && (mid / low).Floor <= (high / low).Floor
  {
    var a, b := mid / low, high / low;
    assert a * low == mid && b * low == high && (2.0 * mid) / low == 2.0 * a;
    assert (2.0 * mid) * (2.0 * mid) == 4.0 * (mid * mid);
    if a < 1.0 {
      MulMonotoneReal(low, a, 1.0);
    }
    if mid >= high {
      MulMonotoneReal(mid, low, mid);
      MulMonotoneReal(low, high, mid);
    }
    QuotientOrder(mid, high, low);
  }

  lemma QuotientOrder(x: real, y: real, d: real)
    requires d > 0.0 && x <= y
    ensures x / d <= y / d
  {
    assert (x / d) * d == x && (y / d) * d == y;
  }

  function RuleMidpoint(low: real, high: real): real {
    if low <= 0.0 || high <= low then low
    else if high > 4.0 * low then
      MulMonotoneReal(low, low, high);
      Doubled(low, high, low)
    else
      low + (high - low) / 2.0
  }

  /** The rule can be followed with rational arithmetic alone. */
  lemma RuleCanBeFollowed()
    ensures FollowsRule(RuleMidpoint)
  {
    forall low: real, high: real | 0.0 < low < high
      ensures IsMidpoint(low, high, RuleMidpoint(low, high))
    {
    }
  }

  lemma SquareOrder(x: real, y: real)
    requires x >= 0.0 && y >= 0.0 && x * x <= y * y
    ensures x <= y
  {
    if x > y {
      StrictProductReal(x, y);
    }
  }

  lemma StrictProductReal(x: real, y: real)
    requires x > y >= 0.0
    ensures x * x > y * y
  {
    assert x * x - y * y == (x - y) * (x + y);
    PositiveProduct(x - y, x + y);
  }

  lemma PositiveProduct(x: real, y: real)
    requires x > 0.0 && y > 0.0
    ensures x * y > 0.0
  {
  }

  lemma SquareOfProduct(x: real, y: real)
    ensures (x * y) * (x * y) == (x * x) * (y * y)
  {
  }

  /** A midpoint always lies inside the bracket, so that it never ends the search. */
  lemma MidpointIsInside(low: real, high: real, mid: real)
    requires 0.0 < low < high && IsMidpoint(low, high, mid)
    ensures low < mid < high
  {
    if high > 4.0 * low {
      if mid <= low {
        NotBelow(low, high, mid);
      }
      if mid >= high {
        NotAbove(low, high, mid);
      }
    }
  }

  lemma NotBelow(low: real, high: real, mid: real)
    requires 0.0 < mid <= low && high > 4.0 * low
    ensures low * high > 2.0 * (mid * mid)
  {
    SquareMonotone(mid, low);
    PositiveProduct(low, low);
    PositiveProduct(low, high - 4.0 * low);
    assert low * (high - 4.0 * low) == low * high - 4.0 * (low * low);
  }

  lemma NotAbove(low: real, high: real, mid: real)
    requires 0.0 < low && mid >= high > 4.0 * low
    ensures mid * mid > 2.0 * (low * high)
  {
    SquareMonotone(high, mid);
    PositiveProduct(low, high);
    PositiveProduct(high, high - 4.0 * low);
    assert high * (high - 4.0 * low) == high * high - 4.0 * (low * high);
  }

  lemma SquareMonotone(x: real, y: real)
    requires 0.0 < x <= y
    ensures x * x <= y * y
  {
    MulMonotoneReal(x, x, y);
    MulMonotoneReal(y, x, y);
  }

  /** The ratio of the ends that `k` further geometric means bring down to at most 4. */
  ghost function Spread(k: nat): (r: real)
    ensures r >= 4.0
  {
    if k == 0 then 4.0
    else
      MulMonotoneReal(Spread(k - 1), 4.0, Spread(k - 1));
      Spread(k - 1) * Spread(k - 1) / 2.0
  }

  /** A geometric mean brings both new ratios down to `t`, from half the square of `t`. */
  lemma GeometricRound(low: real, high: real, mid: real, t: real)
    requires 0.0 < low && high > 4.0 * low && IsMidpoint(low, high, mid)
    requires t >= 4.0 && high <= low * (t * t / 2.0)
    ensures mid <= low * t && high <= mid * t
  {
    var tt, ll, mm, lh := t * t, low * low, mid * mid, low * high;
    MulMonotoneReal(low, high, low * (tt / 2.0));
    assert low * (low * (tt / 2.0)) == (ll * tt) / 2.0;
    SquareOfProduct(low, t);
    PositiveProduct(low, t);
    SquareOrder(mid, low * t);
    GeometricHigh(low, high, mid, t);
  }

  lemma GeometricHigh(low: real, high: real, mid: real, t: real)
    requires 0.0 < low && high > 4.0 * low && IsMidpoint(low, high, mid)
    requires t >= 4.0 && high <= low * (t * t / 2.0)
    ensures high <= mid * t
  {
    var tt, mm, lh := t * t, mid * mid, low * high;
    MulMonotoneReal(high, high, low * (tt / 2.0));
    assert high * (low * (tt / 2.0)) == (lh * tt) / 2.0;
    PositiveProduct(t, t);
    MulMonotoneReal(tt, lh, 2.0 * mm);
    assert tt * (2.0 * mm) == 2.0 * (mm * tt);
    assert tt * lh == lh * tt;
    SquareOfProduct(mid, t);
    PositiveProduct(mid, t);
    SquareOrder(high, mid * t);
  }

  // ----- The two phases of the search ---------------------------------------------------------------

  ghost function Pow2(n: nat): (r: real)
    ensures r >= 1.0
  {
    if n == 0 then 1.0 else 2.0 * Pow2(n - 1)
  }

  lemma {:induction false} Pow2IsMonotone(m: nat, n: nat)
    requires m <= n
    ensures Pow2(m) <= Pow2(n)
    decreases n
  {
    if m < n {
      Pow2IsMonotone(m, n - 1);
    }
  }

  /** The distance of the ends, times a weight, stays below both bounds. */
  ghost predicate Within(low: real, high: real, weight: real, bound: real) {
    (high - low) * weight <= 4.0 * low && (high - low) * weight <= bound
  }

  lemma HalvedIsWithin(low: real, high: real, low': real, high': real, weight: real, bound: real)
    requires Within(low, high, weight, bound) && low' >= low && bound >= 0.0 && low >= 0.0
    requires high' - low' == (high - low) / 2.0 || high' == low'
    ensures Within(low', high', 2.0 * weight, bound)
  {
    if high' != low' {
      assert (high' - low') * (2.0 * weight) == (high - low) * weight;
    }
  }

  lemma SmallerWeight(low: real, high: real, small: real, large: real, bound: real)
    requires Within(low, high, large, bound) && high > low && small <= large
    ensures Within(low, high, small, bound)
  {
    MulMonotoneReal(high - low, small, large);
  }

  lemma Regroup(x: real, w: real)
    ensures w * (2.0 * x) == (2.0 * w) * x
  {
  }

  /** Only the gap test stops the search. */
  lemma OnlyGapStops(s: Search, midpoint: (real, real) -> real, low: real, high: real)
    requires s.Valid() && s.SomeFree() && FollowsRule(midpoint) && low > 0.0
    ensures Continues(s, midpoint, low, high) <==> low + s.Increment() < high
  {
    if low + s.Increment() < high {
      assert 0.0 < low < high;
      MidpointIsInside(low, high, midpoint(low, high));
    }
  }

  /** A round between comparable ends moves one of them to the mean, or both. */
  lemma MeanRound(s: Search, target: int64, midpoint: (real, real) -> real, low: real, high: real,
                  weight: real, bound: real)
    requires s.Valid() && FollowsRule(midpoint) && 0.0 < low < high
    requires high <= 4.0 * low && bound >= 0.0 && Within(low, high, weight, bound)
    ensures var next := Round(s, target, midpoint, low, high);
            && next.0 > 0.0 && next.1 <= 4.0 * next.0 && Within(next.0, next.1, 2.0 * weight, bound)
  {
    var mid := midpoint(low, high);
    assert IsMidpoint(low, high, mid);
    HalvedIsWithin(low, high, low, mid, weight, bound);
    HalvedIsWithin(low, high, mid, high, weight, bound);
    HalvedIsWithin(low, high, mid, mid, weight, bound);
  }

  /** The high end is at most `t` times the low end. */
  ghost predicate AtMostApart(low: real, high: real, t: real) {
    high <= low * t
  }

  lemma FarMidpoint(low: real, high: real, mid: real, t: real, wide: real)
    requires 0.0 < low && high > 4.0 * low && IsMidpoint(low, high, mid)
    requires t >= 4.0 && wide == t * t / 2.0 && AtMostApart(low, high, wide)
    ensures low < mid < high && AtMostApart(low, mid, t) && AtMostApart(mid, high, t) && AtMostApart(mid, mid, t)
  {
    GeometricRound(low, high, mid, t);
    MidpointIsInside(low, high, mid);
    EqualEnds(mid, t);
  }

  lemma SpreadStep(k: nat) returns (t: real)
    ensures k > 0 ==> t == Spread(k - 1) && t >= 4.0 && Spread(k) == t * t / 2.0
    ensures k == 0 ==> Spread(k) == 4.0
  {
    t := if k > 0 then Spread(k - 1) else 4.0;
  }

  /** A round between ends far apart moves one of them to the geometric mean, or both. */
  lemma FarRound(s: Search, target: int64, midpoint: (real, real) -> real, low: real, high: real, t: real, wide: real)
    requires s.Valid() && FollowsRule(midpoint) && 0.0 < low && high > 4.0 * low
    requires t >= 4.0 && wide == t * t / 2.0 && AtMostApart(low, high, wide)
    ensures var next := Round(s, target, midpoint, low, high);
            0.0 < next.0 && 0.0 <= next.1 <= high && AtMostApart(next.0, next.1, t)
  {
    FarMidpoint(low, high, midpoint(low, high), t, wide);
  }

  lemma EqualEnds(mid: real, t: real)
    requires mid > 0.0 && t >= 4.0
    ensures mid <= mid * t
  {
    MulMonotoneReal(mid, 1.0, t);
  }

  /** The bracket is closed by the gap test, or the distance of its ends is within bounds. */
  ghost predicate ClosedOrWithin(s: Search, bracket: (real, real), weight: real, bound: real)
    requires s.Valid() && s.SomeFree()
  {
    bracket.1 <= bracket.0 + s.Increment() || Within(bracket.0, bracket.1, weight, bound)
  }

  /** Once the high end is at most four times the low end, every round halves their distance. */
  lemma {:induction false} MeanPhase(s: Search, target: int64, midpoint: (real, real) -> real, low: real, high: real,
                                     weight: real, bound: real, rounds: nat, final: real)
    requires s.Valid() && s.SomeFree() && FollowsRule(midpoint)
    requires low > 0.0 && high <= 4.0 * low && bound >= 0.0 && Within(low, high, weight, bound)
    requires final == Pow2(rounds) * weight
    ensures ClosedOrWithin(s, Bisect(s, target, midpoint, low, high, rounds), final, bound)
    decreases rounds
  {
    OnlyGapStops(s, midpoint, low, high);
    if rounds > 0 && low + s.Increment() < high {
      MeanRound(s, target, midpoint, low, high, weight, bound);
      var next := Round(s, target, midpoint, low, high);
      Regroup(weight, Pow2(rounds - 1));
      MeanPhase(s, target, midpoint, next.0, next.1, 2.0 * weight, bound, rounds - 1, final);
    }
  }

  /** Until then, every round replaces the ratio of the ends by little more than its square root. */
  lemma {:induction false} GeometricPhase(s: Search, target: int64, midpoint: (real, real) -> real,
                                          low: real, high: real, k: nat, rounds: nat, bound: real)
    requires s.Valid() && s.SomeFree() && FollowsRule(midpoint)
    requires low > 0.0 && 0.0 <= high <= bound && AtMostApart(low, high, Spread(k)) && k <= rounds
    ensures ClosedOrWithin(s, Bisect(s, target, midpoint, low, high, rounds), Pow2(rounds - k), bound)
    decreases rounds
  {
    if high <= 4.0 * low {
      Comparable(s, target, midpoint, low, high, k, rounds, bound);
    } else {
      OnlyGapStops(s, midpoint, low, high);
      if low + s.Increment() < high {
        var t := SpreadStep(k);
        FarRound(s, target, midpoint, low, high, t, Spread(k));
        var next := Round(s, target, midpoint, low, high);
        GeometricPhase(s, target, midpoint, next.0, next.1, k - 1, rounds - 1, bound);
      }
    }
  }

  lemma Comparable(s: Search, target: int64, midpoint: (real, real) -> real, low: real, high: real,
                   k: nat, rounds: nat, bound: real)
    requires s.Valid() && s.SomeFree() && FollowsRule(midpoint)
    requires low > 0.0 && 0.0 <= high <= bound && high <= 4.0 * low && k <= rounds
    ensures ClosedOrWithin(s, Bisect(s, target, midpoint, low, high, rounds), Pow2(rounds - k), bound)
  {
    MeanPhase(s, target, midpoint, low, high, 1.0, bound, rounds, Pow2(rounds));
    var bracket := Bisect(s, target, midpoint, low, high, rounds);
    if bracket.1 > bracket.0 + s.Increment() {
      Pow2IsMonotone(rounds - k, rounds);
      SmallerWeight(bracket.0, bracket.1, Pow2(rounds - k), Pow2(rounds), bound);
    }
  }

  // ----- Powers of two ------------------------------------------------------------------------------

  lemma {:induction false} Pow2Sum(m: nat, n: nat)
    ensures Pow2(m + n) == Pow2(m) * Pow2(n)
    decreases n
  {
    if n > 0 {
      Pow2Sum(m, n - 1);
      Regroup(Pow2(n - 1), Pow2(m));
      assert Pow2(m + n) == 2.0 * Pow2(m + n - 1);
    }
  }

  lemma Pow2Values()
    ensures Pow2(64) == 18446744073709551616.0
  {
    assert Pow2(1) == 2.0 * Pow2(0);
    Pow2Sum(1, 1);
    Pow2Sum(2, 2);
    Pow2Sum(4, 4);
    Pow2Sum(8, 8);
    Pow2Sum(16, 16);
    Pow2Sum(32, 32);
  }

  ghost function Exponent(k: nat): nat {
    if k == 0 then 1 else 2 * Exponent(k - 1)
  }

  lemma {:induction false} SpreadIsPower(k: nat)
    ensures Spread(k) == 2.0 * Pow2(Exponent(k))
  {
    if k == 0 {
      assert Pow2(1) == 2.0 * Pow2(0);
    } else {
      SpreadIsPower(k - 1);
      var p := Pow2(Exponent(k - 1));
      Pow2Sum(Exponent(k - 1), Exponent(k - 1));
      assert (2.0 * p) * (2.0 * p) / 2.0 == 2.0 * (p * p);
    }
  }

  lemma Exponents()
    ensures Exponent(7) == 128 && Exponent(12) == 4096
  {
    assert Exponent(3) == 8;
    assert Exponent(5) == 32;
    assert Exponent(7) == 128;
    assert Exponent(9) == 512;
    assert Exponent(11) == 2048;
  }

  // ----- How far apart the ends are at first -----------------------------------------------------------

  /** The ratios of the free dimensions are at most one, and at least the inverse of `span`. */
  ghost predicate RatiosSpan(s: Search, span: real)
    requires s.Valid()
  {
    forall i: nat :: i < |s.shape| && s.Free(i) ==> InSpan(s.ratio[i], span)
  }

  predicate InSpan(r: real, span: real) {
    r <= 1.0 && r * span >= 1.0
  }

  lemma QuotientBound(x: real, r: real, y: real)
    requires r > 0.0 && x <= r * y
    ensures x / r <= y
  {
    assert r * (x / r) == x;
  }

  lemma InverseIsAtLeastOne(r: real)
    requires 0.0 < r <= 1.0
    ensures 1.0 / r >= 1.0
  {
    assert r * (1.0 / r) == 1.0;
  }

  lemma {:induction false} LeastInverseIsAtLeastOne(s: Search, span: real, n: nat)
    requires s.Valid() && RatiosSpan(s, span) && n <= |s.shape|
    ensures s.LeastInverse(n).Some? ==> s.LeastInverse(n).value >= 1.0
  {
    if n > 0 {
      LeastInverseIsAtLeastOne(s, span, n - 1);
      if s.Free(n - 1) {
        InverseIsAtLeastOne(s.ratio[n - 1]);
      }
    }
  }

  lemma FactorBound(limit: real, r: real, span: real)
    requires r > 0.0 && r * span >= 1.0 && limit <= MAX_SIZE
    ensures limit / r <= MAX_SIZE * span
  {
    assert r * (MAX_SIZE * span) == MAX_SIZE * (r * span);
    QuotientBound(limit, r, MAX_SIZE * span);
  }

  lemma {:induction false} GreatestFactorIsBounded(s: Search, span: real, n: nat)
    requires s.Valid() && RatiosSpan(s, span) && n <= |s.shape| && span > 0.0
    ensures s.GreatestFactor(n) <= MAX_SIZE * span
  {
    if n > 0 {
      GreatestFactorIsBounded(s, span, n - 1);
      if s.Free(n - 1) {
        FactorBound(s.limit[n - 1], s.ratio[n - 1], span);
      }
    }
  }

  lemma EndBounds(s: Search, span: real) returns (increment: real, end: real)
    requires s.Valid() && s.SomeFree() && RatiosSpan(s, span) && span > 0.0
    ensures increment == s.Increment() && end == s.End()
    ensures increment >= 0.5 && end <= 2.0 * (MAX_SIZE * span)
  {
    increment, end := s.Increment(), s.End();
    LeastInverseIsAtLeastOne(s, span, |s.shape|);
    GreatestFactorIsBounded(s, span, |s.shape|);
  }

  lemma FactorOfEnds(increment: real, end: real, m: real, t: real)
    requires increment >= 0.5 && end <= 2.0 * m && m >= 0.0 && t >= 4.0 * m
    ensures end <= increment * t
  {
    if t > 0.0 {
      MulMonotoneReal(t, 0.5, increment);
    }
  }

  /** At first the high end is at most `2^64 * span` times the low end. */
  lemma FirstBracket(s: Search, span: real, t: real)
    requires s.Valid() && s.SomeFree() && RatiosSpan(s, span) && span > 0.0 && t >= 18446744073709551616.0 * span
    ensures AtMostApart(s.Increment(), s.End(), t)
  {
    var increment, end := EndBounds(s, span);
    FactorOfEnds(increment, end, MAX_SIZE * span, t);
  }

  // ----- The search always ends with a close bracket ----------------------------------------------------

  lemma CloseFromWithin(s: Search, low: real, high: real, weight: real, bound: real)
    requires s.Valid() && s.SomeFree() && ClosedOrWithin(s, (low, high), weight, bound)
    requires weight >= 18446744073709551616.0
    ensures Close(s, low, high)
  {
    if high > low + s.Increment() {
      WithinIsRelativelyClose(low, high, weight);
    }
  }

  lemma WithinIsRelativelyClose(low: real, high: real, weight: real)
    requires high > low && weight >= 18446744073709551616.0 && (high - low) * weight <= 4.0 * low
    ensures (high - low) * MAX_SIZE <= low
  {
    MulMonotoneReal(high - low, 4.0 * MAX_SIZE, weight);
    assert (high - low) * (4.0 * MAX_SIZE) == 4.0 * ((high - low) * MAX_SIZE);
  }

  lemma SpreadIsAtLeast(k: nat, n: nat) returns (span: real)
    requires 64 + n <= Exponent(k)
    ensures span == Pow2(n) && Spread(k) >= 18446744073709551616.0 * span
    ensures Pow2(64 + n) == 18446744073709551616.0 * span
  {
    span := Pow2(n);
    Pow2Values();
    Pow2Sum(64, n);
    Pow2IsMonotone(64 + n, Exponent(k));
    SpreadIsPower(k);
  }

  lemma DoubleSpread() returns (span: real, spread: real, weight: real)
    ensures span == Pow2(2098) && spread == Spread(12) && weight == Pow2(MAX_ROUNDS - 12)
    ensures span > 0.0 && spread >= 18446744073709551616.0 * span && weight >= 18446744073709551616.0
  {
    Exponents();
    span := SpreadIsAtLeast(12, 2098);
    spread, weight := Spread(12), Pow2(MAX_ROUNDS - 12);
    Pow2Values();
    Pow2IsMonotone(64, MAX_ROUNDS - 12);
  }

  /** With the midpoint rule, the ends are close when the search stops, even if the ratios differ by as
      much as any two positive doubles do. */
  lemma SearchEndsClose(s: Search, target: int64, midpoint: (real, real) -> real)
    requires s.Valid() && s.SomeFree() && FollowsRule(midpoint) && RatiosSpan(s, Pow2(2098))
    ensures var bracket := FinalBracket(s, target, midpoint); Close(s, bracket.0, bracket.1)
  {
    var span, spread, weight := DoubleSpread();
    FirstBracket(s, span, spread);
    GeometricPhase(s, target, midpoint, s.Increment(), s.End(), 12, MAX_ROUNDS, s.End());
    var bracket := FinalBracket(s, target, midpoint);
    CloseFromWithin(s, bracket.0, bracket.1, weight, s.End());
  }

  lemma ModerateSpread() returns (span: real, spread: real, weight: real)
    ensures span == Pow2(29) && spread == Spread(7) && weight == Pow2(MAX_ROUNDS - 7)
    ensures span > 0.0 && spread >= weight == 18446744073709551616.0 * span && weight >= 1.0
  {
    Exponents();
    span := SpreadIsAtLeast(7, 29);
    spread, weight := Spread(7), Pow2(MAX_ROUNDS - 7);
  }

  /** With moderate ratios it is the gap test that ends the search. */
  lemma SearchEndsWithGapTest(s: Search, target: int64, midpoint: (real, real) -> real)
    requires s.Valid() && s.SomeFree() && FollowsRule(midpoint) && RatiosSpan(s, Pow2(29))
    ensures var bracket := FinalBracket(s, target, midpoint); bracket.1 <= bracket.0 + s.Increment()
  {
    var span, spread, weight := ModerateSpread();
    FirstBracket(s, span, spread);
    FirstBracket(s, span, weight);
    GeometricPhase(s, target, midpoint, s.Increment(), s.End(), 7, MAX_ROUNDS, s.End());
    GapIsClosed(s, FinalBracket(s, target, midpoint), weight);
  }

  lemma GapIsClosed(s: Search, bracket: (real, real), weight: real)
    requires s.Valid() && s.SomeFree() && ClosedOrWithin(s, bracket, weight, s.End())
    requires weight >= 1.0 && AtMostApart(s.Increment(), s.End(), weight)
    ensures bracket.1 <= bracket.0 + s.Increment()
  {
    var gap, increment, end := bracket.1 - bracket.0, s.Increment(), s.End();
    if gap > increment {
      GapTooWide(gap, increment, weight, end);
    }
  }

  lemma GapTooWide(gap: real, increment: real, weight: real, end: real)
    requires gap > increment && weight >= 1.0 && end <= increment * weight
    ensures gap * weight > end
  {
    PositiveProduct(gap - increment, weight);
    assert (gap - increment) * weight == gap * weight - increment * weight;
  }

  // ----- Aspect ratios that are doubles -----------------------------------------------------------------

  /** The magnitudes that a double can have. */
  ghost predicate InDoubleRange(ratio: real) {
    InRange(ratio, Pow2(1074), Pow2(1024))
  }

  /** Not positive, or from the inverse of `small` to `large`. */
  predicate InRange(ratio: real, small: real, large: real) {
    ratio <= 0.0 || (ratio * small >= 1.0 && ratio <= large)
  }

  lemma {:induction false} GreatestRatioIsOne(aspectRatio: seq<real>, shape: seq<int64>, n: nat)
    requires n <= |aspectRatio| == |shape| && GreatestRatio(aspectRatio, shape, n) > 0.0
    ensures exists i: nat :: i < n && shape[i] == 0 && aspectRatio[i] == GreatestRatio(aspectRatio, shape, n)
  {
    var rest := GreatestRatio(aspectRatio, shape, n - 1);
    if shape[n - 1] == 0 && aspectRatio[n - 1] > rest {
    } else {
      GreatestRatioIsOne(aspectRatio, shape, n - 1);
    }
  }

  lemma QuotientSpan(r: real, ratio: real, greatest: real, small: real, large: real)
    requires r * greatest == ratio && r > 0.0 && small > 0.0 && ratio * small >= 1.0 && greatest <= large
    ensures r * (small * large) >= 1.0
  {
    MulMonotoneReal(r, greatest, large);
    MulMonotoneReal(small, ratio, r * large);
    assert r * (small * large) == small * (r * large);
  }

  lemma NormalizedSpan(ratio: real, greatest: real, small: real, large: real) returns (r: real)
    requires 0.0 < ratio <= greatest && small > 0.0 && ratio * small >= 1.0 && greatest <= large
    ensures r == Normalized(ratio, greatest) && r <= 1.0 && r * (small * large) >= 1.0
  {
    r := ratio / greatest;
    assert r * greatest == ratio;
    QuotientBound(ratio, greatest, 1.0);
    QuotientSpan(r, ratio, greatest, small, large);
  }

  lemma FreeRatioSpan(aspectRatio: seq<real>, shape: seq<int64>, i: nat, small: real, large: real, span: real)
    returns (r: real)
    requires i < |aspectRatio| == |shape| && shape[i] == 0 && small > 0.0 && span == small * large && span >= 1.0
    requires forall j :: 0 <= j < |aspectRatio| ==> InRange(aspectRatio[j], small, large)
    ensures r == Normalized(aspectRatio[i], GreatestRatio(aspectRatio, shape, |shape|))
    ensures InSpan(r, span)
  {
    if aspectRatio[i] > 0.0 {
      var greatest := GreatestRatio(aspectRatio, shape, |shape|);
      GreatestRatioIsOne(aspectRatio, shape, |shape|);
      r := NormalizedSpan(aspectRatio[i], greatest, small, large);
    } else {
      r := 1.0;
    }
  }

  lemma RangeSpan(aspectRatio: seq<real>, shape: seq<int64>, target: int64, domain: seq<IndexInterval>,
                  sizes: SizeMap, small: real, large: real, span: real)
    requires CanSearch(aspectRatio, shape, domain, sizes)
    requires small > 0.0 && span == small * large && span >= 1.0
    requires forall i :: 0 <= i < |aspectRatio| ==> InRange(aspectRatio[i], small, large)
    ensures RatiosSpan(SearchFor(aspectRatio, shape, target, domain, sizes), span)
  {
    var s := SearchFor(aspectRatio, shape, target, domain, sizes);
    forall i: nat | i < |shape| && s.Free(i)
      ensures InSpan(s.ratio[i], span)
    {
      var r := FreeRatioSpan(aspectRatio, shape, i, small, large, span);
    }
  }

  lemma DoubleSpan() returns (small: real, large: real, span: real)
    ensures small == Pow2(1074) && large == Pow2(1024) && span == Pow2(2098)
    ensures small > 0.0 && span == small * large && span >= 1.0
  {
    small, large, span := Pow2(1074), Pow2(1024), Pow2(2098);
    Pow2Sum(1074, 1024);
  }

  lemma DoublesSpan(aspectRatio: seq<real>, shape: seq<int64>, target: int64, domain: seq<IndexInterval>,
                    sizes: SizeMap)
    requires CanSearch(aspectRatio, shape, domain, sizes)
    requires forall i :: 0 <= i < |aspectRatio| ==> InDoubleRange(aspectRatio[i])
    ensures RatiosSpan(SearchFor(aspectRatio, shape, target, domain, sizes), Pow2(2098))
  {
    var small, large, span := DoubleSpan();
    RangeSpan(aspectRatio, shape, target, domain, sizes, small, large, span);
  }

  /** So for all aspect ratios that are doubles, the chosen shape is nearly optimal: no shape of the
      search that fits the target has a size that exceeds the chosen one by more than one. */
  lemma ChosenShapeIsNearlyOptimal(aspectRatio: seq<real>, shape: seq<int64>, target: int64, domain: seq<IndexInterval>,
                                   midpoint: (real, real) -> real, factor: real, i: nat)
    requires CanSearch(aspectRatio, shape, domain, Identity) && SomeFreeSize(shape) && FollowsRule(midpoint)
    requires forall j :: 0 <= j < |aspectRatio| ==> InDoubleRange(aspectRatio[j])
    requires target < INT64_MAX && i < |shape|
    requires SearchFor(aspectRatio, shape, target, domain, Identity).Elements(factor) <= target as int
    ensures SearchFor(aspectRatio, shape, target, domain, Identity).SizeAt(i, factor) as int <=
            ChosenShape(aspectRatio, shape, target, domain, Identity, midpoint)[i] as int + 1
  {
    var s := SearchFor(aspectRatio, shape, target, domain, Identity);
    DoublesSpan(aspectRatio, shape, target, domain, Identity);
    SearchEndsClose(s, target, midpoint);
    BisectKeepsBracket(s, target, midpoint, s.Increment(), s.End(), MAX_ROUNDS);
    var bracket := FinalBracket(s, target, midpoint);
    NearlyOptimal(s, target, bracket.0, bracket.1, factor, i);
  }
}
