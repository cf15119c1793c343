/** The divisor and the multiple of one chunk size that is nearest to another
    (tensorstore/chunk_layout.cc). */
module NearestSizes {
  import opened Int64
  import opened IndexIntervals
  import opened Results

  const SEARCH_DISTANCE: int64 := 1000000

  predicate IsSize(size: int64) {
    size >= 1
  }

  // ----- Divisors ------------------------------------------------------------------------

  predicate Divides(c: int, n: int) {
    c > 0 && n % c == 0
  }

  /** The first divisor at distance `offset` or more, and less than the search distance, from the
      target: the smaller one first. */
  function FirstDivisor(dividend: int64, target: int64, offset: int64): (r: Option<int64>)
    requires IsSize(dividend) && IsSize(target) && 1 <= offset <= SEARCH_DISTANCE
    requires target as int + offset as int <= dividend as int
    decreases SEARCH_DISTANCE as int - offset as int
  {
    if offset >= SEARCH_DISTANCE then None
    else if target > offset && dividend % (target - offset) == 0 then Some(target - offset)
    else if dividend % (target + offset) == 0 then Some(target + offset)
    else
      SelfDivides(dividend, target + offset);
      FirstDivisor(dividend, target, offset + 1)
  }

  /** So the search never goes beyond the dividend, and cannot overflow. */
  lemma SelfDivides(dividend: int64, c: int64)
    requires 1 <= c <= dividend && dividend % c != 0
    ensures c < dividend
  {
    if c == dividend {
      MultipleDivides(1, c as int);
    }
  }

  function NearestDivisor(dividend: int64, target: int64): (r: int64)
    requires IsSize(dividend) && IsSize(target)
    ensures IsSize(r) && Divides(r as int, dividend as int)
  {
    if target >= dividend then
      dividend
    else if dividend % target == 0 then
      target
    else
      var found := FirstDivisor(dividend, target, 1);
      FirstDivisorIsNearest(dividend, target, 1);
      if found.Some? then found.value else dividend
  }

  method FindNearestDivisor(dividend: int64, target: int64) returns (r: int64)
    requires IsSize(dividend) && IsSize(target)
    ensures r == NearestDivisor(dividend, target)
  {
    if target >= dividend {
      return dividend;
    }
    if dividend % target == 0 {
      return target;
    }
    var offset := 1;
    while offset < SEARCH_DISTANCE
      invariant 1 <= offset <= SEARCH_DISTANCE && target as int + offset as int <= dividend as int
      invariant FirstDivisor(dividend, target, 1) == FirstDivisor(dividend, target, offset)
      decreases SEARCH_DISTANCE as int - offset as int
    {
      if target > offset && dividend % (target - offset) == 0 {
        return target - offset;
      }
      if dividend % (target + offset) == 0 {
        return target + offset;
      }
      SelfDivides(dividend, target + offset);
      offset := offset + 1;
    }
    return dividend;
  }

  /** `c` is strictly nearer to the target than `r`, or as near and smaller. */
  predicate Nearer(c: int, r: int, target: int) {
    Abs(c - target) < Abs(r - target) || (Abs(c - target) == Abs(r - target) && c < r)
  }

  ghost predicate IsNearestDivisor(r: int, n: int, target: int) {
    Divides(r, n) && forall c: int :: Divides(c, n) ==> !Nearer(c, r, target)
  }

  ghost predicate HasDivisorWithin(n: int, target: int, distance: int) {
    exists c: int :: Divides(c, n) && Abs(c - target) < distance
  }

  /** `r` comes first among the divisors at distance `offset` or more from the target. */
  ghost predicate IsFirstBeyond(r: int, n: int, target: int, offset: int) {
    && Divides(r, n) && offset <= Abs(r - target)
    && forall c: int :: Divides(c, n) && offset <= Abs(c - target) ==> !Nearer(c, r, target)
  }

  ghost predicate NoneBetween(n: int, target: int, from: int, to: int) {
    forall c: int :: Divides(c, n) ==> !(from <= Abs(c - target) < to)
  }

  lemma {:induction false} FirstDivisorIsNearest(dividend: int64, target: int64, offset: int64)
    requires IsSize(dividend) && IsSize(target) && 1 <= offset <= SEARCH_DISTANCE
    requires target as int + offset as int <= dividend as int
    ensures match FirstDivisor(dividend, target, offset)
      case Some(r) => IsSize(r) && IsFirstBeyond(r as int, dividend as int, target as int, offset as int)
                      && Abs(r as int - target as int) < SEARCH_DISTANCE as int
      case None => NoneBetween(dividend as int, target as int, offset as int, SEARCH_DISTANCE as int)
    decreases SEARCH_DISTANCE as int - offset as int
  {
    if offset < SEARCH_DISTANCE {
      var n, t, o := dividend as int, target as int, offset as int;
      if target > offset && dividend % (target - offset) == 0 {
        FoundBelow(n, t, o);
      } else if dividend % (target + offset) == 0 {
        DivisorIsAtMost(t + o, n);
        FoundAbove(n, t, o);
      } else {
        SelfDivides(dividend, target + offset);
        FirstDivisorIsNearest(dividend, target, offset + 1);
        AtDistance(n, t, o);
      }
    }
  }

  lemma FoundBelow(n: int, t: int, offset: int)
    requires Divides(t - offset, n) && offset >= 1
    ensures IsFirstBeyond(t - offset, n, t, offset)
  {
  }

  lemma FoundAbove(n: int, t: int, offset: int)
    requires Divides(t + offset, n) && !Divides(t - offset, n) && offset >= 1
    ensures IsFirstBeyond(t + offset, n, t, offset)
  {
  }

  lemma AtDistance(n: int, target: int, offset: int)
    requires !Divides(target - offset, n) && !Divides(target + offset, n)
    ensures forall c: int :: Divides(c, n) && offset <= Abs(c - target) ==> offset + 1 <= Abs(c - target)
  {
  }

  lemma DivisorIsAtMost(c: int, n: int)
    requires n > 0
    ensures Divides(c, n) ==> c <= n
  {
    if c > n {
      FloorIsUnique(0, n, c);
      DivMod(n, c);
    }
  }

  /** When the result is a nearest divisor: the target is not below the dividend, or a divisor lies
      within the search distance, or the dividend is nearer than every other divisor. */
  ghost predicate FindsNearestDivisor(n: int, t: int) {
    || t >= n || HasDivisorWithin(n, t, 1000000)
    || (forall c: int :: Divides(c, n) && c != n ==> c < 2 * t - n)
  }

  /** Exactly then the result is the divisor nearest to the target, the smaller of two; otherwise it is
      the dividend. */
  lemma NearestDivisorIsNearest(dividend: int64, target: int64)
    requires IsSize(dividend) && IsSize(target)
    ensures var r, n, t := NearestDivisor(dividend, target) as int, dividend as int, target as int;
            && (IsNearestDivisor(r, n, t) <==> FindsNearestDivisor(n, t))
            && (!FindsNearestDivisor(n, t) ==> r == n)
  {
    var n, t := dividend as int, target as int;
    if target >= dividend {
      DividendIsNearest(n, t);
    } else if !Divides(t, n) {
      FirstDivisorIsNearest(dividend, target, 1);
      var found := FirstDivisor(dividend, target, 1);
      if found.Some? {
        FirstOfAll(found.value as int, n, t);
      } else {
        NoneWithin(n, t, SEARCH_DISTANCE as int);
        DividendIsNearestOfFar(n, t);
      }
    }
  }

  lemma DividendIsNearest(n: int, t: int)
    requires 0 < n <= t
    ensures IsNearestDivisor(n, n, t)
  {
    MultipleDivides(1, n);
    forall c: int | Divides(c, n)
      ensures c <= n
    {
      DivisorIsAtMost(c, n);
    }
  }

  lemma FirstOfAll(r: int, n: int, t: int)
    requires IsFirstBeyond(r, n, t, 1) && !Divides(t, n)
    ensures IsNearestDivisor(r, n, t)
  {
  }

  lemma NoneWithin(n: int, t: int, distance: int)
    requires NoneBetween(n, t, 1, distance) && !Divides(t, n)
    ensures !HasDivisorWithin(n, t, distance)
  {
  }

  lemma OnlyItself(c: int, n: int)
    requires n > 0 && Divides(c, n) && 2 * c > n
    ensures c == n
  {
    Remainderless(n, c);
    var k := n / c;
    DivisorIsAtMost(c, n);
    if k >= 2 {
      MulMonotone(2, k, c);
    } else if k <= 0 {
      MulMonotone(k, 0, c);
    }
  }

  lemma DividendIsNearestOfFar(n: int, t: int)
    requires 0 < t < n
    ensures IsNearestDivisor(n, n, t) <==> forall c: int :: Divides(c, n) && c != n ==> c < 2 * t - n
  {
    MultipleDivides(1, n);
    forall c: int | Divides(c, n) && c != n
      ensures Nearer(c, n, t) <==> !(c < 2 * t - n)
    {
      DivisorIsAtMost(c, n);
    }
    if IsNearestDivisor(n, n, t) {
      forall c: int | Divides(c, n) && c != n
        ensures c < 2 * t - n
      {
        assert !Nearer(c, n, t);
      }
    }
  }

  /** Beyond the search distance a nearer divisor can be missed. */
  lemma NearestDivisorExample()
    ensures var n, t: int64 := 0x40_0000, 0x2f_ffff;
            && NearestDivisor(n, t) == n
            && Divides(0x20_0000, n as int) && Nearer(0x20_0000, n as int, t as int)
  {
    NothingNear(0x40_0000, 0x2f_ffff);
    MultipleDivides(2, 0x20_0000);
    NearestDivisorIsNearest(0x40_0000, 0x2f_ffff);
  }

  lemma NothingNear(n: int, t: int)
    requires n > 0 && 2 * (t - SEARCH_DISTANCE as int) >= n && t + SEARCH_DISTANCE as int <= n
    ensures !HasDivisorWithin(n, t, SEARCH_DISTANCE as int)
  {
    forall c: int | Divides(c, n) && Abs(c - t) < SEARCH_DISTANCE as int
      ensures false
    {
      OnlyItself(c, n);
    }
  }

  // ----- Multiples ---------------------------------------------------------------------------

  function FindNearestMultiple(divisor: int64, target: int64): (r: int64)
    requires IsSize(divisor) && IsSize(target)
    ensures IsSize(r) && Divides(divisor as int, r as int)
  {
    if target < divisor then
      divisor
    else
      LowerMultiple(divisor as int, target as int);
      var lower := (target as int / divisor as int * divisor as int) as int64;
      var upper := AddOverflow(lower, divisor);
      if upper.None? || upper.value > MAX_FINITE then lower
      else if target - lower <= upper.value - target then lower
      else upper.value
  }

  ghost predicate NoneInside(divisor: int, low: int, high: int) {
    forall c: int :: Divides(divisor, c) ==> c <= low || high <= c
  }

  /** The two multiples around the target. */
  lemma LowerMultiple(divisor: int, target: int)
    requires 0 < divisor <= target
    ensures var lower := target / divisor * divisor;
            && divisor <= lower <= target < lower + divisor
            && Divides(divisor, lower) && Divides(divisor, lower + divisor)
            && NoneInside(divisor, lower, lower + divisor)
  {
    DivMod(target, divisor);
    var q := target / divisor;
    FloorIsGreatest(1, target, divisor);
    MulMonotone(1, q, divisor);
    MultipleDivides(q, divisor);
    MultipleDivides(q + 1, divisor);
    MulSuccessor(q, divisor);
    forall c: int | Divides(divisor, c)
      ensures c <= q * divisor || q * divisor + divisor <= c
    {
      var k := c / divisor;
      assert c == k * divisor by { Remainderless(c, divisor); }
      if k <= q {
        MulMonotone(k, q, divisor);
      } else {
        MulMonotone(q + 1, k, divisor);
      }
    }
  }

  lemma MultipleDivides(k: int, d: int)
    requires d > 0
    ensures Divides(d, k * d)
  {
    FloorIsUnique(k, k * d, d);
    Remainder(k * d, d);
  }

  lemma Remainder(n: int, d: int)
    requires d > 0
    ensures n % d == n - n / d * d
  {
  }

  lemma Remainderless(n: int, d: int)
    requires Divides(d, n)
    ensures n == n / d * d
  {
  }

  ghost predicate IsNearestMultiple(r: int, divisor: int, target: int) {
    && r > 0 && Divides(divisor, r)
    && forall c: int :: Divides(divisor, c) && c > 0 && (c <= target || c <= MAX_FINITE as int) ==>
         !Nearer(c, r, target)
  }

  /** No positive multiple is nearer, unless it exceeds the greatest finite index; of two, the smaller
      is taken. */
  lemma NearestMultipleIsNearest(divisor: int64, target: int64)
    requires IsSize(divisor) && IsSize(target)
    ensures IsNearestMultiple(FindNearestMultiple(divisor, target) as int, divisor as int, target as int)
  {
    var d := divisor as int;
    if divisor <= target {
      LowerMultiple(d, target as int);
    } else {
      MultipleDivides(1, d);
      forall c: int | Divides(d, c) && c > 0
        ensures d <= c
      {
        DivisorIsAtMost(d, c);
      }
    }
  }
}
