/** Signed 64-bit arithmetic as the C++ source uses it: overflow-checked operations return
    `None`, and every unchecked operation is a proof obligation of the `int64` type. */
module Int64 {

  import opened Results

  newtype int64 = x: int | -0x8000_0000_0000_0000 <= x <= 0x7fff_ffff_ffff_ffff

  const INT64_MIN: int64 := -0x8000_0000_0000_0000
  const INT64_MAX: int64 := 0x7fff_ffff_ffff_ffff

  predicate Fits(x: int) {
    INT64_MIN as int <= x <= INT64_MAX as int
  }

  function AddOverflow(a: int64, b: int64): (r: Option<int64>) {
    var sum := a as int + b as int;
    if Fits(sum) then Some(sum as int64) else None
  }

  function SubOverflow(a: int64, b: int64): (r: Option<int64>) {
    var difference := a as int - b as int;
    if Fits(difference) then Some(difference as int64) else None
  }

  function MulOverflow(a: int64, b: int64): (r: Option<int64>) {
    var product := a as int * b as int;
    if Fits(product) then Some(product as int64) else None
  }

  /** The greatest integer at most `n / d`. Dafny's own division leaves a non-negative
      remainder, so it is the floor exactly when the divisor is positive. */
  function FloorDiv(n: int, d: int): (q: int)
    requires d != 0
  {
    if d > 0 then n / d else (-n) / (-d)
  }

  /** The least integer at least `n / d`. */
  function CeilDiv(n: int, d: int): (q: int)
    requires d != 0
  {
    -FloorDiv(-n, d)
  }

  /** C++ integer division: the quotient is rounded toward zero. */
  function TruncDiv(n: int, d: int): (q: int)
    requires d != 0
  {
    var q := Abs(n) / Abs(d);
    if (n >= 0) == (d > 0) then q else -q
  }

  function Abs(x: int): (r: int)
    ensures r >= 0
  {
    if x < 0 then -x else x
  }

  lemma FloorBounds(n: int, d: int)
    requires d != 0
    ensures d > 0 ==> FloorDiv(n, d) * d <= n < FloorDiv(n, d) * d + d
    ensures d < 0 ==> FloorDiv(n, d) * d >= n > FloorDiv(n, d) * d + d
  {
    if d > 0 {
      DivMod(n, d);
    } else {
      DivMod(-n, -d);
      MulNegate((-n) / (-d), d);
    }
  }

  lemma CeilBounds(n: int, d: int)
    requires d != 0
    ensures d > 0 ==> CeilDiv(n, d) * d - d < n <= CeilDiv(n, d) * d
    ensures d < 0 ==> CeilDiv(n, d) * d - d > n >= CeilDiv(n, d) * d
  {
    FloorBounds(-n, d);
    MulNegate(FloorDiv(-n, d), d);
  }

  lemma DivMod(n: int, d: int)
    requires d > 0
    ensures n / d * d <= n < n / d * d + d
  {
    assert n == n / d * d + n % d;
  }

  lemma MulNegate(a: int, b: int)
    ensures (-a) * b == -(a * b) && a * (-b) == -(a * b)
  {
  }

  lemma MulMonotone(a: int, b: int, d: int)
    requires a <= b
    ensures d >= 0 ==> a * d <= b * d
    ensures d <= 0 ==> a * d >= b * d
  {
    assert b * d - a * d == (b - a) * d;
  }

  /** Adding one to a factor adds the other factor to the product. */
  lemma MulSuccessor(a: int, d: int)
    ensures (a + 1) * d == a * d + d
  {
  }

  /** Among integers, being the floor is being bracketed by two consecutive multiples. */
  lemma FloorIsUnique(q: int, n: int, d: int)
    requires d != 0
    requires if d > 0 then q * d <= n < q * d + d else q * d >= n > q * d + d
    ensures q == FloorDiv(n, d)
  {
    FloorBounds(n, d);
    var f := FloorDiv(n, d);
    if f < q {
      MulMonotone(f + 1, q, d);
      MulSuccessor(f, d);
    } else if q < f {
      MulMonotone(q + 1, f, d);
      MulSuccessor(q, d);
    }
  }

  lemma CeilIsUnique(q: int, n: int, d: int)
    requires d != 0
    requires if d > 0 then q * d - d < n <= q * d else q * d - d > n >= q * d
    ensures q == CeilDiv(n, d)
  {
    MulNegate(q, d);
    FloorIsUnique(-q, -n, d);
  }

  /** The adjoint law: `x` is at most the floor exactly when `x * d` is at most `n`. */
  lemma FloorIsGreatest(x: int, n: int, d: int)
    requires d > 0
    ensures x <= FloorDiv(n, d) <==> x * d <= n
  {
    FloorBounds(n, d);
    var q := FloorDiv(n, d);
    if x <= q {
      MulMonotone(x, q, d);
    } else {
      MulMonotone(q + 1, x, d);
      MulSuccessor(q, d);
    }
  }

  /** Dually, `x` is at least the ceiling exactly when `x * d` is at least `n`. */
  lemma CeilIsLeast(x: int, n: int, d: int)
    requires d > 0
    ensures CeilDiv(n, d) <= x <==> n <= x * d
  {
    FloorIsGreatest(-x, -n, d);
    MulNegate(x, d);
  }

  /** Rounding toward zero is the floor of a non-negative ratio and the ceiling of a
      negative one; the quotient is at most half of `n` unless `d` is 1 or -1. */
  lemma TruncRounds(n: int, d: int)
    requires d != 0
    ensures TruncDiv(n, d) == if (n >= 0) == (d > 0) || n == 0 then FloorDiv(n, d) else CeilDiv(n, d)
    ensures n >= 0 ==> 0 <= TruncDiv(n, d) * d <= n
    ensures n <= 0 ==> n <= TruncDiv(n, d) * d <= 0
    ensures if (n >= 0) == (d > 0) then TruncDiv(n, d) >= 0 else TruncDiv(n, d) <= 0
    ensures if Abs(d) == 1 then TruncDiv(n, d) * d == n && Abs(TruncDiv(n, d)) == Abs(n)
            else 2 * Abs(TruncDiv(n, d)) <= Abs(n)
  {
    MagnitudeDiv(Abs(n), Abs(d));
    var q := Abs(n) / Abs(d);
    MulNegate(q, Abs(d));
    MulNegate(-q, Abs(d));
    var t := TruncDiv(n, d);
    assert t * d == if n >= 0 then q * Abs(d) else -(q * Abs(d));
    if (n >= 0) == (d > 0) || n == 0 {
      FloorIsUnique(t, n, d);
    } else {
      CeilIsUnique(t, n, d);
    }
  }

  lemma MagnitudeDiv(m: int, k: int)
    requires m >= 0 && k >= 1
    ensures 0 <= m / k * k <= m < m / k * k + k && 0 <= m / k
    ensures if k == 1 then m / k == m else 2 * (m / k) <= m
  {
    DivMod(m, k);
    if k >= 2 {
      MulMonotone(2, k, m / k);
    }
  }

  /** The branch-free ceiling of a ratio: round toward zero, then adjust by one. */
  function CeilOfRatio(numerator: int64, denominator: int64): (r: int64)
    requires denominator != 0 && !(numerator == INT64_MIN && denominator == -1)
    ensures r as int == CeilDiv(numerator as int, denominator as int)
  {
    TruncRounds(numerator as int, denominator as int);
    CeilAdjustment(numerator as int, denominator as int);
    var roundedTowardZero := TruncDiv(numerator as int, denominator as int) as int64;
    var intermediateProduct := (roundedTowardZero as int * denominator as int) as int64;
    var needsAdjustment :=
      && roundedTowardZero >= 0
      && ((denominator > 0 && numerator > intermediateProduct) ||
          (denominator < 0 && numerator < intermediateProduct));
    roundedTowardZero + (if needsAdjustment then 1 else 0)
  }

  lemma CeilAdjustment(n: int, d: int)
    requires d != 0
    ensures var t := TruncDiv(n, d);
            var adjust := t >= 0 && ((d > 0 && n > t * d) || (d < 0 && n < t * d));
            && CeilDiv(n, d) == t + (if adjust then 1 else 0)
            && (adjust ==> 2 * t <= Abs(n))
  {
    TruncRounds(n, d);
    var t := TruncDiv(n, d);
    MulSuccessor(t, d);
    if (n >= 0) == (d > 0) || n == 0 {
      FloorBounds(n, d);
      CeilIsUnique(if t * d == n then t else t + 1, n, d);
    }
  }

  /** The symmetric floor. */
  function FloorOfRatio(numerator: int64, denominator: int64): (r: int64)
    requires denominator != 0 && !(numerator == INT64_MIN && denominator == -1)
    ensures r as int == FloorDiv(numerator as int, denominator as int)
  {
    TruncRounds(numerator as int, denominator as int);
    FloorAdjustment(numerator as int, denominator as int);
    var roundedTowardZero := TruncDiv(numerator as int, denominator as int) as int64;
    var intermediateProduct := (roundedTowardZero as int * denominator as int) as int64;
    var needsAdjustment :=
      && roundedTowardZero <= 0
      && ((denominator > 0 && numerator < intermediateProduct) ||
          (denominator < 0 && numerator > intermediateProduct));
    roundedTowardZero - (if needsAdjustment then 1 else 0)
  }

  lemma FloorAdjustment(n: int, d: int)
    requires d != 0
    ensures var t := TruncDiv(n, d);
            var adjust := t <= 0 && ((d > 0 && n < t * d) || (d < 0 && n > t * d));
            && FloorDiv(n, d) == t - (if adjust then 1 else 0)
            && (adjust ==> 2 * -t <= Abs(n))
  {
    TruncRounds(n, d);
    var t := TruncDiv(n, d);
    MulSuccessor(t - 1, d);
    if (n >= 0) != (d > 0) && n != 0 {
      CeilBounds(n, d);
      FloorIsUnique(if t * d == n then t else t - 1, n, d);
    }
  }
}
