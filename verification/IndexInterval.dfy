/** Index intervals with infinite bounds, their images and preimages under affine maps, and
    strided slices, in the bounded arithmetic of tensorstore/index_interval.cc. */
module IndexIntervals {
  import opened Int64
  import opened Results

  const INF_INDEX: int64 := 0x3fff_ffff_ffff_ffff
  const MIN_FINITE: int64 := -0x3fff_ffff_ffff_fffe
  const MAX_FINITE: int64 := 0x3fff_ffff_ffff_fffe
  const INF_SIZE: int64 := 0x7fff_ffff_ffff_ffff
  const IMPLICIT: int64 := -0x8000_0000_0000_0000

  predicate IsFinite(x: int) {
    MIN_FINITE as int <= x <= MAX_FINITE as int
  }

  predicate IsValidIndex(x: int64) {
    -INF_INDEX <= x <= INF_INDEX
  }

  /** The finite indices are those below 2^62 - 1 in magnitude; the two of that magnitude stand for
      unbounded, and no valid index for an implicit value. */
  lemma IndexRange(x: int64)
    ensures IsFinite(x as int) <==> -0x3fff_ffff_ffff_fffe <= x <= 0x3fff_ffff_ffff_fffe
    ensures IsValidIndex(x) <==> IsFinite(x as int) || x == 0x3fff_ffff_ffff_ffff || x == -0x3fff_ffff_ffff_ffff
    ensures x == IMPLICIT <==> x == -0x8000_0000_0000_0000
  {
  }

  predicate ValidSized(min: int, size: int) {
    && -(INF_INDEX as int) <= min < INF_INDEX as int
    && 0 <= size <= INF_SIZE as int
    && min <= INF_INDEX as int + 1 - size
    && min + size > -(INF_INDEX as int) + 1
  }

  predicate ValidClosed(min: int, max: int) {
    && -(INF_INDEX as int) <= min < INF_INDEX as int
    && -(INF_INDEX as int) < max <= INF_INDEX as int
    && min - 1 <= max
  }

  datatype IndexInterval = IndexInterval(min: int64, size: int64) {
    predicate Valid() {
      ValidSized(min as int, size as int)
    }

    predicate Empty() {
      size == 0
    }

    /** The inclusive upper bound, as an unbounded integer. */
    ghost function Last(): int {
      min as int + size as int - 1
    }

    function Max(): (r: int64)
      requires Valid()
      ensures r as int == Last() && ValidClosed(min as int, r as int)
    {
      min + size - 1
    }

    /** `y` satisfies both bounds; an infinite bound is satisfied by every integer. */
    ghost predicate Admits(y: int) {
      && (min != -INF_INDEX ==> min as int <= y)
      && (Last() != INF_INDEX as int ==> y <= Last())
    }

    predicate Bounded()
      requires Valid()
    {
      min != -INF_INDEX && Max() != INF_INDEX
    }
  }

  function Infinite(): IndexInterval {
    IndexInterval(-INF_INDEX, INF_SIZE)
  }

  /** `Contains(interval, index)`: only finite indices are ever contained. */
  predicate ContainsIndex(interval: IndexInterval, index: int64)
    requires interval.Valid()
  {
    IsFinite(index as int) && interval.min <= index <= interval.Max()
  }

  lemma ContainsIsFiniteAdmits(interval: IndexInterval, index: int64)
    requires interval.Valid()
    ensures ContainsIndex(interval, index) <==> IsFinite(index as int) && interval.Admits(index as int)
  {
  }

  /** A nonempty interval is determined by the integers it admits. */
  lemma AdmitsDetermines(a: IndexInterval, b: IndexInterval)
    requires a.Valid() && b.Valid() && !a.Empty()
    requires forall y :: a.Admits(y) <==> b.Admits(y)
    ensures a == b
  {
    var low := a.min as int;
    assert a.Admits(low) && a.Admits(a.Last());
    assert b.Admits(low) && b.Admits(a.Last());
    assert a.Admits(low - 1) == b.Admits(low - 1);
    assert a.Admits(a.Last() + 1) == b.Admits(a.Last() + 1);
    assert b.Admits(b.Last()) == a.Admits(b.Last());
    assert b.Admits(b.min as int) == a.Admits(b.min as int);
    var far := -0x8000_0000_0000_0000;
    assert a.Admits(far) == b.Admits(far);
    assert a.Admits(-far) == b.Admits(-far);
  }

  // ----- Affine preimage ------------------------------------------------------------

  /** `interval` and the map with the sign of a negative divisor moved into the bounds:
      `lower <= o + x * d <= upper` with `d > 0`. */
  ghost function Lower(interval: IndexInterval, divisor: int): int {
    if divisor > 0 then interval.min as int
    else if interval.Empty() then -(interval.min as int)
    else -interval.Last()
  }

  ghost function Upper(interval: IndexInterval, divisor: int): int {
    if divisor > 0 then interval.Last()
    else if interval.Empty() then -(interval.min as int) - 1
    else -(interval.min as int)
  }

  ghost function Sign(divisor: int): int {
    if divisor > 0 then 1 else -1
  }

  /** `x` with its sign flipped when the divisor is negative. */
  ghost function Signed(divisor: int, x: int): int {
    if divisor > 0 then x else -x
  }

  /** Exactly when the preimage is computed: every finite bound, shifted by the offset, is an
      int64, and its rounded quotient is a finite index. */
  ghost predicate DomainSucceeds(interval: IndexInterval, offset: int, divisor: int) {
    && divisor != 0
    && (interval != Infinite() ==>
          var l, u := Lower(interval, divisor), Upper(interval, divisor);
          var o, d := Signed(divisor, offset), Signed(divisor, divisor);
          && (divisor < 0 ==> divisor != INT64_MIN as int && offset != INT64_MIN as int)
          && (l != -(INF_INDEX as int) ==> Fits(l - o) && IsFinite(CeilDiv(l - o, d)))
          && (!interval.Empty() && u != INF_INDEX as int ==> Fits(u - o) && IsFinite(FloorDiv(u - o, d))))
  }

  ghost predicate IsPreimage(interval: IndexInterval, offset: int, divisor: int, result: IndexInterval) {
    forall x: int :: result.Admits(x) <==> interval.Admits(offset + x * divisor)
  }

  /** The rounded-up transformed lower bound. */
  ghost function FirstOfPreimage(interval: IndexInterval, offset: int, divisor: int): int
    requires divisor != 0
  {
    CeilDiv(Lower(interval, divisor) - Signed(divisor, offset), Signed(divisor, divisor))
  }

  /** The quotient of a finite bound by the divisor is a finite index, and the difference that is divided,
      or for a negative divisor its negation, fits in int64. */
  ghost predicate BoundDivides(bound: int, offset: int, divisor: int, quotient: int) {
    Fits(if divisor > 0 then bound - offset else offset - bound) && IsFinite(quotient)
  }

  /** The success condition in terms of the bounds themselves: the lesser quotient, rounded up, and the
      greater one, rounded down, are finite indices. Of an empty interval only the first index counts. */
  lemma DomainSucceedsExactly(interval: IndexInterval, offset: int, divisor: int)
    requires interval.Valid() && divisor != 0 && interval != Infinite()
    requires divisor < 0 ==> divisor != INT64_MIN as int && offset != INT64_MIN as int
    ensures var min, last := interval.min as int, interval.Last();
            DomainSucceeds(interval, offset, divisor) <==>
            if interval.Empty() then BoundDivides(min, offset, divisor, CeilDiv(min - offset, divisor))
            else
              && (interval.min != -INF_INDEX ==>
                    BoundDivides(min, offset, divisor, if divisor > 0 then CeilDiv(min - offset, divisor)
                                                       else FloorDiv(min - offset, divisor)))
              && (last != INF_INDEX as int ==>
                    BoundDivides(last, offset, divisor, if divisor > 0 then FloorDiv(last - offset, divisor)
                                                        else CeilDiv(last - offset, divisor)))
    ensures interval.Empty() ==>
              FirstOfPreimage(interval, offset, divisor) == CeilDiv(interval.min as int - offset, divisor)
  {
  }

  /** A finite index is contained in the preimage exactly when its image, if it is a finite index, is
      contained in the interval. */
  lemma PreimageContains(interval: IndexInterval, offset: int64, divisor: int64, result: IndexInterval, x: int64)
    requires interval.Valid() && result.Valid() && IsPreimage(interval, offset as int, divisor as int, result)
    requires IsFinite(x as int) && IsFinite(offset as int + x as int * divisor as int)
    ensures ContainsIndex(result, x) <==> ContainsIndex(interval, (offset as int + x as int * divisor as int) as int64)
  {
    var image := offset as int + x as int * divisor as int;
    ContainsIsFiniteAdmits(result, x);
    ContainsIsFiniteAdmits(interval, image as int64);
    assert result.Admits(x as int) <==> interval.Admits(image);
  }

  /** An empty interval whose preimage is an interval that is not valid. */
  lemma EmptyPreimageExample()
    ensures var interval := IndexInterval(MIN_FINITE + 1, 0);
            && interval.Valid() && DomainSucceeds(interval, 1, 1)
            && FirstOfPreimage(interval, 1, 1) == MIN_FINITE as int && !IndexInterval(MIN_FINITE, 0).Valid()
  {
  }

  /** The preimage of `interval` under `x => offset + x * divisor`. */
  method GetAffineTransformDomain(interval: IndexInterval, offset: int64, divisor: int64)
    returns (r: Result<IndexInterval>)
    requires interval.Valid()
    ensures r.Ok? <==> DomainSucceeds(interval, offset as int, divisor as int)
    ensures r.Ok? && !interval.Empty() ==>
              r.value.Valid() && IsPreimage(interval, offset as int, divisor as int, r.value)
    ensures r.Ok? && interval.Empty() ==>
              var first := FirstOfPreimage(interval, offset as int, divisor as int);
              && r.value == IndexInterval(r.value.min, 0) && r.value.min as int == first
              && (r.value.Valid() <==> first != MIN_FINITE as int)
  {
    if divisor == 0 {
      return Err;
    }
    if interval == Infinite() {
      assert interval.Valid() && forall x: int :: interval.Admits(x);
      return Ok(interval);
    }
    var d, o := divisor, offset;
    var lower, upper;
    if d < 0 {
      if d == INT64_MIN || o == INT64_MIN {
        return Err;
      }
      d := -d;
      o := -o;
      lower := -interval.Max();
      upper := -interval.min;
      if interval.Empty() {
        lower := lower - 1;
        upper := upper - 1;
      }
    } else {
      lower := interval.min;
      upper := interval.Max();
    }
    r := PullBackBounds(interval.Empty(), lower, upper, o, d);
    if r.Ok? && !interval.Empty() {
      PreimageIsExact(interval, offset as int, divisor as int, r.value, lower as int, upper as int, o as int, d as int);
    }
  }

  /** The part of the computation after a negative divisor has been normalized away. */
  method PullBackBounds(empty: bool, lower: int64, upper: int64, offset: int64, divisor: int64)
    returns (r: Result<IndexInterval>)
    requires divisor > 0
    requires if empty then IsFinite(lower as int) else ValidClosed(lower as int, upper as int) && lower <= upper
    ensures r.Ok? <==>
              && (lower != -INF_INDEX ==>
                    && Fits(lower as int - offset as int)
                    && IsFinite(CeilDiv(lower as int - offset as int, divisor as int)))
              && (!empty && upper != INF_INDEX ==>
                    && Fits(upper as int - offset as int)
                    && IsFinite(FloorDiv(upper as int - offset as int, divisor as int)))
    ensures r.Ok? ==> r.value.min as int == if lower == -INF_INDEX then -(INF_INDEX as int)
                                            else CeilDiv(lower as int - offset as int, divisor as int)
    ensures r.Ok? && empty ==> r.value.size == 0
    ensures r.Ok? && !empty ==> r.value.Valid()
    ensures r.Ok? && !empty ==> r.value.Last() == if upper == INF_INDEX then INF_INDEX as int
                                                  else FloorDiv(upper as int - offset as int, divisor as int)
  {
    var resultLower, resultSize;
    if lower == -INF_INDEX {
      resultLower := -INF_INDEX;
    } else {
      var difference := SubOverflow(lower, offset);
      if difference.None? {
        return Err;
      }
      resultLower := CeilOfRatio(difference.value, divisor);
      if !IsFinite(resultLower as int) {
        return Err;
      }
    }
    if empty {
      resultSize := 0;
    } else if upper == INF_INDEX {
      resultSize := INF_INDEX - resultLower + 1;
    } else {
      var difference := SubOverflow(upper, offset);
      if difference.None? {
        return Err;
      }
      var resultUpper := FloorOfRatio(difference.value, divisor);
      if !IsFinite(resultUpper as int) {
        return Err;
      }
      if lower != -INF_INDEX {
        CeilAtMostFloorPlusOne(lower as int - offset as int, upper as int - offset as int, divisor as int);
      }
      resultSize := resultUpper - resultLower + 1;
    }
    return Ok(IndexInterval(resultLower, resultSize));
  }

  lemma CeilAtMostFloorPlusOne(a: int, b: int, d: int)
    requires a <= b && d > 0
    ensures CeilDiv(a, d) <= FloorDiv(b, d) + 1
  {
    CeilBounds(a, d);
    FloorIsGreatest(CeilDiv(a, d) - 1, b, d);
    MulSuccessor(CeilDiv(a, d) - 1, d);
  }

  lemma PreimageIsExact(interval: IndexInterval, offset: int, divisor: int, result: IndexInterval,
                        lower: int, upper: int, o: int, d: int)
    requires interval.Valid() && !interval.Empty() && divisor != 0 && d > 0
    requires if divisor > 0 then d == divisor && o == offset && lower == interval.min as int && upper == interval.Last()
             else d == -divisor && o == -offset && lower == -interval.Last() && upper == -(interval.min as int)
    requires if lower == -(INF_INDEX as int) then result.min == -INF_INDEX
             else result.min as int == CeilDiv(lower - o, d) && IsFinite(result.min as int)
    requires if upper == INF_INDEX as int then result.Last() == INF_INDEX as int
             else result.Last() == FloorDiv(upper - o, d) && IsFinite(result.Last())
    ensures IsPreimage(interval, offset, divisor, result)
  {
    forall x: int
      ensures result.Admits(x) <==> interval.Admits(offset + x * divisor)
    {
      CeilIsLeast(x, lower - o, d);
      FloorIsGreatest(x, upper - o, d);
      MulNegate(x, d);
    }
  }

  // ----- Affine image ---------------------------------------------------------------

  /** One bound pushed through `x => offset + x * multiplier`; `None` on overflow. */
  function TransformBound(bound: int64, offset: int64, multiplier: int64): (r: Option<int64>)
    ensures bound != -INF_INDEX && bound != INF_INDEX ==>
              var image := bound as int * multiplier as int + offset as int;
              if Fits(bound as int * multiplier as int) && IsFinite(image) then r.Some? && r.value as int == image
              else r.None?
  {
    if bound == -INF_INDEX || bound == INF_INDEX then
      Some(if multiplier < 0 then -bound else bound)
    else
      var product := MulOverflow(bound, multiplier);
      if product.None? then None
      else
        var sum := AddOverflow(product.value, offset);
        if sum.None? || !IsFinite(sum.value as int) then None else sum
  }

  ghost predicate BoundTransforms(bound: int, offset: int, multiplier: int) {
    bound != -(INF_INDEX as int) && bound != INF_INDEX as int ==>
      Fits(bound * multiplier) && IsFinite(bound * multiplier + offset)
  }

  ghost predicate RangeSucceeds(interval: IndexInterval, offset: int, multiplier: int) {
    && BoundTransforms(interval.min as int, offset, multiplier)
    && BoundTransforms(interval.Last(), offset, multiplier)
  }

  /** `image` has, in order, the images of the two bounds of `interval`; infinite bounds map to
      infinite bounds. */
  ghost predicate EndsMatch(interval: IndexInterval, offset: int, multiplier: int, image: IndexInterval) {
    var low := if multiplier > 0 then image.min as int else image.Last();
    var high := if multiplier > 0 then image.Last() else image.min as int;
    && (interval.min != -INF_INDEX ==> low == interval.min as int * multiplier + offset && IsFinite(low))
    && (interval.min == -INF_INDEX ==> low == (if multiplier > 0 then -(INF_INDEX as int) else INF_INDEX as int))
    && (interval.Last() != INF_INDEX as int ==> high == interval.Last() * multiplier + offset && IsFinite(high))
    && (interval.Last() == INF_INDEX as int ==>
          high == (if multiplier > 0 then INF_INDEX as int else -(INF_INDEX as int)))
  }

  method GetAffineTransformRange(interval: IndexInterval, offset: int64, multiplier: int64)
    returns (r: Result<IndexInterval>)
    requires interval.Valid()
    ensures r.Ok? <==> RangeSucceeds(interval, offset as int, multiplier as int)
    ensures r.Ok? && interval.Empty() ==>
              var first := interval.min as int * multiplier as int + offset as int;
              && r.value == IndexInterval(r.value.min, 0) && r.value.min as int == first
              && (r.value.Valid() <==> first != MIN_FINITE as int)
    ensures r.Ok? && !interval.Empty() && multiplier == 0 ==>
              && r.value.size == 1
              && r.value.min == (if interval.min == -INF_INDEX then -INF_INDEX else offset)
              && (r.value.Valid() <==> interval.min != -INF_INDEX)
    ensures r.Ok? && !interval.Empty() && multiplier != 0 ==>
              r.value.Valid() && !r.value.Empty() && EndsMatch(interval, offset as int, multiplier as int, r.value)
  {
    var lower := TransformBound(interval.min, offset, multiplier);
    if lower.None? {
      return Err;
    }
    var upper := TransformBound(interval.Max(), offset, multiplier);
    if upper.None? {
      return Err;
    }
    if interval.Empty() {
      return Ok(IndexInterval(lower.value, 0));
    }
    if multiplier == 0 {
      return Ok(IndexInterval(lower.value, 1));
    }
    MulMonotone(interval.min as int, interval.Last(), multiplier as int);
    var low, high := lower.value, upper.value;
    if multiplier < 0 {
      low, high := high, low;
    }
    return Ok(IndexInterval(low, high - low + 1));
  }

  /** An empty interval whose range is an interval that is not valid. */
  lemma EmptyRangeExample()
    ensures var interval, offset := IndexInterval(1, 0), MIN_FINITE as int + 1;
            && interval.Valid() && RangeSucceeds(interval, offset, -1) && InverseDomainSucceeds(interval, offset, -1)
            && interval.min as int * -1 + offset == MIN_FINITE as int && !IndexInterval(MIN_FINITE, 0).Valid()
  {
  }

  /** The range contains the image of every admitted integer ... */
  lemma RangeContainsImage(interval: IndexInterval, offset: int, multiplier: int, image: IndexInterval, x: int)
    requires interval.Valid() && image.Valid() && multiplier != 0
    requires EndsMatch(interval, offset, multiplier, image) && interval.Admits(x)
    ensures image.Admits(offset + x * multiplier)
  {
    if interval.min as int <= x {
      MulMonotone(interval.min as int, x, multiplier);
    }
    if x <= interval.Last() {
      MulMonotone(x, interval.Last(), multiplier);
    }
  }

  /** ... and every other interval that does so contains the range. */
  lemma RangeIsLeast(interval: IndexInterval, offset: int, multiplier: int, image: IndexInterval, other: IndexInterval)
    requires interval.Valid() && !interval.Empty() && image.Valid() && other.Valid() && multiplier != 0
    requires EndsMatch(interval, offset, multiplier, image)
    requires forall x :: interval.Admits(x) ==> other.Admits(offset + x * multiplier)
    ensures forall y :: image.Admits(y) ==> other.Admits(y)
  {
    var low, high := interval.min as int, interval.Last();
    if interval.min != -INF_INDEX {
      assert interval.Admits(low);
    } else {
      var far := Farther(high, offset, multiplier);
      assert interval.Admits(-far);
      MulNegate(far, multiplier);
    }
    if interval.Last() != INF_INDEX as int {
      assert interval.Admits(high);
    } else {
      var far := Farther(low, offset, multiplier);
      assert interval.Admits(far);
    }
  }

  /** An integer beyond `bound` whose multiple lies outside every finite interval. */
  lemma Farther(bound: int, offset: int, multiplier: int) returns (far: int)
    requires multiplier != 0
    ensures far >= bound && -far <= bound
    ensures multiplier > 0 ==>
              far * multiplier + offset > INF_INDEX as int && -(far * multiplier) + offset < -(INF_INDEX as int)
    ensures multiplier < 0 ==>
              far * multiplier + offset < -(INF_INDEX as int) && -(far * multiplier) + offset > INF_INDEX as int
  {
    far := Abs(bound) + Abs(offset) + INF_INDEX as int + 1;
    if multiplier > 0 {
      MulMonotone(1, multiplier, far);
    } else {
      MulMonotone(multiplier, -1, far);
    }
  }

  ghost predicate InverseDomainSucceeds(interval: IndexInterval, offset: int, divisor: int) {
    && RangeSucceeds(interval, offset, divisor)
    && (!interval.Empty() && divisor != 0 && interval.Last() != INF_INDEX as int ==>
          IsFinite(interval.Last() * divisor + offset + divisor - Sign(divisor)))
  }

  /** The bounds of the inverse domain: those of the range, with the end that the last index maps
      to moved out by `|divisor| - 1`. */
  ghost predicate InverseEnds(interval: IndexInterval, offset: int, divisor: int, result: IndexInterval)
  {
    var low := if divisor > 0 then result.min as int else result.Last();
    var high := if divisor > 0 then result.Last() else result.min as int;
    && (interval.min != -INF_INDEX ==> low == interval.min as int * divisor + offset && IsFinite(low))
    && (interval.min == -INF_INDEX ==> low == (if divisor > 0 then -(INF_INDEX as int) else INF_INDEX as int))
    && (interval.Last() != INF_INDEX as int ==>
          high == interval.Last() * divisor + offset + divisor - Sign(divisor) && IsFinite(high))
    && (interval.Last() == INF_INDEX as int ==> high == (if divisor > 0 then INF_INDEX as int else -(INF_INDEX as int)))
  }

  /** All integers whose distance from `offset`, divided by `divisor` and rounded down, is in
      `interval`; see `InverseDomainIsExact`. */
  method GetAffineTransformInverseDomain(interval: IndexInterval, offset: int64, divisor: int64)
    returns (r: Result<IndexInterval>)
    requires interval.Valid()
    ensures r.Ok? <==> InverseDomainSucceeds(interval, offset as int, divisor as int)
    ensures r.Ok? && interval.Empty() ==>
              var first := interval.min as int * divisor as int + offset as int;
              && r.value == IndexInterval(r.value.min, 0) && r.value.min as int == first
              && (r.value.Valid() <==> first != MIN_FINITE as int)
    ensures r.Ok? && !interval.Empty() && divisor == 0 ==>
              && r.value == IndexInterval(if interval.min == -INF_INDEX then -INF_INDEX else offset, 1)
              && (r.value.Valid() <==> interval.min != -INF_INDEX)
    ensures r.Ok? && !interval.Empty() && divisor != 0 ==>
              r.value.Valid() && !r.value.Empty() && InverseEnds(interval, offset as int, divisor as int, r.value)
  {
    var range := GetAffineTransformRange(interval, offset, divisor);
    if range.Err? || range.value.Empty() {
      return range;
    }
    r := range;
    if divisor > 0 && range.value.Max() != INF_INDEX {
      var newMax := AddOverflow(range.value.Max(), divisor - 1);
      if newMax.None? || !IsFinite(newMax.value as int) {
        return Err;
      }
      r := Ok(IndexInterval(range.value.min, newMax.value - range.value.min + 1));
    } else if divisor < 0 && range.value.min != -INF_INDEX {
      var newMin := AddOverflow(range.value.min, divisor + 1);
      if newMin.None? || !IsFinite(newMin.value as int) {
        return Err;
      }
      r := Ok(IndexInterval(newMin.value, range.value.Max() - newMin.value + 1));
    }
  }

  lemma InverseDomainIsExact(interval: IndexInterval, offset: int, divisor: int, result: IndexInterval)
    requires interval.Valid() && divisor != 0 && InverseEnds(interval, offset, divisor, result)
    ensures forall y: int :: result.Admits(y) <==> interval.Admits(FloorDiv(y - offset, divisor))
  {
    var d, o := if divisor > 0 then divisor else -divisor, if divisor > 0 then offset else -offset;
    MulNegate(interval.min as int, divisor);
    MulNegate(interval.Last(), divisor);
    MulSuccessor(interval.Last(), d);
    forall y: int
      ensures result.Admits(y) <==> interval.Admits(FloorDiv(y - offset, divisor))
    {
      var n := (if divisor > 0 then y else -y) - o;
      assert FloorDiv(y - offset, divisor) == FloorDiv(n, d);
      FloorIsGreatest(interval.min as int, n, d);
      FloorIsGreatest(interval.Last() + 1, n, d);
    }
  }

  /** The preimage of the inverse domain has the original bounds. */
  lemma InverseDomainPullsBack(interval: IndexInterval, offset: int, divisor: int, inverse: IndexInterval)
    requires interval.Valid() && !interval.Empty() && divisor != 0
    requires inverse.Valid() && !inverse.Empty() && InverseEnds(interval, offset, divisor, inverse)
    ensures IsPreimage(inverse, offset, divisor, interval)
  {
    InverseDomainIsExact(interval, offset, divisor, inverse);
    forall x: int
      ensures inverse.Admits(offset + x * divisor) <==> interval.Admits(x)
    {
      FloorIsUnique(x, x * divisor, divisor);
    }
  }

  lemma InverseDomainSucceedsBack(interval: IndexInterval, offset: int, divisor: int, inverse: IndexInterval)
    requires interval.Valid() && !interval.Empty() && divisor != 0
    requires inverse.Valid() && !inverse.Empty() && InverseEnds(interval, offset, divisor, inverse)
    ensures DomainSucceeds(inverse, offset, divisor) <==> RoundTripFits(interval, offset, divisor)
  {
    if divisor > 0 {
      CeilIsUnique(interval.min as int, interval.min as int * divisor, divisor);
      FloorIsUnique(interval.Last(), interval.Last() * divisor + divisor - 1, divisor);
    } else {
      var d := -divisor;
      MulNegate(interval.min as int, divisor);
      MulNegate(interval.Last(), divisor);
      CeilIsUnique(interval.min as int, interval.min as int * d, d);
      FloorIsUnique(interval.Last(), interval.Last() * d + d - 1, d);
    }
  }

  /** Exactly when the preimage of the inverse domain can be computed: the bounds, scaled by the
      magnitude of the divisor, must be int64, and a negative divisor and the offset must not
      be `INT64_MIN`. */
  ghost predicate RoundTripFits(interval: IndexInterval, offset: int, divisor: int) {
    var d := if divisor > 0 then divisor else -divisor;
    interval != Infinite() ==>
      && (divisor < 0 ==> divisor != INT64_MIN as int && offset != INT64_MIN as int)
      && (interval.min != -INF_INDEX ==> Fits(interval.min as int * d))
      && (interval.Last() != INF_INDEX as int ==> Fits(interval.Last() * d + d - 1))
  }

  /** The preimage of the inverse domain is the original interval. */
  method InverseDomainThenDomain(interval: IndexInterval, offset: int64, divisor: int64)
    returns (inverse: Result<IndexInterval>, r: Result<IndexInterval>)
    requires interval.Valid() && !interval.Empty() && divisor != 0
    ensures inverse.Ok? <==> InverseDomainSucceeds(interval, offset as int, divisor as int)
    ensures inverse.Ok? ==> (r.Ok? <==> RoundTripFits(interval, offset as int, divisor as int))
    ensures inverse.Ok? && r.Ok? ==> r.value == interval
  {
    inverse := GetAffineTransformInverseDomain(interval, offset, divisor);
    if inverse.Err? {
      return inverse, Err;
    }
    InverseDomainPullsBack(interval, offset as int, divisor as int, inverse.value);
    InverseDomainSucceedsBack(interval, offset as int, divisor as int, inverse.value);
    r := GetAffineTransformDomain(inverse.value, offset, divisor);
    if r.Ok? {
      AdmitsDetermines(interval, r.value);
    }
  }

  /** The inverse domain is the largest interval that starts at the image of the first index and
      has the original interval as its preimage. */
  lemma InverseDomainIsLargest(interval: IndexInterval, offset: int, divisor: int,
                               inverse: IndexInterval, other: IndexInterval)
    requires interval.Valid() && !interval.Empty() && interval.Bounded() && divisor != 0
    requires inverse.Valid() && InverseEnds(interval, offset, divisor, inverse)
    requires other.Valid() && (if divisor > 0 then other.min == inverse.min else other.Last() == inverse.Last())
    requires IsPreimage(other, offset, divisor, interval)
    ensures forall y: int :: other.Admits(y) ==> inverse.Admits(y)
  {
    var next := interval.Last() + 1;
    assert !interval.Admits(next) && interval.Admits(interval.Last());
    assert !other.Admits(offset + next * divisor);
    assert other.Admits(offset + interval.Last() * divisor);
    MulSuccessor(interval.Last(), divisor);
  }

  /** The intervals that do not separate a negative ratio rounded down from the same ratio
      rounded toward zero. */
  ghost predicate IgnoresRounding(interval: IndexInterval, divisor: int) {
    || Abs(divisor) == 1
    || interval.min > 0
    || (interval.min == -INF_INDEX && interval.Last() >= 0)
  }

  /** The header describes the inverse domain with division that rounds toward zero. That
      description is right exactly for the intervals that ignore the difference. */
  lemma RoundingTowardZero(interval: IndexInterval, offset: int, divisor: int, inverse: IndexInterval)
    requires interval.Valid() && !interval.Empty() && divisor != 0
    requires InverseEnds(interval, offset, divisor, inverse)
    ensures (forall y: int :: inverse.Admits(y) <==> interval.Admits(TruncDiv(y - offset, divisor))) <==>
            IgnoresRounding(interval, divisor)
  {
    InverseDomainIsExact(interval, offset, divisor, inverse);
    if IgnoresRounding(interval, divisor) {
      forall y: int
        ensures inverse.Admits(y) <==> interval.Admits(TruncDiv(y - offset, divisor))
      {
        RoundingAgrees(interval, y - offset, divisor);
      }
    } else {
      var f := if interval.min != -INF_INDEX then interval.min as int - 1 else interval.Last();
      var y := RoundedApart(f, offset, divisor);
      assert inverse.Admits(y) <==> interval.Admits(f);
      assert interval.Admits(f) != interval.Admits(f + 1);
    }
  }

  lemma RoundingAgrees(interval: IndexInterval, n: int, divisor: int)
    requires interval.Valid() && !interval.Empty() && divisor != 0 && IgnoresRounding(interval, divisor)
    ensures interval.Admits(FloorDiv(n, divisor)) <==> interval.Admits(TruncDiv(n, divisor))
  {
    FloorAdjustment(n, divisor);
    TruncRounds(n, divisor);
  }

  /** A point whose ratio rounds down to `f` and toward zero to `f + 1`. */
  lemma RoundedApart(f: int, offset: int, divisor: int) returns (y: int)
    requires f < 0 && Abs(divisor) >= 2
    ensures FloorDiv(y - offset, divisor) == f && TruncDiv(y - offset, divisor) == f + 1
  {
    y := offset + f * divisor + Sign(divisor);
    var n := y - offset;
    MulMonotone(f, -1, divisor);
    MulSuccessor(f, divisor);
    FloorIsUnique(f, n, divisor);
    CeilIsUnique(f + 1, n, divisor);
    TruncRounds(n, divisor);
  }

  /** [0, 2] scaled by 3 has the inverse domain [0, 8], which division rounding toward zero does
      not describe: by `RoundingTowardZero`, the two differ, for instance at -1. */
  lemma RoundingTowardZeroExample()
    ensures !IgnoresRounding(IndexInterval(0, 3), 3)
    ensures InverseEnds(IndexInterval(0, 3), 0, 3, IndexInterval(0, 9))
  {
  }

  /** An inverse domain whose preimage is refused: the scaled bound leaves int64. */
  lemma RoundTripExample()
    ensures var offset, divisor := -0x8000_0000_0000_0000 + 1, 0x4000_0000_0000_0001;
            && InverseDomainSucceeds(IndexInterval(1, 1), offset, divisor)
            && !RoundTripFits(IndexInterval(1, 1), offset, divisor)
  {
  }
}
