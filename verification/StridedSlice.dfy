/** Strided slices of an index interval: `ExtractStridedSlice` and `ComputeStridedSliceMap` of
    tensorstore/index_interval.cc. */
module StridedSlices {
  import opened Int64
  import opened Results
  import opened IndexIntervals

  datatype IntervalForm = Sized | Closed | HalfOpen

  /** An interval whose bounds may each be implicit: not constraints on a slice. */
  datatype OptInterval = OptInterval(interval: IndexInterval, implicitLower: bool, implicitUpper: bool)

  // ----- What a slice request means -------------------------------------------------

  /** The first index of the slice. */
  ghost function StartOf(orig: IndexInterval, start: int64, stride: int): int {
    if start != IMPLICIT then start as int
    else if stride > 0 then orig.min as int
    else orig.Last()
  }

  /** The inclusive bound of the slice in the direction of the stride. */
  ghost function StopOf(orig: IndexInterval, form: IntervalForm, start: int64, stop: int64, stride: int): int {
    if stop == IMPLICIT then
      if stride > 0 then orig.Last() else orig.min as int
    else match form
      case Sized =>
        var first := StartOf(orig, start, stride);
        if stop == 0 then first - Sign(stride) else first + stride * (stop as int - 1)
      case Closed => stop as int
      case HalfOpen => if IsFinite(stop as int) then stop as int - Sign(stride) else stop as int
  }

  ghost predicate IsInfinite(bound: int) {
    bound == INF_INDEX as int || bound == -(INF_INDEX as int)
  }

  /** `p` is not past `stop` when moving in the direction of `stride`; an infinite stop is never
      passed. */
  ghost predicate NotPast(p: int, stop: int, stride: int) {
    IsInfinite(stop) || (if stride > 0 then p <= stop else p >= stop)
  }

  ghost function Low(first: int, last: int, stride: int): int {
    if stride > 0 then first else last
  }

  ghost function High(first: int, last: int, stride: int): int {
    if stride > 0 then last else first
  }

  /** The bounds of the slice that the explicit bounds of `orig` must contain. */
  ghost predicate WithinExplicitBounds(orig: OptInterval, low: int, high: int) {
    && (!orig.implicitLower ==> orig.interval.min as int <= low)
    && (!orig.implicitUpper ==> high <= orig.interval.Last())
  }

  ghost predicate StopSucceeds(orig: IndexInterval, form: IntervalForm, start: int64, stop: int64, stride: int) {
    form.Sized? && stop != IMPLICIT ==>
      && stop >= 0
      && (stop > 0 ==> Fits(stride * (stop as int - 1)) && Fits(StopOf(orig, form, start, stop, stride)))
  }

  /** The resolved bounds form a valid interval within the explicit bounds of `orig`, and a slice
      with a non-unit stride starts at a finite index. */
  ghost predicate BoundsSucceed(orig: OptInterval, first: int, last: int, stride: int) {
    var low, high := Low(first, last, stride), High(first, last, stride);
    && (Abs(stride) != 1 ==> IsFinite(first))
    && ValidClosed(low, high)
    && (low <= high ==> WithinExplicitBounds(orig, low, high))
  }

  /** Exactly the requests that are accepted. */
  ghost predicate SliceSucceeds(orig: OptInterval, form: IntervalForm, start: int64, stop: int64, stride: int) {
    && stride != 0 && stride != INT64_MIN as int
    && (start != IMPLICIT ==> IsValidIndex(start))
    && StopSucceeds(orig.interval, form, start, stop, stride)
    && BoundsSucceed(orig, StartOf(orig.interval, start, stride), StopOf(orig.interval, form, start, stop, stride),
                     stride)
  }

  /** The number of indices of a slice with finite bounds. */
  ghost function SliceCount(first: int, last: int, stride: int): int
    requires stride != 0
  {
    CeilDiv(High(first, last, stride) - Low(first, last, stride) + 1, Abs(stride))
  }

  /** The size of the new domain: unbounded above when the slice has no finite stop. */
  ghost function SliceSize(first: int, last: int, stride: int): int
    requires stride != 0
  {
    if IsInfinite(last) then INF_INDEX as int + 1 - TruncDiv(first, stride) else SliceCount(first, last, stride)
  }

  /** `x => offset + x * stride` maps `domain`, starting at the first index of the slice, onto
      the slice: see `SliceMapEnumerates`. */
  ghost predicate IsSliceMap(domain: IndexInterval, offset: int, first: int, last: int, stride: int) {
    && domain.Valid()
    && (domain.min == -INF_INDEX <==> IsInfinite(first))
    && offset + domain.min as int * stride == first
    && (IsInfinite(first) ==> offset == 0)
    && (forall x: int :: domain.Admits(x) <==>
          (domain.min == -INF_INDEX || domain.min as int <= x) && NotPast(offset + x * stride, last, stride))
  }

  // ----- What a request selects, in its own terms -----------------------------------

  /** The request with the first index `s` still includes the point `k` strides on. A size that leads to
      an infinite index is no bound. */
  ghost predicate IncludesStep(orig: IndexInterval, form: IntervalForm, s: int, stop: int64, stride: int, k: int) {
    var p := s + k * stride;
    if stop == IMPLICIT then
      if stride > 0 then orig.Last() == INF_INDEX as int || p <= orig.Last()
      else orig.min == -INF_INDEX || orig.min as int <= p
    else match form
      case Sized => k < stop as int || (stop > 0 && IsInfinite(s + stride * (stop as int - 1)))
      case Closed => IsInfinite(stop as int) || (if stride > 0 then p <= stop as int else p >= stop as int)
      case HalfOpen => IsInfinite(stop as int) || (if stride > 0 then p < stop as int else p > stop as int)
  }

  /** The points from the given start, or else from the first index of the domain in the direction of the
      stride, up to the end of the request; from an infinite start, all points up to the end. */
  ghost predicate Selects(orig: IndexInterval, form: IntervalForm, start: int64, stop: int64, stride: int, p: int) {
    var s := if start != IMPLICIT then start as int else if stride > 0 then orig.min as int else orig.Last();
    exists k: int :: (k >= 0 || IsInfinite(s)) && p == s + k * stride && IncludesStep(orig, form, s, stop, stride, k)
  }

  /** `p` is the image of an index of `domain` under `x => offset + x * stride`. */
  ghost predicate IsImage(domain: IndexInterval, offset: int, stride: int, p: int) {
    exists x: int :: domain.Admits(x) && p == offset + x * stride
  }

  /** The image of the map is exactly what the request selects. */
  ghost predicate MapsOntoRequest(orig: IndexInterval, form: IntervalForm, start: int64, stop: int64, stride: int,
                                  domain: IndexInterval, offset: int) {
    forall p: int :: Selects(orig, form, start, stop, stride, p) <==> IsImage(domain, offset, stride, p)
  }

  /** The offset with which `min` is mapped to `first`. */
  ghost function OffsetOf(first: int, min: int, stride: int): int {
    first - min * stride
  }

  /** The domain starts at the first index divided by the stride, and `first + (x - min) * stride` maps it
      onto what the request selects. */
  ghost predicate IsExtracted(orig: IndexInterval, form: IntervalForm, start: int64, stop: int64, stride: int,
                              domain: IndexInterval, first: int)
    requires stride != 0
  {
    var last, offset := StopOf(orig, form, start, stop, stride), OffsetOf(first, domain.min as int, stride);
    && first == StartOf(orig, start, stride)
    && domain.min as int == TruncDiv(first, stride)
    && domain.size as int == SliceSize(first, last, stride)
    && IsSliceMap(domain, offset, first, last, stride)
    && MapsOntoRequest(orig, form, start, stop, stride, domain, offset)
  }

  // ----- The operations -------------------------------------------------------------

  method InclusiveStop(orig: IndexInterval, form: IntervalForm, start: int64, first: int64, stop: int64, stride: int64)
    returns (r: Option<int64>)
    requires orig.Valid() && stride != 0 && stride != INT64_MIN
    requires first as int == StartOf(orig, start, stride as int) && IsValidIndex(first)
    ensures r.Some? <==> StopSucceeds(orig, form, start, stop, stride as int)
    ensures r.Some? ==> r.value as int == StopOf(orig, form, start, stop, stride as int)
  {
    if stop == IMPLICIT {
      return Some(if stride > 0 then orig.Max() else orig.min);
    }
    match form
    case Sized =>
      if stop < 0 {
        return None;
      }
      if stop == 0 {
        return Some(first + (if stride > 0 then -1 else 1));
      }
      var distance := MulOverflow(stride, stop - 1);
      if distance.None? {
        return None;
      }
      return AddOverflow(first, distance.value);
    case Closed =>
      return Some(stop);
    case HalfOpen =>
      return Some(if IsFinite(stop as int) then stop + (if stride > 0 then -1 else 1) else stop);
  }

  method ExtractStridedSlice(orig: OptInterval, form: IntervalForm, start: int64, stop: int64, stride: int64)
    returns (r: Result<(OptInterval, int64)>)
    requires orig.interval.Valid()
    ensures r.Ok? <==> SliceSucceeds(orig, form, start, stop, stride as int)
    ensures r.Ok? ==> IsExtracted(orig.interval, form, start, stop, stride as int, r.value.0.interval, r.value.1 as int)
    ensures r.Ok? ==>
              var low := start == IMPLICIT && orig.implicitLower;
              var high := stop == IMPLICIT && orig.implicitUpper;
              && r.value.0.implicitLower == (if stride > 0 then low else high)
              && r.value.0.implicitUpper == (if stride > 0 then high else low)
  {
    var extracted := ExtractDomain(orig, form, start, stop, stride);
    if extracted.Err? {
      return Err;
    }
    var (domain, first) := extracted.value;
    var implicitLower := start == IMPLICIT && orig.implicitLower;
    var implicitUpper := stop == IMPLICIT && orig.implicitUpper;
    if stride < 0 {
      implicitLower, implicitUpper := implicitUpper, implicitLower;
    }
    return Ok((OptInterval(domain, implicitLower, implicitUpper), first));
  }

  /** The domain and the first index of the slice. */
  method ExtractDomain(orig: OptInterval, form: IntervalForm, start: int64, stop: int64, stride: int64)
    returns (r: Result<(IndexInterval, int64)>)
    requires orig.interval.Valid()
    ensures r.Ok? <==> SliceSucceeds(orig, form, start, stop, stride as int)
    ensures r.Ok? ==> IsExtracted(orig.interval, form, start, stop, stride as int, r.value.0, r.value.1 as int)
  {
    var bounds := CheckedBounds(orig, form, start, stop, stride);
    if bounds.Err? {
      return Err;
    }
    var (first, last) := bounds.value;
    var domain := NewDomain(first, last, stride);
    SliceMapsOntoRequest(orig, form, start, stop, stride as int,
                         domain, OffsetOf(first as int, domain.min as int, stride as int));
    return Ok((domain, first));
  }

  /** Resolves implicit bounds, and makes all the checks on the request. */
  method CheckedBounds(orig: OptInterval, form: IntervalForm, start: int64, stop: int64, stride: int64)
    returns (r: Result<(int64, int64)>)
    requires orig.interval.Valid()
    ensures r.Ok? <==> SliceSucceeds(orig, form, start, stop, stride as int)
    ensures r.Ok? ==>
              && r.value.0 as int == StartOf(orig.interval, start, stride as int)
              && r.value.1 as int == StopOf(orig.interval, form, start, stop, stride as int)
  {
    if stride == 0 || stride == INT64_MIN {
      return Err;
    }
    var first := start;
    if start == IMPLICIT {
      first := if stride > 0 then orig.interval.min else orig.interval.Max();
    } else if !IsValidIndex(start) {
      return Err;
    }
    var inclusiveStop := InclusiveStop(orig.interval, form, start, first, stop, stride);
    if inclusiveStop.None? {
      return Err;
    }
    var last := inclusiveStop.value;
    var ok := BoundsAreValid(orig, first, last, stride);
    return if ok then Ok((first, last)) else Err;
  }

  method BoundsAreValid(orig: OptInterval, first: int64, last: int64, stride: int64) returns (ok: bool)
    requires orig.interval.Valid() && IsValidIndex(first) && stride != 0
    ensures ok <==> BoundsSucceed(orig, first as int, last as int, stride as int)
  {
    if stride != 1 && stride != -1 && !IsFinite(first as int) {
      return false;
    }
    var low, high := first, last;
    if stride < 0 {
      low, high := last, first;
    }
    if !ValidClosed(low as int, high as int) {
      return false;
    }
    var constraintMin := if orig.implicitLower then -INF_INDEX else orig.interval.min;
    var constraintMax := if orig.implicitUpper then INF_INDEX else orig.interval.Max();
    return high - low + 1 == 0 || (constraintMin <= low && high <= constraintMax);
  }

  /** The domain of a slice whose bounds have been checked. */
  method NewDomain(first: int64, last: int64, stride: int64) returns (domain: IndexInterval)
    requires stride != 0 && stride != INT64_MIN && (stride != 1 && stride != -1 ==> IsFinite(first as int))
    requires ValidClosed(Low(first as int, last as int, stride as int), High(first as int, last as int, stride as int))
    ensures domain.min as int == TruncDiv(first as int, stride as int)
    ensures domain.size as int == SliceSize(first as int, last as int, stride as int)
    ensures IsSliceMap(domain, OffsetOf(first as int, domain.min as int, stride as int), first as int, last as int,
                       stride as int)
  {
    SliceDomainIsValid(first as int, last as int, stride as int);
    var newStart := TruncDiv(first as int, stride as int) as int64;
    var newSize;
    if last == INF_INDEX || last == -INF_INDEX {
      newSize := INF_INDEX + 1 - newStart;
    } else {
      var low, high := if stride > 0 then first else last, if stride > 0 then last else first;
      newSize := CeilOfRatio(high - low + 1, if stride > 0 then stride else -stride);
    }
    domain := IndexInterval(newStart, newSize);
    SliceIsExact(first as int, last as int, stride as int, domain);
  }

  lemma SliceIsExact(first: int, last: int, stride: int, domain: IndexInterval)
    requires stride != 0 && (Abs(stride) != 1 ==> IsFinite(first))
    requires ValidClosed(Low(first, last, stride), High(first, last, stride))
    requires domain.min as int == TruncDiv(first, stride)
    requires domain.size as int == SliceSize(first, last, stride)
    ensures IsSliceMap(domain, OffsetOf(first, domain.min as int, stride), first, last, stride)
  {
    var m, size := TruncDiv(first, stride), SliceSize(first, last, stride);
    SliceDomainIsValid(first, last, stride);
    forall x: int
      ensures domain.Admits(x) <==>
              (domain.min == -INF_INDEX || m <= x) && NotPast(first - m * stride + x * stride, last, stride)
    {
      if !IsInfinite(last) {
        CountIsExact(first, last, stride, x - m);
        MulDifference(x, m, stride);
      }
    }
    if IsInfinite(first) {
      TruncRounds(first, stride);
    }
  }

  lemma MulDifference(a: int, b: int, d: int)
    ensures (a - b) * d == a * d - b * d
  {
  }

  /** The index `k` steps from the first is within the slice exactly when `k` is below the count. */
  lemma CountIsExact(first: int, last: int, stride: int, k: int)
    requires stride != 0
    ensures k < SliceCount(first, last, stride) <==>
            (if stride > 0 then first + k * stride <= last else first + k * stride >= last)
  {
    CeilIsLeast(k, High(first, last, stride) - Low(first, last, stride) + 1, Abs(stride));
    MulNegate(k, stride);
  }

  /** The new domain is a valid interval, and its bounds are infinite exactly when those of the
      slice are. */
  lemma SliceDomainIsValid(first: int, last: int, stride: int)
    requires stride != 0 && (Abs(stride) != 1 ==> IsFinite(first))
    requires ValidClosed(Low(first, last, stride), High(first, last, stride))
    ensures var m, size := TruncDiv(first, stride), SliceSize(first, last, stride);
            && ValidSized(m, size)
            && (m == -(INF_INDEX as int) <==> IsInfinite(first))
            && (m + size - 1 == INF_INDEX as int <==> IsInfinite(last))
  {
    if Abs(stride) == 1 {
      UnitSlice(first, last, stride);
    } else {
      TruncHalves(first, stride);
      CeilHalves(High(first, last, stride) - Low(first, last, stride) + 1, Abs(stride));
    }
  }

  lemma UnitSlice(first: int, last: int, stride: int)
    requires stride == 1 || stride == -1
    ensures TruncDiv(first, stride) == (if stride > 0 then first else -first)
    ensures SliceCount(first, last, stride) == High(first, last, stride) - Low(first, last, stride) + 1
  {
    var n := High(first, last, stride) - Low(first, last, stride) + 1;
    CeilIsUnique(n, n, 1);
    TruncRounds(first, stride);
  }

  lemma TruncHalves(n: int, d: int)
    requires Abs(d) >= 2
    ensures 2 * Abs(TruncDiv(n, d)) <= Abs(n)
    ensures if (n >= 0) == (d > 0) then TruncDiv(n, d) >= 0 else TruncDiv(n, d) <= 0
  {
    TruncRounds(n, d);
  }

  lemma CeilHalves(n: int, d: int)
    requires n >= 0 && d >= 2
    ensures 0 <= CeilDiv(n, d) && 2 * CeilDiv(n, d) <= n + 1
  {
    var c := CeilDiv(n, d);
    CeilBounds(n, d);
    CeilIsLeast(-1, n, d);
    if c >= 1 {
      MulSuccessor(c - 1, d);
      MulMonotone(2, d, c - 1);
    }
  }

  // ----- Translation and the full slice map ------------------------------------------

  /** Moves both bounds; infinite bounds stay, and finite bounds must stay finite. */
  method ShiftInterval(interval: IndexInterval, minOffset: int64, maxOffset: int64) returns (r: Result<IndexInterval>)
    requires interval.Valid()
    ensures r.Ok? <==>
              && (interval.min != -INF_INDEX ==> IsFinite(interval.min as int + minOffset as int))
              && (interval.Last() != INF_INDEX as int ==> IsFinite(interval.Last() + maxOffset as int))
    ensures r.Ok? ==>
              && r.value.min as int == (if interval.min == -INF_INDEX then -(INF_INDEX as int)
                                        else interval.min as int + minOffset as int)
              && r.value.Last() == (if interval.Last() == INF_INDEX as int then INF_INDEX as int
                                    else interval.Last() + maxOffset as int)
    ensures r.Ok? ==> (r.value.Valid() <==> r.value.min as int <= r.value.Last() + 1)
  {
    var newMin, newMax := -INF_INDEX, INF_INDEX;
    if interval.min != -INF_INDEX {
      var sum := AddOverflow(interval.min, minOffset);
      if sum.None? || !IsFinite(sum.value as int) {
        return Err;
      }
      newMin := sum.value;
    }
    if interval.Max() != INF_INDEX {
      var sum := AddOverflow(interval.Max(), maxOffset);
      if sum.None? || !IsFinite(sum.value as int) {
        return Err;
      }
      newMax := sum.value;
    }
    return Ok(IndexInterval(newMin, newMax - newMin + 1));
  }

  ghost predicate ShiftToSucceeds(min: int, last: int, origin: int) {
    && IsFinite(origin)
    && min != -(INF_INDEX as int)
    && (last != INF_INDEX as int ==> IsFinite(last + origin - min))
  }

  method ShiftIntervalTo(interval: IndexInterval, origin: int64) returns (r: Result<IndexInterval>)
    requires interval.Valid()
    ensures r.Ok? <==> ShiftToSucceeds(interval.min as int, interval.Last(), origin as int)
    ensures r.Ok? ==>
              && r.value.Valid() && r.value.min == origin
              && (forall x: int :: r.value.Admits(x) <==> interval.Admits(x - origin as int + interval.min as int))
  {
    if !IsFinite(origin as int) || interval.min == -INF_INDEX {
      return Err;
    }
    var offset := origin - interval.min;
    r := ShiftInterval(interval, offset, offset);
  }

  /** The checks that only a translated slice can fail. */
  ghost predicate TranslationSucceeds(min: int, last: int, first: int, stride: int, translateTo: int64) {
    translateTo != IMPLICIT ==>
      && ShiftToSucceeds(min, last, translateTo as int)
      && Fits(translateTo as int * stride)
      && Fits(first - translateTo as int * stride)
  }

  /** The new domain and the offset with which `x => offset + x * stride` maps it onto the slice. */
  method ComputeStridedSliceMap(orig: OptInterval, form: IntervalForm, translateTo: int64,
                                start: int64, stop: int64, stride: int64)
    returns (r: Result<(OptInterval, int64)>)
    requires orig.interval.Valid()
    ensures r.Ok? ==> SliceSucceeds(orig, form, start, stop, stride as int)
    ensures SliceSucceeds(orig, form, start, stop, stride as int) ==>
              var first := StartOf(orig.interval, start, stride as int);
              var last := StopOf(orig.interval, form, start, stop, stride as int);
              var min := TruncDiv(first, stride as int);
              var max := min + SliceSize(first, last, stride as int) - 1;
              r.Ok? <==> TranslationSucceeds(min, max, first, stride as int, translateTo)
    ensures r.Ok? ==>
              var first := StartOf(orig.interval, start, stride as int);
              var last := StopOf(orig.interval, form, start, stop, stride as int);
              && IsSliceMap(r.value.0.interval, r.value.1 as int, first, last, stride as int)
              && r.value.0.interval.min as int ==
                 (if translateTo == IMPLICIT then TruncDiv(first, stride as int) else translateTo as int)
    ensures r.Ok? ==> MapsOntoRequest(orig.interval, form, start, stop, stride as int,
                                      r.value.0.interval, r.value.1 as int)
    ensures r.Ok? ==>
              var low := start == IMPLICIT && orig.implicitLower;
              var high := stop == IMPLICIT && orig.implicitUpper;
              && r.value.0.implicitLower == (if stride > 0 then low else high)
              && r.value.0.implicitUpper == (if stride > 0 then high else low)
  {
    var extracted := ExtractStridedSlice(orig, form, start, stop, stride);
    if extracted.Err? {
      return Err;
    }
    var (newInterval, first) := extracted.value;
    ghost var last := StopOf(orig.interval, form, start, stop, stride as int);
    var translated := TranslateSlice(newInterval.interval, first, last, stride, translateTo);
    if translated.Err? {
      return Err;
    }
    SliceMapsOntoRequest(orig, form, start, stop, stride as int, translated.value.0, translated.value.1 as int);
    return Ok((newInterval.(interval := translated.value.0), translated.value.1));
  }

  function OutputOffset(first: int64, min: int64, stride: int64): (r: Option<int64>)
    ensures r.Some? <==> Fits(min as int * stride as int) && Fits(first as int - min as int * stride as int)
    ensures r.Some? ==> r.value as int + min as int * stride as int == first as int
  {
    var scaledMin := MulOverflow(min, stride);
    if scaledMin.None? then None else SubOverflow(first, scaledMin.value)
  }

  /** Moves the new domain to the requested origin, and computes the offset of the map. */
  method TranslateSlice(domain: IndexInterval, first: int64, ghost last: int, stride: int64, translateTo: int64)
    returns (r: Result<(IndexInterval, int64)>)
    requires stride != 0 && domain.min as int == TruncDiv(first as int, stride as int)
    requires IsSliceMap(domain, OffsetOf(first as int, domain.min as int, stride as int), first as int, last,
                        stride as int)
    ensures r.Ok? <==> TranslationSucceeds(domain.min as int, domain.Last(), first as int, stride as int, translateTo)
    ensures r.Ok? ==>
              && r.value.0.min == (if translateTo == IMPLICIT then domain.min else translateTo)
              && IsSliceMap(r.value.0, r.value.1 as int, first as int, last, stride as int)
  {
    var newDomain := domain;
    if translateTo == IMPLICIT {
      TruncRounds(first as int, stride as int);
    } else {
      var shifted := ShiftIntervalTo(domain, translateTo);
      if shifted.Err? {
        return Err;
      }
      TranslationKeepsMap(domain, shifted.value, first as int, last, stride as int);
      newDomain := shifted.value;
    }
    var outputOffset := OutputOffset(first, newDomain.min, stride);
    return if outputOffset.None? then Err else Ok((newDomain, outputOffset.value));
  }

  lemma TranslationKeepsMap(domain: IndexInterval, shifted: IndexInterval, first: int, last: int, stride: int)
    requires IsSliceMap(domain, OffsetOf(first, domain.min as int, stride), first, last, stride)
    requires domain.min != -INF_INDEX && shifted.Valid() && shifted.min != -INF_INDEX
    requires forall x: int :: shifted.Admits(x) <==> domain.Admits(x - shifted.min as int + domain.min as int)
    ensures IsSliceMap(shifted, OffsetOf(first, shifted.min as int, stride), first, last, stride)
  {
    var t := shifted.min as int - domain.min as int;
    forall x: int
      ensures shifted.Admits(x) <==>
              shifted.min as int <= x && NotPast(first - shifted.min as int * stride + x * stride, last, stride)
    {
      MulDifference(x, t, stride);
      MulDifference(shifted.min as int, domain.min as int, stride);
      assert shifted.Admits(x) <==> domain.Admits(x - t);
    }
  }

  // ----- What a slice map does ---------------------------------------------------------

  /** The indices `first`, `first + stride`, `first + 2 * stride`, ... up to the stop. */
  ghost predicate InSlice(p: int, first: int, last: int, stride: int) {
    exists k: nat :: p == first + k * stride && NotPast(p, last, stride)
  }

  /** A slice map with a finite first index enumerates exactly the slice ... */
  lemma SliceMapEnumerates(domain: IndexInterval, offset: int, first: int, last: int, stride: int, p: int)
    requires stride != 0 && !IsInfinite(first) && IsSliceMap(domain, offset, first, last, stride)
    ensures InSlice(p, first, last, stride) <==> exists x: int :: domain.Admits(x) && p == offset + x * stride
  {
    var m := domain.min as int;
    if InSlice(p, first, last, stride) {
      var k: nat :| p == first + k * stride && NotPast(p, last, stride);
      assert (k + m) * stride == k * stride + m * stride;
      assert domain.Admits(k + m) && p == offset + (k + m) * stride;
    }
    if x: int :| domain.Admits(x) && p == offset + x * stride {
      MulDifference(x, m, stride);
      assert x - m >= 0 && p == first + (x - m) * stride;
    }
  }

  /** ... in order and without repetition: the k-th index of the domain is mapped to the k-th point. */
  lemma SliceMapIsInOrder(domain: IndexInterval, offset: int, first: int, last: int, stride: int, x: int, k: nat)
    requires stride != 0 && !IsInfinite(first) && IsSliceMap(domain, offset, first, last, stride)
    requires domain.Admits(x)
    ensures offset + x * stride == first + k * stride <==> x == domain.min as int + k
    ensures offset + x * stride == first + (x - domain.min as int) * stride && x >= domain.min as int
  {
    var m := domain.min as int;
    MulDifference(x, m, stride);
    if first + k * stride == first + (x - m) * stride && k != x - m {
      FloorIsUnique(k, k * stride, stride);
      FloorIsUnique(x - m, (x - m) * stride, stride);
    }
  }

  /** A slice that starts at an infinite bound keeps every index up to the stop. */
  lemma UnboundedSliceIsIdentity(domain: IndexInterval, offset: int, first: int, last: int, stride: int, p: int)
    requires (stride == 1 || stride == -1) && IsInfinite(first) && IsSliceMap(domain, offset, first, last, stride)
    ensures NotPast(p, last, stride) <==> exists x: int :: domain.Admits(x) && p == offset + x * stride
  {
    if NotPast(p, last, stride) {
      var x := if stride > 0 then p else -p;
      assert domain.Admits(x) && p == offset + x * stride;
    }
  }

  /** The resolved stop is the end of the request. */
  lemma StopIsEnd(orig: OptInterval, form: IntervalForm, start: int64, stop: int64, stride: int, k: int)
    requires orig.interval.Valid() && SliceSucceeds(orig, form, start, stop, stride)
    ensures var first := StartOf(orig.interval, start, stride);
            IncludesStep(orig.interval, form, first, stop, stride, k) <==>
            NotPast(first + k * stride, StopOf(orig.interval, form, start, stop, stride), stride)
  {
    if form.Sized? && stop != IMPLICIT {
      SizeIsEnd(StartOf(orig.interval, start, stride), stop as int, stride, k);
    }
  }

  lemma SizeIsEnd(first: int, size: int, stride: int, k: int)
    requires stride != 0
    ensures k < size <==>
            if stride > 0 then first + k * stride <= first + stride * (size - 1)
            else first + k * stride >= first + stride * (size - 1)
    ensures k < 0 <==> if stride > 0 then first + k * stride <= first - 1 else first + k * stride >= first + 1
  {
    if k < size {
      MulMonotone(k, size - 1, stride);
    } else {
      MulMonotone(size, k, stride);
      MulSuccessor(size - 1, stride);
    }
    if k < 0 {
      MulMonotone(k, -1, stride);
    } else {
      MulMonotone(0, k, stride);
    }
  }

  lemma SliceIsSelected(orig: OptInterval, form: IntervalForm, start: int64, stop: int64, stride: int,
                        domain: IndexInterval, offset: int, p: int)
    requires orig.interval.Valid() && SliceSucceeds(orig, form, start, stop, stride)
    requires !IsInfinite(StartOf(orig.interval, start, stride))
    requires IsSliceMap(domain, offset, StartOf(orig.interval, start, stride),
                        StopOf(orig.interval, form, start, stop, stride), stride)
    ensures Selects(orig.interval, form, start, stop, stride, p) <==> IsImage(domain, offset, stride, p)
  {
    var first, last := StartOf(orig.interval, start, stride), StopOf(orig.interval, form, start, stop, stride);
    SliceMapEnumerates(domain, offset, first, last, stride, p);
    if Selects(orig.interval, form, start, stop, stride, p) {
      var k: nat :| p == first + k * stride && IncludesStep(orig.interval, form, first, stop, stride, k);
      StopIsEnd(orig, form, start, stop, stride, k);
      assert InSlice(p, first, last, stride);
    }
    if InSlice(p, first, last, stride) {
      var k: nat :| p == first + k * stride && NotPast(p, last, stride);
      StopIsEnd(orig, form, start, stop, stride, k);
    }
  }

  lemma UnboundedSliceIsSelected(orig: OptInterval, form: IntervalForm, start: int64, stop: int64, stride: int,
                                 domain: IndexInterval, offset: int, p: int)
    requires orig.interval.Valid() && SliceSucceeds(orig, form, start, stop, stride)
    requires IsInfinite(StartOf(orig.interval, start, stride))
    requires IsSliceMap(domain, offset, StartOf(orig.interval, start, stride),
                        StopOf(orig.interval, form, start, stop, stride), stride)
    ensures Selects(orig.interval, form, start, stop, stride, p) <==> IsImage(domain, offset, stride, p)
  {
    var first, last := StartOf(orig.interval, start, stride), StopOf(orig.interval, form, start, stop, stride);
    UnboundedSliceIsIdentity(domain, offset, first, last, stride, p);
    var k := (p - first) * stride;
    assert p == first + k * stride && forall j: int :: p == first + j * stride ==> j == k;
    StopIsEnd(orig, form, start, stop, stride, k);
  }

  /** The map of an accepted request has exactly the requested points as its image. */
  lemma SliceMapsOntoRequest(orig: OptInterval, form: IntervalForm, start: int64, stop: int64, stride: int,
                             domain: IndexInterval, offset: int)
    requires orig.interval.Valid() && SliceSucceeds(orig, form, start, stop, stride)
    requires IsSliceMap(domain, offset, StartOf(orig.interval, start, stride),
                        StopOf(orig.interval, form, start, stop, stride), stride)
    ensures MapsOntoRequest(orig.interval, form, start, stop, stride, domain, offset)
  {
    forall p: int
      ensures Selects(orig.interval, form, start, stop, stride, p) <==> IsImage(domain, offset, stride, p)
    {
      if IsInfinite(StartOf(orig.interval, start, stride)) {
        UnboundedSliceIsSelected(orig, form, start, stop, stride, domain, offset, p);
      } else {
        SliceIsSelected(orig, form, start, stop, stride, domain, offset, p);
      }
    }
  }

  /** From `s` to `e` inclusive, possibly nothing, and then within the explicit bounds. */
  ghost predicate CanSpan(orig: OptInterval, s: int, e: int, stride: int) {
    && -(INF_INDEX as int) <= s <= INF_INDEX as int && -(INF_INDEX as int) <= e <= INF_INDEX as int
    && (if stride > 0 then s != INF_INDEX as int && e != -(INF_INDEX as int) && s <= e + 1
        else s != -(INF_INDEX as int) && e != INF_INDEX as int && e - 1 <= s)
    && (stride > 0 && s <= e ==>
          && (!orig.implicitLower ==> orig.interval.min as int <= s)
          && (!orig.implicitUpper ==> e <= orig.interval.Last()))
    && (stride < 0 && e <= s ==>
          && (!orig.implicitLower ==> orig.interval.min as int <= e)
          && (!orig.implicitUpper ==> s <= orig.interval.Last()))
  }

  /** The same with `e` itself excluded. */
  ghost predicate CanSpanBefore(orig: OptInterval, s: int, e: int, stride: int) {
    && (if stride > 0 then s <= e && e != MIN_FINITE as int else e <= s && e != MAX_FINITE as int)
    && (s < e ==>
          && (!orig.implicitLower ==> orig.interval.min as int <= s)
          && (!orig.implicitUpper ==> e <= orig.interval.Last() + 1))
    && (e < s ==>
          && (!orig.implicitLower ==> orig.interval.min as int - 1 <= e)
          && (!orig.implicitUpper ==> s <= orig.interval.Last()))
  }

  /** Which ends are accepted for a slice that starts at `s`. */
  ghost predicate CanEnd(orig: OptInterval, form: IntervalForm, s: int, stop: int64, stride: int) {
    if stop == IMPLICIT then
      if stride > 0 then CanSpan(orig, s, orig.interval.Last(), stride)
      else CanSpan(orig, s, orig.interval.min as int, stride)
    else match form
      case Sized =>
        if stop == 0 then IsFinite(s) && s != (if stride > 0 then MIN_FINITE else MAX_FINITE) as int
        else stop > 0 && Fits(stride * (stop as int - 1)) && CanSpan(orig, s, s + stride * (stop as int - 1), stride)
      case Closed => CanSpan(orig, s, stop as int, stride)
      case HalfOpen =>
        if IsFinite(stop as int) then CanSpanBefore(orig, s, stop as int, stride)
        else CanSpan(orig, s, stop as int, stride)
  }

  /** Exactly the requests that are accepted, in their own terms. */
  lemma AcceptedExactly(orig: OptInterval, form: IntervalForm, start: int64, stop: int64, stride: int)
    requires orig.interval.Valid()
    ensures var s := if start != IMPLICIT then start as int
                     else if stride > 0 then orig.interval.min as int else orig.interval.Last();
            SliceSucceeds(orig, form, start, stop, stride) <==>
            && stride != 0 && stride != INT64_MIN as int && (start == IMPLICIT || IsValidIndex(start))
            && (IsFinite(s) || stride == 1 || stride == -1)
            && CanEnd(orig, form, s, stop, stride)
  {
    var first := StartOf(orig.interval, start, stride);
    if stride != 0 && -(INF_INDEX as int) <= first <= INF_INDEX as int {
      if stop == IMPLICIT || form.Closed? || (form.HalfOpen? && !IsFinite(stop as int)) {
        SpanIsAccepted(orig, first, StopOf(orig.interval, form, start, stop, stride), stride);
      } else if form.HalfOpen? {
        SpanBeforeIsAccepted(orig, first, stop as int, stride);
      } else if stop >= 0 {
        SizeIsAccepted(orig, first, stop as int, stride);
      }
    }
  }

  lemma SpanIsAccepted(orig: OptInterval, s: int, e: int, stride: int)
    requires stride != 0 && -(INF_INDEX as int) <= s <= INF_INDEX as int
    ensures BoundsSucceed(orig, s, e, stride) <==>
            (IsFinite(s) || stride == 1 || stride == -1) && CanSpan(orig, s, e, stride)
  {
  }

  lemma SpanBeforeIsAccepted(orig: OptInterval, s: int, e: int, stride: int)
    requires stride != 0 && -(INF_INDEX as int) <= s <= INF_INDEX as int && IsFinite(e)
    ensures BoundsSucceed(orig, s, e - Sign(stride), stride) <==>
            (IsFinite(s) || stride == 1 || stride == -1) && CanSpanBefore(orig, s, e, stride)
  {
  }

  lemma SizeIsAccepted(orig: OptInterval, s: int, size: nat, stride: int)
    requires stride != 0 && -(INF_INDEX as int) <= s <= INF_INDEX as int
    ensures size == 0 ==> (BoundsSucceed(orig, s, s - Sign(stride), stride) <==>
                           IsFinite(s) && s != (if stride > 0 then MIN_FINITE else MAX_FINITE) as int)
    ensures var e := s + stride * (size - 1);
            size > 0 ==> (Fits(e) && BoundsSucceed(orig, s, e, stride) <==>
                          (IsFinite(s) || stride == 1 || stride == -1) && CanSpan(orig, s, e, stride))
  {
    SpanIsAccepted(orig, s, s + stride * (size - 1), stride);
  }

  /** Every point of an accepted nonempty slice respects the explicit bounds of `orig`. */
  lemma SliceStaysInDomain(orig: OptInterval, form: IntervalForm, start: int64, stop: int64, stride: int, k: nat)
    requires orig.interval.Valid() && SliceSucceeds(orig, form, start, stop, stride)
    requires var first := StartOf(orig.interval, start, stride);
             NotPast(first + k * stride, StopOf(orig.interval, form, start, stop, stride), stride)
    ensures var p := StartOf(orig.interval, start, stride) + k * stride;
            && (!orig.implicitLower && orig.interval.min != -INF_INDEX ==> orig.interval.min as int <= p)
            && (!orig.implicitUpper && orig.interval.Last() != INF_INDEX as int ==> p <= orig.interval.Last())
  {
    MulMonotone(0, k, stride);
  }

  /** An accepted request for a positive size yields a bounded slice of that size exactly when neither
      its start nor its stop, computed from the size, is a value that stands for an infinite bound. */
  lemma SizedSliceHasSize(orig: OptInterval, start: int64, size: int64, stride: int)
    requires orig.interval.Valid() && SliceSucceeds(orig, Sized, start, size, stride) && size > 0
    ensures var first, last := StartOf(orig.interval, start, stride), StopOf(orig.interval, Sized, start, size, stride);
            var newMin, newSize := TruncDiv(first, stride), SliceSize(first, last, stride);
            (newSize == size as int && newMin != -(INF_INDEX as int) && newMin + newSize - 1 != INF_INDEX as int)
            <==> !IsInfinite(first) && !IsInfinite(last)
  {
    var first, last := StartOf(orig.interval, start, stride), StopOf(orig.interval, Sized, start, size, stride);
    SliceDomainIsValid(first, last, stride);
    if !IsInfinite(first) && !IsInfinite(last) {
      FiniteSliceHasSize(first, size as int, stride);
    }
  }

  lemma FiniteSliceHasSize(first: int, size: int, stride: int)
    requires stride != 0 && size > 0 && !IsInfinite(first + stride * (size - 1))
    ensures SliceSize(first, first + stride * (size - 1), stride) == size
  {
    var last, d := first + stride * (size - 1), Abs(stride);
    MulMonotone(0, size - 1, stride);
    assert d * (size - 1) == if stride > 0 then last - first else first - last;
    CeilIsUnique(size, d * (size - 1) + 1, d);
  }

  /** Five indices from an unbounded start: the request is accepted and yields a slice without a lower
      bound. */
  lemma UnboundedStartExample()
    ensures SliceSucceeds(OptInterval(Infinite(), false, false), Sized, IMPLICIT, 5, 1)
    ensures IsInfinite(StartOf(Infinite(), IMPLICIT, 1)) && !IsInfinite(StopOf(Infinite(), Sized, IMPLICIT, 5, 1))
  {
  }

  /** Two indices from the last finite one: the request is accepted and yields an unbounded slice. */
  lemma SizedSliceExample()
    ensures SliceSucceeds(OptInterval(Infinite(), false, false), Sized, MAX_FINITE, 2, 1)
    ensures IsInfinite(StopOf(Infinite(), Sized, MAX_FINITE, 2, 1))
  {
  }
}
