/** What the search for chunk sizes chooses, in terms of the request alone: sizes in proportion to the aspect
    ratios, cut off at the target, the domain and the greatest size (tensorstore/chunk_layout.cc). */
module ChosenShapes {
  import opened Int64
  import opened IndexIntervals
  import opened NearestSizes
  import opened ChunkSizeSearch
  import opened SearchConvergence

  // ----- Shapes in proportion to the ratios -------------------------------------------------------

  /** The upper bound on a size: the least of the target, the greatest double below 2^62, and the size of
      a bounded domain, which counts as one if it is empty. */
  ghost predicate IsCap(cap: real, target: int64, bounds: IndexInterval)
    requires bounds.Valid()
  {
    var inDomain := if bounds.size >= 1 then bounds.size as real else 1.0;
    && cap <= target as real && cap <= 4611686018427387392.0 && (bounds.Bounded() ==> cap <= inDomain)
    && (cap == target as real || cap == 4611686018427387392.0 || (bounds.Bounded() && cap == inDomain))
  }

  /** The greatest size within both `x` and the cap, or one if there is none. */
  ghost predicate IsCutOff(size: int64, x: real, cap: real) {
    && size >= 1
    && (size == 1 || (size as real <= x && size as real <= cap))
    && (x < size as real + 1.0 || cap < size as real + 1.0)
  }

  ghost predicate IsProportional(size: int64, x: real, target: int64, bounds: IndexInterval)
    requires bounds.Valid()
  {
    exists cap :: IsCap(cap, target, bounds) && IsCutOff(size, x, cap)
  }

  /** The ratios that count: positive ones as given; others count as the greatest of those given for free
      dimensions, or as one if none of these is positive. */
  ghost predicate AreRatios(given: seq<real>, shape: seq<int64>, a: seq<real>) {
    && |a| == |given| == |shape|
    && forall i :: 0 <= i < |a| && shape[i] == 0 ==> a[i] > 0.0 && IsRatio(given, shape, given[i], a[i])
  }

  ghost predicate IsRatio(given: seq<real>, shape: seq<int64>, ratio: real, a: real)
    requires |given| == |shape|
  {
    if ratio > 0.0 then a == ratio
    else if exists j :: 0 <= j < |given| && shape[j] == 0 && given[j] > 0.0 then
      && (exists j :: 0 <= j < |given| && shape[j] == 0 && given[j] == a)
      && (forall j :: 0 <= j < |given| && shape[j] == 0 ==> given[j] <= a)
    else a == 1.0
  }

  ghost predicate AllValid(domain: seq<IndexInterval>) {
    forall i :: 0 <= i < |domain| ==> domain[i].Valid()
  }

  /** A size of dimension `i` in the proportion `t` to its ratio. */
  ghost predicate InProportionAt(a: seq<real>, t: real, target: int64, domain: seq<IndexInterval>, i: nat, size: int64)
    requires |a| == |domain| && AllValid(domain) && i < |a|
  {
    IsProportional(size, a[i] * t, target, domain[i])
  }

  /** Explicit sizes as they are, and free ones in the proportion `t` to the ratios. */
  ghost predicate InProportion(a: seq<real>, shape: seq<int64>, target: int64, domain: seq<IndexInterval>, t: real,
                               r: seq<int64>)
    requires |a| == |shape| == |domain| && AllValid(domain)
  {
    && |r| == |shape|
    && forall i: nat :: i < |r| ==> HasProportion(a, shape, target, domain, t, r, i)
  }

  ghost predicate HasProportion(a: seq<real>, shape: seq<int64>, target: int64, domain: seq<IndexInterval>, t: real,
                                r: seq<int64>, i: nat)
    requires |a| == |shape| == |domain| == |r| && AllValid(domain) && i < |r|
  {
    if shape[i] == 0 then InProportionAt(a, t, target, domain, i, r[i]) else r[i] == shape[i]
  }

  // ----- The search works on these shapes -----------------------------------------------------------

  lemma CapIsLimit(target: int64, bounds: IndexInterval, cap: real)
    requires bounds.Valid()
    ensures IsCap(cap, target, bounds) <==> cap == Limit(target, bounds)
  {
  }

  lemma CutOffIsClamp(size: int64, x: real, cap: real)
    requires cap <= MAX_SIZE
    ensures IsCutOff(size, x, cap) <==> size == Clamp(x, cap)
  {
  }

  lemma ProportionalIsClamped(size: int64, x: real, target: int64, bounds: IndexInterval)
    requires bounds.Valid()
    ensures IsProportional(size, x, target, bounds) <==> size == Clamp(x, Limit(target, bounds))
  {
    var limit := Limit(target, bounds);
    CapIsLimit(target, bounds, limit);
    CutOffIsClamp(size, x, limit);
    if cap :| IsCap(cap, target, bounds) && IsCutOff(size, x, cap) {
      CapIsLimit(target, bounds, cap);
    }
  }

  lemma {:induction false} GreatestIsGiven(given: seq<real>, shape: seq<int64>, n: nat)
    requires n <= |given| == |shape|
    ensures var g := GreatestRatio(given, shape, n);
            g > 0.0 ==> exists j :: 0 <= j < n && shape[j] == 0 && given[j] == g
  {
    if n > 0 {
      GreatestIsGiven(given, shape, n - 1);
    }
  }

  /** The scale that the normalization divides by. */
  ghost function Scale(greatest: real): (r: real)
    ensures r > 0.0
  {
    if greatest > 0.0 then greatest else 1.0
  }

  lemma DivideAndMultiply(x: real, y: real)
    requires y > 0.0
    ensures (x / y) * y == x
  {
  }

  ghost predicate IsProduct(x: real, y: real, product: real) {
    product == x * y
  }

  lemma NormalizedIsScaled(given: real, greatest: real, ratio: real, scale: real, a: real)
    requires ratio == Normalized(given, greatest) && scale == Scale(greatest) && (given > 0.0 ==> given <= greatest)
    requires a == if given > 0.0 then given else scale
    ensures IsProduct(ratio, scale, a)
  {
    if given > 0.0 {
      DivideAndMultiply(given, greatest);
    }
  }

  lemma CountedRatio(given: seq<real>, shape: seq<int64>, a: seq<real>, i: nat)
    requires AreRatios(given, shape, a) && i < |shape| && shape[i] == 0
    ensures var greatest := GreatestRatio(given, shape, |shape|);
            && (given[i] > 0.0 ==> given[i] <= greatest)
            && a[i] == if given[i] > 0.0 then given[i] else Scale(greatest)
  {
    GreatestIsGiven(given, shape, |shape|);
    assert IsRatio(given, shape, given[i], a[i]);
  }

  /** The proportion `t` to a ratio that counts is the factor `f` to the normalized one. */
  lemma Rescaled(ratio: real, scale: real, a: real, t: real, f: real, x: real)
    requires IsProduct(ratio, scale, a) && IsProduct(scale, t, f) && IsProduct(a, t, x)
    ensures IsProduct(ratio, f, x)
  {
    assert (ratio * scale) * t == ratio * (scale * t);
  }

  lemma NormalizedRatio(given: seq<real>, shape: seq<int64>, a: seq<real>, i: nat, greatest: real, scale: real)
    requires AreRatios(given, shape, a) && i < |shape| && shape[i] == 0
    requires greatest == GreatestRatio(given, shape, |shape|) && scale == Scale(greatest)
    ensures IsProduct(Normalized(given[i], greatest), scale, a[i])
  {
    CountedRatio(given, shape, a, i);
    NormalizedIsScaled(given[i], greatest, Normalized(given[i], greatest), scale, a[i]);
  }

  lemma ScaledProduct(s: Search, i: nat, f: real, x: real)
    requires s.Valid() && i < |s.shape| && IsProduct(s.ratio[i], f, x)
    ensures s.Scaled(i, f) == Clamp(x, s.limit[i])
  {
  }

  /** A size is in the proportion `t` exactly if it is the one that the search has for the factor `f`. */
  lemma SizeHasProportion(given: seq<real>, a: seq<real>, s: Search, target: int64, domain: seq<IndexInterval>,
                          scale: real, t: real, f: real, x: real, size: int64, i: nat)
    requires CanSearch(given, s.shape, domain, s.sizes) && AreRatios(given, s.shape, a)
    requires s == SearchFor(given, s.shape, target, domain, s.sizes)
    requires scale == Scale(GreatestRatio(given, s.shape, |s.shape|)) && IsProduct(scale, t, f)
    requires i < |s.shape| && s.shape[i] == 0 && IsProduct(a[i], t, x)
    ensures IsProportional(size, x, target, domain[i]) <==> size == s.Scaled(i, f)
  {
    NormalizedRatio(given, s.shape, a, i, GreatestRatio(given, s.shape, |s.shape|), scale);
    Rescaled(s.ratio[i], scale, a[i], t, f, x);
    ProportionalIsClamped(size, x, target, domain[i]);
    ScaledProduct(s, i, f, x);
  }

  // ----- What is chosen ------------------------------------------------------------------------------

  /** The shapes in proportion are those of the search. */
  lemma ProportionIsFactor(given: seq<real>, a: seq<real>, s: Search, target: int64, domain: seq<IndexInterval>,
                           scale: real, t: real, f: real, r: seq<int64>)
    requires CanSearch(given, s.shape, domain, Identity) && AreRatios(given, s.shape, a)
    requires s == SearchFor(given, s.shape, target, domain, Identity)
    requires scale == Scale(GreatestRatio(given, s.shape, |s.shape|)) && IsProduct(scale, t, f)
    ensures InProportion(a, s.shape, target, domain, t, r) <==> r == s.ShapeAt(f)
  {
    if |r| == |s.shape| {
      forall i: nat | i < |r|
        ensures HasProportion(a, s.shape, target, domain, t, r, i) <==> r[i] == s.SizeAt(i, f)
      {
        if s.shape[i] == 0 {
          SizeHasProportion(given, a, s, target, domain, scale, t, f, a[i] * t, r[i], i);
        }
      }
    }
  }

  /** The proportion of a factor; a factor that is not positive stands for one so small that all sizes
      are one. */
  lemma FactorHasProportion(s: Search, scale: real, f: real) returns (t: real, g: real)
    requires s.Valid() && s.SomeFree() && scale > 0.0
    ensures t > 0.0 && IsProduct(scale, t, g)
    ensures forall i: nat :: i < |s.shape| && s.Free(i) ==> s.Scaled(i, f) == s.Scaled(i, g)
  {
    g := if f > 0.0 then f else s.Increment();
    t := g / scale;
    DivideAndMultiply(g, scale);
    if f <= 0.0 {
      forall i: nat | i < |s.shape| && s.Free(i)
        ensures s.Scaled(i, f) == s.Scaled(i, g)
      {
        ScaledIsMonotone(s, f, g, i);
        ScaledToUnit(s, i);
      }
    }
  }

  /** The sizes that the search proposes, also those that are then mapped, are in one proportion to the
      ratios. */
  lemma ProposalsAreInProportion(given: seq<real>, a: seq<real>, s: Search, target: int64, domain: seq<IndexInterval>,
                                 f: real) returns (t: real)
    requires CanSearch(given, s.shape, domain, s.sizes) && SomeFreeSize(s.shape) && AreRatios(given, s.shape, a)
    requires s == SearchFor(given, s.shape, target, domain, s.sizes)
    ensures t > 0.0
    ensures forall i: nat :: i < |s.shape| && s.Free(i) ==>
              InProportionAt(a, t, target, domain, i, s.Scaled(i, f))
  {
    var scale := Scale(GreatestRatio(given, s.shape, |s.shape|));
    var g;
    t, g := FactorHasProportion(s, scale, f);
    forall i: nat | i < |s.shape| && s.Free(i)
      ensures InProportionAt(a, t, target, domain, i, s.Scaled(i, f))
    {
      SizeHasProportion(given, a, s, target, domain, scale, t, g, a[i] * t, s.Scaled(i, g), i);
    }
  }

  /** Without a size map, the chosen shape is in proportion to the ratios ... */
  lemma ChosenIsInProportion(given: seq<real>, a: seq<real>, shape: seq<int64>, target: int64,
                             domain: seq<IndexInterval>, midpoint: (real, real) -> real) returns (t: real)
    requires CanSearch(given, shape, domain, Identity) && SomeFreeSize(shape) && AreRatios(given, shape, a)
    ensures t > 0.0
    ensures InProportion(a, shape, target, domain, t, ChosenShape(given, shape, target, domain, Identity, midpoint))
  {
    var s := SearchFor(given, shape, target, domain, Identity);
    var f := ChosenFactor(s, target, midpoint);
    t := ProposalsAreInProportion(given, a, s, target, domain, f);
    var chosen := ChosenShape(given, shape, target, domain, Identity, midpoint);
    forall i: nat | i < |chosen|
      ensures HasProportion(a, shape, target, domain, t, chosen, i)
    {
      if shape[i] == 0 {
        assert s.Free(i) && chosen[i] == s.Scaled(i, f);
      }
    }
  }

  /** ... and no shape in any proportion to the ratios that fits the target is larger by more than one in
      any dimension, for all ratios that are doubles. If one fits, the chosen one fits. */
  lemma ChosenIsLargest(given: seq<real>, a: seq<real>, shape: seq<int64>, target: int64, domain: seq<IndexInterval>,
                        midpoint: (real, real) -> real, t: real, r: seq<int64>, i: nat)
    requires CanSearch(given, shape, domain, Identity) && SomeFreeSize(shape) && AreRatios(given, shape, a)
    requires FollowsRule(midpoint) && (forall j :: 0 <= j < |given| ==> InDoubleRange(given[j])) && target < INT64_MAX
    requires InProportion(a, shape, target, domain, t, r) && AllSizes(r) && Product(r) <= target as int && i < |shape|
    ensures var chosen := ChosenShape(given, shape, target, domain, Identity, midpoint);
            && |chosen| == |shape| && AllSizes(chosen)
            && Product(chosen) <= target as int && r[i] as int <= chosen[i] as int + 1
  {
    var s, scale := SearchFor(given, shape, target, domain, Identity), Scale(GreatestRatio(given, shape, |shape|));
    var f := scale * t;
    ProportionIsFactor(given, a, s, target, domain, scale, t, f, r);
    ChosenShapeIsNearlyOptimal(given, shape, target, domain, midpoint, f, i);
    BisectKeepsBracket(s, target, midpoint, s.Increment(), s.End(), MAX_ROUNDS);
    var bracket := FinalBracket(s, target, midpoint);
    ChosenFitsTarget(s, target, bracket.0, bracket.1);
    LeastShapeIsLeast(s, f);
  }

  // ----- What is chosen when sizes are mapped ----------------------------------------------------------

  /** No proportion can make the size greater. */
  ghost predicate IsGreatest(size: int64, target: int64, bounds: IndexInterval)
    requires bounds.Valid()
  {
    exists cap :: IsCap(cap, target, bounds) && cap < size as real + 1.0
  }

  lemma EndsAreNext(s: Search, low: real, high: real, i: nat)
    requires s.Valid() && s.SomeFree() && Close(s, low, high) && (low <= high || low == s.Increment())
    requires i < |s.shape| && s.Free(i)
    ensures s.Scaled(i, low) <= s.Scaled(i, high) && s.Scaled(i, high) as int <= s.Scaled(i, low) as int + 1
  {
    ScaledEndsDifferByOne(s, low, high, i);
    if low <= high {
      ScaledIsMonotone(s, low, high, i);
    } else {
      ScaledToUnit(s, i);
    }
  }

  /** The proposals at the high end of the final bracket: at most one greater than the chosen ones. */
  lemma NextProposals(s: Search, target: int64, midpoint: (real, real) -> real, i: nat)
    requires s.Valid() && s.SomeFree() && FollowsRule(midpoint) && RatiosSpan(s, Pow2(2098))
    requires i < |s.shape| && s.Free(i)
    ensures var high, f := FinalBracket(s, target, midpoint).1, ChosenFactor(s, target, midpoint);
            s.Scaled(i, f) <= s.Scaled(i, high) && s.Scaled(i, high) as int <= s.Scaled(i, f) as int + 1
  {
    SearchEndsClose(s, target, midpoint);
    BisectKeepsOrder(s, target, midpoint, s.Increment(), s.End(), MAX_ROUNDS);
    var bracket := FinalBracket(s, target, midpoint);
    EndsAreNext(s, bracket.0, bracket.1, i);
  }

  lemma EndIsCapped(s: Search, target: int64, bounds: IndexInterval, i: nat)
    requires s.Valid() && i < |s.shape| && s.Free(i) && bounds.Valid() && s.limit[i] == Limit(target, bounds)
    ensures IsGreatest(s.Scaled(i, s.End()), target, bounds)
  {
    var end := EndReachesLimit(s, i);
    ScaledIsClamped(s, end, s.ratio[i] * end, i);
    CapIsLimit(target, bounds, s.limit[i]);
  }

  /** With a map, the search takes proposals whose successors, by at most one greater, would reach the
      target once mapped, unless all are as great as they can be. */
  lemma NextProposalsReachTarget(given: seq<real>, a: seq<real>, s: Search, target: int64, domain: seq<IndexInterval>,
                                 midpoint: (real, real) -> real) returns (t: real, next: seq<int64>)
    requires CanSearch(given, s.shape, domain, s.sizes) && SomeFreeSize(s.shape) && AreRatios(given, s.shape, a)
    requires s == SearchFor(given, s.shape, target, domain, s.sizes)
    requires FollowsRule(midpoint) && (forall j :: 0 <= j < |given| ==> InDoubleRange(given[j])) && target < INT64_MAX
    ensures t > 0.0 && |next| == |s.shape| && AllSizes(next)
    ensures forall i: nat :: i < |s.shape| && s.Free(i) ==>
              && InProportionAt(a, t, target, domain, i, next[i])
              && IsNext(s.Scaled(i, ChosenFactor(s, target, midpoint)), next[i])
    ensures || Product(Mapped(s.shape, s.sizes, next)) >= target as int
            || forall i: nat :: i < |s.shape| && s.Free(i) ==> IsGreatest(next[i], target, domain[i])
  {
    var high := FinalBracket(s, target, midpoint).1;
    DoublesSpan(given, s.shape, target, domain, s.sizes);
    t := ProposalsAreInProportion(given, a, s, target, domain, high);
    next := seq(|s.shape|, i requires 0 <= i < |s.shape| => s.Scaled(i, high));
    forall i: nat | i < |s.shape| && s.Free(i)
      ensures IsNext(s.Scaled(i, ChosenFactor(s, target, midpoint)), next[i])
    {
      NextProposals(s, target, midpoint, i);
    }
    HighEndReachesTarget(s, target, domain, midpoint, high, next);
  }

  /** At least as great, by at most one. */
  ghost predicate IsNext(size: int64, next: int64) {
    size <= next && next as int <= size as int + 1
  }

  lemma HighEndReachesTarget(s: Search, target: int64, domain: seq<IndexInterval>, midpoint: (real, real) -> real,
                             high: real, next: seq<int64>)
    requires s.Valid() && s.SomeFree() && |domain| == |s.shape| == |next| && AllValid(domain) && AllSizes(next)
    requires forall i :: 0 <= i < |domain| ==> s.limit[i] == Limit(target, domain[i])
    requires high == FinalBracket(s, target, midpoint).1 && target < INT64_MAX
    requires forall i: nat :: i < |next| ==> next[i] == s.Scaled(i, high)
    ensures || Product(Mapped(s.shape, s.sizes, next)) >= target as int
            || forall i: nat :: i < |s.shape| && s.Free(i) ==> IsGreatest(next[i], target, domain[i])
  {
    BisectKeepsBracket(s, target, midpoint, s.Increment(), s.End(), MAX_ROUNDS);
    if high == s.End() {
      forall i: nat | i < |s.shape| && s.Free(i)
        ensures IsGreatest(next[i], target, domain[i])
      {
        EndIsCapped(s, target, domain[i], i);
      }
    } else {
      assert Mapped(s.shape, s.sizes, next) == s.ShapeAt(high);
    }
  }

  /** Explicit sizes as they are, and the proposals for the free ones mapped. */
  ghost function Mapped(shape: seq<int64>, sizes: SizeMap, proposals: seq<int64>): (r: seq<int64>)
    requires |proposals| == |shape| && sizes.Valid(|shape|) && AllSizes(proposals)
    requires forall i :: 0 <= i < |shape| ==> shape[i] == 0 || IsSize(shape[i])
    ensures |r| == |shape| && AllSizes(r)
    ensures forall i: nat :: i < |r| ==>
              r[i] == if shape[i] != 0 then shape[i] else sizes.Apply(|shape|, i, proposals[i])
  {
    seq(|shape|, i requires 0 <= i < |shape| =>
      if shape[i] != 0 then shape[i] else sizes.Apply(|shape|, i, proposals[i]))
  }
}
