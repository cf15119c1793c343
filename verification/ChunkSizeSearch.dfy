/** Choosing the unconstrained sizes of a chunk from aspect ratios and a target number of elements
    (tensorstore/chunk_layout.cc). Floating-point numbers are modelled as real numbers. */
module ChunkSizeSearch {
  import opened Int64
  import opened IndexIntervals
  import opened NearestSizes
  import opened Results

  /** The greatest size, and the greatest double below 2^62. */
  const MAX_SIZE: real := 4611686018427387392.0

  function MinReal(x: real, y: real): real {
    if y < x then y else x
  }

  function MaxReal(x: real, y: real): real {
    if x < y then y else x
  }

  /** A scaled ratio, cut off at the limit and rounded down to a size. */
  function Clamp(x: real, limit: real): (r: int64)
    requires limit <= MAX_SIZE
    ensures IsSize(r)
  {
    var size := MinReal(x, limit).Floor;
    if size < 1 then 1 else size as int64
  }

  lemma ClampIsMonotone(x: real, y: real, limit: real)
    requires x <= y && limit <= MAX_SIZE
    ensures Clamp(x, limit) <= Clamp(y, limit)
  {
  }

  lemma ClampByOne(x: real, y: real, limit: real)
    requires y <= x + 1.0 && limit <= MAX_SIZE
    ensures Clamp(y, limit) <= Clamp(x, limit) + 1
  {
  }

  lemma ClampAtLimit(x: real, y: real, limit: real)
    requires limit <= y && limit <= MAX_SIZE
    ensures Clamp(x, limit) <= Clamp(y, limit)
  {
  }

  /** The `map_size` callbacks: none, or the sizes that fit the already chosen other chunk. */
  datatype SizeMap = Identity | DivisorOf(write: seq<int64>) | MultipleOf(read: seq<int64>) {
    predicate Valid(rank: nat) {
      match this
      case Identity => true
      case DivisorOf(write) => |write| == rank && forall i :: 0 <= i < rank ==> write[i] == 0 || IsSize(write[i])
      case MultipleOf(read) => |read| == rank && forall i :: 0 <= i < rank ==> IsSize(read[i])
    }

    function Apply(rank: nat, i: nat, size: int64): (r: int64)
      requires Valid(rank) && i < rank && IsSize(size)
      ensures IsSize(r)
    {
      match this
      case Identity => size
      case DivisorOf(write) => if write[i] != 0 then NearestDivisor(write[i], size) else size
      case MultipleOf(read) => FindNearestMultiple(read[i], size)
    }

    /** The least size that the map allows: a write size is at least the read size. */
    function Least(rank: nat, i: nat): (r: int64)
      requires Valid(rank) && i < rank
      ensures IsSize(r)
    {
      if this.MultipleOf? then read[i] else 1
    }
  }

  // ----- Products of sizes ------------------------------------------------------------------------

  ghost predicate AllSizes(sizes: seq<int64>) {
    forall i :: 0 <= i < |sizes| ==> IsSize(sizes[i])
  }

  ghost function Product(sizes: seq<int64>): (r: int)
    requires AllSizes(sizes)
    ensures r >= 1
  {
    if sizes == [] then 1
    else
      var n := |sizes| - 1;
      MulMonotone(1, Product(sizes[..n]), sizes[n] as int);
      Product(sizes[..n]) * sizes[n] as int
  }

  ghost function Saturate(x: int): int {
    if x > INT64_MAX as int then INT64_MAX as int else x
  }

  method GetTotalElements(sizes: seq<int64>) returns (total: int64)
    requires AllSizes(sizes)
    ensures total as int == Saturate(Product(sizes))
  {
    total := 1;
    for i := 0 to |sizes|
      invariant total as int == Product(sizes[..i])
    {
      var product := MulOverflow(sizes[i], total);
      OneMoreSize(sizes, i);
      if product.None? {
        ProductGrows(sizes, i + 1);
        return INT64_MAX;
      }
      total := product.value;
    }
    assert sizes[..|sizes|] == sizes;
  }

  lemma OneMoreSize(sizes: seq<int64>, i: nat)
    requires AllSizes(sizes) && i < |sizes|
    ensures Product(sizes[..i + 1]) == sizes[i] as int * Product(sizes[..i])
  {
    assert sizes[..i + 1][..i] == sizes[..i];
  }

  lemma {:induction false} ProductGrows(sizes: seq<int64>, m: nat)
    requires AllSizes(sizes) && m <= |sizes|
    ensures Product(sizes[..m]) <= Product(sizes)
    decreases |sizes|
  {
    var n := |sizes| - 1;
    if m <= n {
      ProductGrows(sizes[..n], m);
      assert sizes[..n][..m] == sizes[..m];
      MulMonotone(1, sizes[n] as int, Product(sizes[..n]));
    } else {
      assert sizes[..m] == sizes;
    }
  }

  /** A product of products: with the sizes themselves as products, this determines it. */
  lemma {:induction false} ProductOfJoined(a: seq<int64>, b: seq<int64>)
    requires AllSizes(a) && AllSizes(b)
    ensures AllSizes(a + b) && Product(a + b) == Product(a) * Product(b)
    ensures Product([]) == 1 && (|a| == 1 ==> Product(a) == a[0] as int)
  {
    if b == [] {
      assert a + b == a;
    } else {
      var n := |b| - 1;
      ProductOfJoined(a, b[..n]);
      assert (a + b)[..|a| + n] == a + b[..n];
      MulAssociate(Product(a), Product(b[..n]), b[n] as int);
    }
    if |a| == 1 {
      assert a[..0] == [] && Product(a[..0]) == 1;
    }
  }

  lemma MulAssociate(a: int, b: int, c: int)
    ensures (a * b) * c == a * (b * c)
  {
  }

  ghost predicate Below(a: seq<int64>, b: seq<int64>) {
    |a| == |b| && forall i :: 0 <= i < |a| ==> a[i] <= b[i]
  }

  lemma MulMonotoneBoth(a: int, b: int, c: int, d: int)
    requires 0 <= a <= b && 0 <= c <= d
    ensures a * c <= b * d
  {
    MulMonotone(a, b, c);
    MulMonotone(c, d, b);
  }

  lemma {:induction false} ProductIsMonotone(a: seq<int64>, b: seq<int64>)
    requires AllSizes(a) && AllSizes(b) && Below(a, b)
    ensures Product(a) <= Product(b)
  {
    if a != [] {
      var n := |a| - 1;
      ProductIsMonotone(a[..n], b[..n]);
      MulMonotoneBoth(Product(a[..n]), Product(b[..n]), a[n] as int, b[n] as int);
    }
  }

  lemma StrictProduct(a: int, b: int, c: int, d: int)
    requires 1 <= a <= b && 1 <= c <= d && a * c == b * d
    ensures a == b && c == d
  {
    if a < b {
      MulMonotone(a + 1, b, d);
      MulSuccessor(a, d);
      MulMonotone(c, d, a);
      assert false;
    }
    if c < d {
      MulMonotone(c + 1, d, a);
      MulSuccessor(c, a);
      assert false;
    }
  }

  /** Equal products of sizes, one below the other, can only come from equal sizes. */
  lemma {:induction false} EqualProducts(a: seq<int64>, b: seq<int64>)
    requires AllSizes(a) && AllSizes(b) && Below(a, b) && Product(a) == Product(b)
    ensures a == b
  {
    if a != [] {
      var n := |a| - 1;
      ProductIsMonotone(a[..n], b[..n]);
      StrictProduct(Product(a[..n]), Product(b[..n]), a[n] as int, b[n] as int);
      EqualProducts(a[..n], b[..n]);
      assert a == a[..n] + [a[n]] && b == b[..n] + [b[n]];
    }
  }

  // ----- The shape that a factor stands for ------------------------------------------------------

  /** The shape in which every free dimension has the least size that its map allows. */
  ghost function Leasts(shape: seq<int64>, sizes: SizeMap): (r: seq<int64>)
    requires sizes.Valid(|shape|)
    ensures |r| == |shape|
    ensures forall i: nat :: i < |r| ==> r[i] == if shape[i] == 0 then sizes.Least(|shape|, i) else shape[i]
  {
    seq(|shape|, i requires 0 <= i < |shape| => if shape[i] == 0 then sizes.Least(|shape|, i) else shape[i])
  }

  /** What the search works on: a size of 0 is free. */
  datatype Search = Search(shape: seq<int64>, ratio: seq<real>, limit: seq<real>, sizes: SizeMap) {
    predicate Valid() {
      && |shape| == |ratio| == |limit| && sizes.Valid(|shape|)
      && forall i :: 0 <= i < |shape| ==>
           (shape[i] == 0 || IsSize(shape[i])) && ratio[i] > 0.0 && limit[i] <= MAX_SIZE
    }

    predicate Free(i: nat)
      requires i < |shape|
    {
      shape[i] == 0
    }

    /** The unmapped size of a free dimension. */
    function Scaled(i: nat, factor: real): (r: int64)
      requires Valid() && i < |shape|
      ensures IsSize(r)
    {
      Clamp(ratio[i] * factor, limit[i])
    }

    function SizeAt(i: nat, factor: real): (r: int64)
      requires Valid() && i < |shape|
      ensures IsSize(r)
    {
      if !Free(i) then shape[i] else sizes.Apply(|shape|, i, Scaled(i, factor))
    }

    function ShapeAt(factor: real): (r: seq<int64>)
      requires Valid()
      ensures |r| == |shape| && AllSizes(r)
      ensures forall i: nat :: i < |r| ==> r[i] == SizeAt(i, factor)
    {
      seq(|shape|, i requires 0 <= i < |shape| => SizeAt(i, factor))
    }

    /** The saturating number of elements. */
    ghost function Elements(factor: real): int
      requires Valid()
    {
      Saturate(Product(ShapeAt(factor)))
    }

    ghost function LeastShape(): (r: seq<int64>)
      requires Valid()
      ensures |r| == |shape| && AllSizes(r)
    {
      Leasts(shape, sizes)
    }

    /** The least inverse ratio of the first `n` dimensions that are free; none stands for infinity. */
    function LeastInverse(n: nat): (r: Option<real>)
      requires Valid() && n <= |shape|
      ensures r.Some? <==> exists i: nat :: i < n && Free(i)
      ensures r.Some? ==> r.value > 0.0
    {
      if n == 0 then None
      else
        var rest := LeastInverse(n - 1);
        if !Free(n - 1) then rest
        else if rest.None? then Some(1.0 / ratio[n - 1])
        else Some(MinReal(rest.value, 1.0 / ratio[n - 1]))
    }

    /** The greatest factor that any of the first `n` dimensions needs to reach its limit. */
    function GreatestFactor(n: nat): (r: real)
      requires Valid() && n <= |shape|
      ensures r >= 0.0
    {
      if n == 0 then 0.0
      else
        var rest := GreatestFactor(n - 1);
        if !Free(n - 1) then rest else MaxReal(rest, limit[n - 1] / ratio[n - 1])
    }

    ghost predicate SomeFree() {
      exists i: nat :: i < |shape| && Free(i)
    }

    /** The least factor tried, which is also the gap at which the search stops. */
    function Increment(): (r: real)
      requires Valid() && SomeFree()
      ensures r > 0.0
    {
      LeastInverse(|shape|).value / 2.0
    }

    function End(): (r: real)
      requires Valid()
      ensures r >= 0.0
    {
      GreatestFactor(|shape|) * 2.0
    }
  }

  // ----- The binary search ------------------------------------------------------------------------

  /** What the search keeps: the low end fits the target unless it was never moved, and the high
      end reaches the target unless it was never moved. */
  ghost predicate IsBracket(s: Search, target: int64, low: real, high: real)
    requires s.Valid() && s.SomeFree()
  {
    && (low == s.Increment() || s.Elements(low) <= target as int)
    && (high == s.End() || s.Elements(high) >= target as int)
  }

  ghost function Chosen(s: Search, target: int64, low: real, high: real): real
    requires s.Valid()
  {
    if s.Elements(high) == target as int then high else low
  }

  /** The bracket after one round: the midpoint replaces the ends that it is at least as good as. */
  ghost function Round(s: Search, target: int64, midpoint: (real, real) -> real, low: real, high: real): (real, real)
    requires s.Valid()
  {
    var mid := midpoint(low, high);
    (if s.Elements(mid) <= target as int then mid else low, if s.Elements(mid) >= target as int then mid else high)
  }

  /** The gap test has not ended the search, and the midpoint lies inside the bracket. */
  ghost predicate Continues(s: Search, midpoint: (real, real) -> real, low: real, high: real)
    requires s.Valid() && s.SomeFree()
  {
    low + s.Increment() < high && low < midpoint(low, high) < high
  }

  /** The bracket after at most the given number of rounds. */
  ghost function Bisect(s: Search, target: int64, midpoint: (real, real) -> real, low: real, high: real, rounds: nat)
    : (real, real)
    requires s.Valid() && s.SomeFree()
    decreases rounds
  {
    if rounds == 0 || !Continues(s, midpoint, low, high) then (low, high)
    else
      var next := Round(s, target, midpoint, low, high);
      Bisect(s, target, midpoint, next.0, next.1, rounds - 1)
  }

  const MAX_ROUNDS: nat := 100

  /** The bracket with which the search ends. */
  ghost function FinalBracket(s: Search, target: int64, midpoint: (real, real) -> real): (real, real)
    requires s.Valid() && s.SomeFree()
  {
    Bisect(s, target, midpoint, s.Increment(), s.End(), MAX_ROUNDS)
  }

  ghost function ChosenFactor(s: Search, target: int64, midpoint: (real, real) -> real): real
    requires s.Valid() && s.SomeFree()
  {
    var bracket := FinalBracket(s, target, midpoint);
    Chosen(s, target, bracket.0, bracket.1)
  }

  lemma {:induction false} BisectKeepsBracket(s: Search, target: int64, midpoint: (real, real) -> real,
                                              low: real, high: real, rounds: nat)
    requires s.Valid() && s.SomeFree() && IsBracket(s, target, low, high)
    ensures var bracket := Bisect(s, target, midpoint, low, high, rounds); IsBracket(s, target, bracket.0, bracket.1)
    decreases rounds
  {
    if rounds > 0 && Continues(s, midpoint, low, high) {
      var next := Round(s, target, midpoint, low, high);
      BisectKeepsBracket(s, target, midpoint, next.0, next.1, rounds - 1);
    }
  }

  /** The ends stay in order, unless the search does not begin because they are not. */
  lemma {:induction false} BisectKeepsOrder(s: Search, target: int64, midpoint: (real, real) -> real,
                                            low: real, high: real, rounds: nat)
    requires s.Valid() && s.SomeFree()
    ensures var bracket := Bisect(s, target, midpoint, low, high, rounds);
            bracket.0 <= bracket.1 || bracket == (low, high)
    decreases rounds
  {
    if rounds > 0 && Continues(s, midpoint, low, high) {
      var next := Round(s, target, midpoint, low, high);
      assert next.0 <= next.1;
      BisectKeepsOrder(s, target, midpoint, next.0, next.1, rounds - 1);
    }
  }

  lemma {:induction false} OneMoreRound(s: Search, target: int64, midpoint: (real, real) -> real,
                                        low: real, high: real, rounds: nat)
    requires s.Valid() && s.SomeFree()
    ensures var bracket := Bisect(s, target, midpoint, low, high, rounds);
            Continues(s, midpoint, bracket.0, bracket.1) ==>
              Bisect(s, target, midpoint, low, high, rounds + 1) == Round(s, target, midpoint, bracket.0, bracket.1)
    decreases rounds
  {
    var next := Round(s, target, midpoint, low, high);
    if rounds > 0 {
      OneMoreRound(s, target, midpoint, next.0, next.1, rounds - 1);
    } else {
      assert Bisect(s, target, midpoint, next.0, next.1, 0) == next;
    }
  }

  lemma {:induction false} StoppedForGood(s: Search, target: int64, midpoint: (real, real) -> real,
                                          low: real, high: real, m: nat, n: nat)
    requires s.Valid() && s.SomeFree() && m <= n
    ensures var bracket := Bisect(s, target, midpoint, low, high, m);
            !Continues(s, midpoint, bracket.0, bracket.1) ==> Bisect(s, target, midpoint, low, high, n) == bracket
    decreases m
  {
    if m > 0 {
      var next := Round(s, target, midpoint, low, high);
      StoppedForGood(s, target, midpoint, next.0, next.1, m - 1, n - 1);
    }
  }

  /** The search ends with the gap test, with a midpoint outside the bracket, or after 100 rounds. */
  method FindFactor(s: Search, target: int64, midpoint: (real, real) -> real)
    returns (factor: real, low: real, high: real, rounds: nat)
    requires s.Valid() && s.SomeFree()
    ensures (low, high) == FinalBracket(s, target, midpoint)
    ensures (low, high) == Bisect(s, target, midpoint, s.Increment(), s.End(), rounds)
    ensures rounds <= MAX_ROUNDS && (rounds < MAX_ROUNDS ==> !Continues(s, midpoint, low, high))
    ensures IsBracket(s, target, low, high)
    ensures factor == ChosenFactor(s, target, midpoint)
  {
    var leastInverse: Option<real> := None;
    var maxFactor := 0.0;
    for i := 0 to |s.shape|
      invariant leastInverse == s.LeastInverse(i) && maxFactor == s.GreatestFactor(i)
    {
      if s.shape[i] == 0 {
        var ratio := s.ratio[i];
        leastInverse := Some(if leastInverse.None? then 1.0 / ratio else MinReal(leastInverse.value, 1.0 / ratio));
        maxFactor := MaxReal(maxFactor, s.limit[i] / ratio);
      }
    }
    factor, low, high, rounds := NarrowBracket(s, target, midpoint, leastInverse.value / 2.0, maxFactor * 2.0);
  }

  method NarrowBracket(s: Search, target: int64, midpoint: (real, real) -> real, increment: real, end: real)
    returns (factor: real, low: real, high: real, rounds: nat)
    requires s.Valid() && s.SomeFree() && increment == s.Increment() && end == s.End()
    ensures (low, high) == FinalBracket(s, target, midpoint)
    ensures (low, high) == Bisect(s, target, midpoint, s.Increment(), s.End(), rounds)
    ensures rounds <= MAX_ROUNDS && (rounds < MAX_ROUNDS ==> !Continues(s, midpoint, low, high))
    ensures IsBracket(s, target, low, high)
    ensures factor == ChosenFactor(s, target, midpoint)
  {
    var minFactor, maxFactor := increment, end;
    var maxFactorElements := GetTotalElements(s.ShapeAt(maxFactor));
    var iteration := 0;
    while iteration < MAX_ROUNDS && minFactor + increment < maxFactor
      invariant 0 <= iteration <= MAX_ROUNDS && maxFactorElements as int == s.Elements(maxFactor)
      invariant (minFactor, maxFactor) == Bisect(s, target, midpoint, increment, end, iteration)
    {
      var midFactor := midpoint(minFactor, maxFactor);
      if midFactor <= minFactor || midFactor >= maxFactor {
        break;
      }
      OneMoreRound(s, target, midpoint, increment, end, iteration);
      var midFactorElements := GetTotalElements(s.ShapeAt(midFactor));
      if midFactorElements >= target {
        maxFactor := midFactor;
        maxFactorElements := midFactorElements;
      }
      if midFactorElements <= target {
        minFactor := midFactor;
      }
      iteration := iteration + 1;
    }
    factor := if maxFactorElements == target then maxFactor else minFactor;
    low, high, rounds := minFactor, maxFactor, iteration;
    if rounds < MAX_ROUNDS {
      StoppedForGood(s, target, midpoint, increment, end, rounds, MAX_ROUNDS);
    }
    BisectKeepsBracket(s, target, midpoint, increment, end, MAX_ROUNDS);
  }

  // ----- Ratios and limits ------------------------------------------------------------------------

  /** The upper bound on a chunk size: the target, the size of a bounded domain, and `MAX_SIZE`. */
  function Limit(target: int64, bounds: IndexInterval): (r: real)
    requires bounds.Valid()
    ensures r <= MAX_SIZE && r <= target as real
    ensures bounds.Bounded() ==> r <= MaxReal(1.0, bounds.size as real)
  {
    var size := target as real;
    var inDomain := if bounds.Bounded() then MinReal(size, MaxReal(1.0, bounds.size as real)) else size;
    MinReal(inDomain, MAX_SIZE)
  }

  /** The greatest positive aspect ratio of the first `n` dimensions that are free; 0 if there is none. */
  function GreatestRatio(aspectRatio: seq<real>, shape: seq<int64>, n: nat): (r: real)
    requires n <= |aspectRatio| == |shape|
    ensures r >= 0.0
    ensures forall i :: 0 <= i < n && shape[i] == 0 ==> aspectRatio[i] <= r
  {
    if n == 0 then 0.0
    else
      var rest := GreatestRatio(aspectRatio, shape, n - 1);
      if shape[n - 1] == 0 && aspectRatio[n - 1] > rest then aspectRatio[n - 1] else rest
  }

  function Normalized(ratio: real, greatest: real): (r: real)
    ensures r > 0.0
  {
    if ratio <= 0.0 then 1.0
    else if greatest > 0.0 then ratio / greatest
    else ratio
  }

  predicate CanSearch(aspectRatio: seq<real>, shape: seq<int64>, domain: seq<IndexInterval>, sizes: SizeMap) {
    && |aspectRatio| == |shape| == |domain| && sizes.Valid(|shape|)
    && (forall i :: 0 <= i < |domain| ==> domain[i].Valid())
    && (forall i :: 0 <= i < |shape| ==> shape[i] == 0 || IsSize(shape[i]))
  }

  ghost predicate SomeFreeSize(shape: seq<int64>) {
    exists i :: 0 <= i < |shape| && shape[i] == 0
  }

  /** The search that a request stands for. */
  ghost function SearchFor(aspectRatio: seq<real>, shape: seq<int64>, target: int64, domain: seq<IndexInterval>,
                           sizes: SizeMap): (s: Search)
    requires CanSearch(aspectRatio, shape, domain, sizes)
    ensures s.Valid() && s.shape == shape && s.sizes == sizes && |s.ratio| == |s.limit| == |shape|
    ensures SomeFreeSize(shape) ==> s.SomeFree()
    ensures forall i :: 0 <= i < |shape| ==>
      s.ratio[i] == Normalized(aspectRatio[i], GreatestRatio(aspectRatio, shape, |shape|))
    ensures forall i :: 0 <= i < |shape| ==> s.limit[i] == Limit(target, domain[i])
  {
    var greatest := GreatestRatio(aspectRatio, shape, |shape|);
    var s := Search(shape,
                    seq(|shape|, i requires 0 <= i < |shape| => Normalized(aspectRatio[i], greatest)),
                    seq(|shape|, i requires 0 <= i < |shape| => Limit(target, domain[i])),
                    sizes);
    assert forall i: nat :: i < |shape| && shape[i] == 0 ==> s.Free(i);
    s
  }

  /** The shape with the free sizes that the search chooses. */
  ghost function ChosenShape(aspectRatio: seq<real>, shape: seq<int64>, target: int64, domain: seq<IndexInterval>,
                             sizes: SizeMap, midpoint: (real, real) -> real): seq<int64>
    requires CanSearch(aspectRatio, shape, domain, sizes) && SomeFreeSize(shape)
  {
    var s := SearchFor(aspectRatio, shape, target, domain, sizes);
    s.ShapeAt(ChosenFactor(s, target, midpoint))
  }

  /** Fills in the free sizes. */
  method ChooseChunkSizeFromAspectRatio(aspectRatio: seq<real>, chunkShape: array<int64>, target: int64,
                                        domain: seq<IndexInterval>, sizes: SizeMap, midpoint: (real, real) -> real)
    requires CanSearch(aspectRatio, chunkShape[..], domain, sizes) && SomeFreeSize(chunkShape[..])
    modifies chunkShape
    ensures chunkShape[..] == ChosenShape(aspectRatio, old(chunkShape[..]), target, domain, sizes, midpoint)
  {
    var rank := chunkShape.Length;
    var shape := chunkShape[..];
    var maxChunkShape: seq<real> := [];
    for i := 0 to rank
      invariant |maxChunkShape| == i
      invariant forall j :: 0 <= j < i ==> maxChunkShape[j] == Limit(target, domain[j])
    {
      maxChunkShape := maxChunkShape + [Limit(target, domain[i])];
    }
    var maxAspectRatio := 0.0;
    for i := 0 to rank
      invariant maxAspectRatio == GreatestRatio(aspectRatio, shape, i)
    {
      if shape[i] == 0 && aspectRatio[i] > maxAspectRatio {
        maxAspectRatio := aspectRatio[i];
      }
    }
    var normalized: seq<real> := [];
    for i := 0 to rank
      invariant |normalized| == i
      invariant forall j :: 0 <= j < i ==> normalized[j] == Normalized(aspectRatio[j], maxAspectRatio)
    {
      normalized := normalized + [Normalized(aspectRatio[i], maxAspectRatio)];
    }
    var search := Search(shape, normalized, maxChunkShape, sizes);
    assert search == SearchFor(aspectRatio, shape, target, domain, sizes);
    var factor, _, _, _ := FindFactor(search, target, midpoint);
    for i := 0 to rank
      invariant forall j :: 0 <= j < i ==> chunkShape[j] == search.SizeAt(j, factor)
    {
      chunkShape[i] := search.SizeAt(i, factor);
    }
  }

  // ----- What the search guarantees, when sizes are not mapped ---------------------------------------

  ghost predicate Plain(s: Search) {
    s.Valid() && s.sizes == Identity
  }

  lemma MulMonotoneReal(r: real, f: real, g: real)
    requires r > 0.0 && f <= g
    ensures r * f <= r * g
  {
    assert r * g - r * f == r * (g - f);
  }

  lemma ScaledIsClamped(s: Search, f: real, x: real, i: nat)
    requires s.Valid() && i < |s.shape| && x == s.ratio[i] * f
    ensures s.Scaled(i, f) == Clamp(x, s.limit[i])
  {
  }

  lemma ScaledSizeIsMonotone(s: Search, f: real, g: real, x: real, y: real, i: nat)
    requires s.Valid() && i < |s.shape| && x == s.ratio[i] * f && y == s.ratio[i] * g && x <= y
    ensures s.Scaled(i, f) <= s.Scaled(i, g)
  {
    ScaledIsClamped(s, f, x, i);
    ScaledIsClamped(s, g, y, i);
    ClampIsMonotone(x, y, s.limit[i]);
  }

  lemma ScaledIsMonotone(s: Search, f: real, g: real, i: nat)
    requires s.Valid() && i < |s.shape| && f <= g
    ensures s.Scaled(i, f) <= s.Scaled(i, g)
  {
    var r := s.ratio[i];
    MulMonotoneReal(r, f, g);
    ScaledSizeIsMonotone(s, f, g, r * f, r * g, i);
  }

  lemma SizeIsMonotone(s: Search, f: real, g: real, i: nat)
    requires Plain(s) && i < |s.shape| && f <= g
    ensures s.SizeAt(i, f) <= s.SizeAt(i, g)
  {
    ScaledIsMonotone(s, f, g, i);
  }

  /** The number of elements, also the saturated one, grows with the factor. */
  lemma ElementsAreMonotone(s: Search, f: real, g: real)
    requires Plain(s) && f <= g
    ensures Below(s.ShapeAt(f), s.ShapeAt(g)) && s.Elements(f) <= s.Elements(g)
  {
    forall i: nat | i < |s.shape|
      ensures s.SizeAt(i, f) <= s.SizeAt(i, g)
    {
      SizeIsMonotone(s, f, g, i);
    }
    ProductIsMonotone(s.ShapeAt(f), s.ShapeAt(g));
  }

  lemma RatioTimesInverse(r: real, x: real)
    requires r > 0.0 && x <= 1.0 / r
    ensures r * x <= 1.0
  {
    MulMonotoneReal(r, x, 1.0 / r);
    assert r * (1.0 / r) == 1.0;
  }

  lemma {:induction false} LeastInverseIsLeast(s: Search, n: nat, i: nat)
    requires s.Valid() && i < n <= |s.shape| && s.Free(i)
    ensures s.LeastInverse(n).Some? && s.LeastInverse(n).value <= 1.0 / s.ratio[i]
  {
    if i < n - 1 {
      LeastInverseIsLeast(s, n - 1, i);
    }
  }

  lemma {:induction false} GreatestFactorIsGreatest(s: Search, n: nat, i: nat)
    requires s.Valid() && i < n <= |s.shape| && s.Free(i)
    ensures s.limit[i] / s.ratio[i] <= s.GreatestFactor(n)
  {
    if i < n - 1 {
      GreatestFactorIsGreatest(s, n - 1, i);
    }
  }

  lemma HalfInverse(r: real, x: real, half: real)
    requires r > 0.0 && x <= 1.0 / r && half == x / 2.0
    ensures r * half <= 0.5
  {
    RatioTimesInverse(r, x);
    assert r * half == (r * x) / 2.0;
  }

  /** At the least factor a free dimension is scaled to at most one half. */
  lemma IncrementIsAtMost(s: Search, i: nat) returns (r: real, increment: real)
    requires s.Valid() && s.SomeFree() && i < |s.shape| && s.Free(i)
    ensures r == s.ratio[i] && increment == s.Increment()
    ensures r * increment <= 0.5
  {
    LeastInverseIsLeast(s, |s.shape|, i);
    r, increment := s.ratio[i], s.Increment();
    HalfInverse(r, s.LeastInverse(|s.shape|).value, increment);
  }

  lemma ClampToUnit(x: real, limit: real)
    requires x <= 0.5 && limit <= MAX_SIZE
    ensures Clamp(x, limit) == 1
  {
  }

  lemma ScaledToUnit(s: Search, i: nat)
    requires s.Valid() && s.SomeFree() && i < |s.shape| && s.Free(i)
    ensures s.Scaled(i, s.Increment()) == 1
  {
    var r, increment := IncrementIsAtMost(s, i);
    ClampToUnit(r * increment, s.limit[i]);
  }

  /** So every free size is the least one there, also when sizes are mapped. */
  lemma IncrementIsLeast(s: Search)
    requires s.Valid() && s.SomeFree()
    ensures s.ShapeAt(s.Increment()) == s.LeastShape()
  {
    forall i: nat | i < |s.shape| && s.Free(i)
      ensures s.SizeAt(i, s.Increment()) == s.sizes.Least(|s.shape|, i)
    {
      ScaledToUnit(s, i);
      UnitIsMappedToLeast(s.sizes, |s.shape|, i);
    }
  }

  lemma UnitIsMappedToLeast(sizes: SizeMap, rank: nat, i: nat)
    requires sizes.Valid(rank) && i < rank
    ensures sizes.Apply(rank, i, 1) == sizes.Least(rank, i)
  {
    match sizes
    case Identity =>
    case DivisorOf(write) =>
      if write[i] != 0 {
        UnitDivides(write[i] as int);
      }
    case MultipleOf(read) =>
  }

  lemma UnitDivides(n: int)
    ensures n % 1 == 0
  {
  }

  lemma MappedIsAtLeast(sizes: SizeMap, rank: nat, i: nat, size: int64)
    requires sizes.Valid(rank) && i < rank && IsSize(size)
    ensures sizes.Least(rank, i) <= sizes.Apply(rank, i, size)
  {
    if sizes.MultipleOf? {
      DivisorIsAtMost(sizes.read[i] as int, sizes.Apply(rank, i, size) as int);
    }
  }

  lemma LeastShapeIsLeast(s: Search, f: real)
    requires s.Valid()
    ensures Product(s.LeastShape()) <= Product(s.ShapeAt(f))
  {
    forall i: nat | i < |s.shape|
      ensures s.LeastShape()[i] <= s.ShapeAt(f)[i]
    {
      if s.Free(i) {
        MappedIsAtLeast(s.sizes, |s.shape|, i, s.Scaled(i, f));
      }
    }
    ProductIsMonotone(s.LeastShape(), s.ShapeAt(f));
  }

  /** With or without a map, the chosen shape fits the target exactly when the least shape does; if it
      does not, the least shape is chosen. */
  lemma ChosenFitsTarget(s: Search, target: int64, low: real, high: real)
    requires s.Valid() && s.SomeFree() && IsBracket(s, target, low, high)
    ensures s.Elements(Chosen(s, target, low, high)) <= target as int <==>
            Saturate(Product(s.LeastShape())) <= target as int
    ensures s.Elements(Chosen(s, target, low, high)) > target as int ==>
            s.ShapeAt(Chosen(s, target, low, high)) == s.LeastShape()
  {
    LeastShapeIsLeast(s, high);
    LeastShapeIsLeast(s, low);
    IncrementIsLeast(s);
  }

  /** A free size is at least one, and no greater than a bounded domain, nor than a positive target. */
  lemma SizesFitDomain(aspectRatio: seq<real>, shape: seq<int64>, target: int64, domain: seq<IndexInterval>,
                       f: real, i: nat)
    requires CanSearch(aspectRatio, shape, domain, Identity)
    requires i < |shape| && shape[i] == 0
    ensures var size := SearchFor(aspectRatio, shape, target, domain, Identity).SizeAt(i, f) as int;
            && 1 <= size
            && (target >= 1 ==> size <= target as int)
            && (domain[i].Bounded() && domain[i].size >= 1 ==> size <= domain[i].size as int)
            && (domain[i].Bounded() && domain[i].Empty() ==> size == 1)
  {
    var s := SearchFor(aspectRatio, shape, target, domain, Identity);
    ClampIsAtMost(s.ratio[i] * f, s.limit[i]);
    assert s.Scaled(i, f) as real <= MaxReal(1.0, s.limit[i]);
  }

  lemma ClampIsAtMost(x: real, limit: real)
    requires limit <= MAX_SIZE
    ensures Clamp(x, limit) as real <= MaxReal(1.0, limit)
  {
  }

  lemma ScaledGap(r: real, low: real, high: real, increment: real)
    requires r > 0.0 && high <= low + increment && r * increment <= 0.5
    ensures r * high <= r * low + 1.0
  {
    MulMonotoneReal(r, high, low + increment);
    assert r * (low + increment) == r * low + r * increment;
  }

  lemma ScaledSizesDifferByOne(s: Search, low: real, high: real, x: real, y: real, i: nat)
    requires s.Valid() && i < |s.shape| && x == s.ratio[i] * low && y == s.ratio[i] * high && y <= x + 1.0
    ensures s.Scaled(i, high) as int <= s.Scaled(i, low) as int + 1
  {
    ScaledIsClamped(s, low, x, i);
    ScaledIsClamped(s, high, y, i);
    ClampByOne(x, y, s.limit[i]);
  }

  /** The ends of a bracket are close: within the gap of the gap test, or relative to the low end. */
  ghost predicate Close(s: Search, low: real, high: real)
    requires s.Valid() && s.SomeFree()
  {
    high <= low + s.Increment() || (high - low) * MAX_SIZE <= low
  }

  lemma RelativeGap(r: real, low: real, high: real)
    requires r > 0.0 && (high - low) * MAX_SIZE <= low && r * low < MAX_SIZE
    ensures r * high <= r * low + 1.0
  {
    var gap := r * (high - low);
    MulMonotoneReal(r, (high - low) * MAX_SIZE, low);
    assert gap * MAX_SIZE == r * ((high - low) * MAX_SIZE);
    assert r * high == r * low + gap;
  }

  lemma RelativelyCloseSizes(s: Search, low: real, high: real, x: real, y: real, i: nat)
    requires s.Valid() && i < |s.shape| && x == s.ratio[i] * low && y == s.ratio[i] * high
    requires y <= x + 1.0 || s.limit[i] <= x
    ensures s.Scaled(i, high) as int <= s.Scaled(i, low) as int + 1
  {
    if y <= x + 1.0 {
      ScaledSizesDifferByOne(s, low, high, x, y, i);
    } else {
      ScaledSizeAtLimit(s, high, low, y, x, i);
    }
  }

  /** Between close ends each size grows by at most one, before it is mapped. */
  lemma ScaledEndsDifferByOne(s: Search, low: real, high: real, i: nat)
    requires s.Valid() && s.SomeFree() && Close(s, low, high) && i < |s.shape| && s.Free(i)
    ensures s.Scaled(i, high) as int <= s.Scaled(i, low) as int + 1
  {
    var r, increment := IncrementIsAtMost(s, i);
    if high <= low + increment {
      ScaledGap(r, low, high, increment);
    } else if r * low < MAX_SIZE {
      RelativeGap(r, low, high);
    }
    RelativelyCloseSizes(s, low, high, r * low, r * high, i);
  }

  lemma EndsDifferByOne(s: Search, low: real, high: real, i: nat)
    requires Plain(s) && s.SomeFree() && Close(s, low, high) && i < |s.shape|
    ensures s.SizeAt(i, high) as int <= s.SizeAt(i, low) as int + 1
  {
    if s.Free(i) {
      ScaledEndsDifferByOne(s, low, high, i);
    }
  }

  lemma DoubleReachesLimit(r: real, limit: real, greatest: real, end: real)
    requires r > 0.0 && limit / r <= greatest && greatest >= 0.0 && end == greatest * 2.0
    ensures limit <= r * end
  {
    MulMonotoneReal(r, limit / r, greatest);
    MulMonotoneReal(r, greatest, end);
    assert r * (limit / r) == limit;
  }

  lemma ScaledSizeAtLimit(s: Search, f: real, g: real, x: real, y: real, i: nat)
    requires s.Valid() && i < |s.shape| && x == s.ratio[i] * f && y == s.ratio[i] * g && s.limit[i] <= y
    ensures s.Scaled(i, f) <= s.Scaled(i, g)
  {
    ScaledIsClamped(s, f, x, i);
    ScaledIsClamped(s, g, y, i);
    ClampAtLimit(x, y, s.limit[i]);
  }

  /** At the greatest factor every free dimension is scaled to its limit or beyond. */
  lemma EndReachesLimit(s: Search, i: nat) returns (end: real)
    requires s.Valid() && i < |s.shape| && s.Free(i)
    ensures end == s.End() && s.limit[i] <= s.ratio[i] * end
  {
    end := s.End();
    GreatestFactorIsGreatest(s, |s.shape|, i);
    DoubleReachesLimit(s.ratio[i], s.limit[i], s.GreatestFactor(|s.shape|), end);
  }

  lemma EndIsGreatest(s: Search, f: real, i: nat)
    requires Plain(s) && i < |s.shape|
    ensures s.SizeAt(i, f) <= s.SizeAt(i, s.End())
  {
    if s.Free(i) {
      var end := EndReachesLimit(s, i);
      ScaledSizeAtLimit(s, f, end, s.ratio[i] * f, s.ratio[i] * end, i);
    }
  }

  /** Between close ends the choice is nearly optimal: no factor whose shape fits the target yields a
      size that exceeds the chosen one by more than one. */
  lemma NearlyOptimal(s: Search, target: int64, low: real, high: real, f: real, i: nat)
    requires Plain(s) && s.SomeFree() && IsBracket(s, target, low, high) && Close(s, low, high)
    requires target < INT64_MAX && i < |s.shape|
    requires s.Elements(f) <= target as int
    ensures s.SizeAt(i, f) as int <= s.SizeAt(i, Chosen(s, target, low, high)) as int + 1
  {
    EndsDifferByOne(s, low, high, i);
    if f <= high {
      SizeIsMonotone(s, f, high, i);
    } else {
      ElementsAreMonotone(s, high, f);
      if s.Elements(high) == target as int {
        EqualProducts(s.ShapeAt(high), s.ShapeAt(f));
        assert s.ShapeAt(high)[i] == s.ShapeAt(f)[i];
      } else {
        EndIsGreatest(s, f, i);
      }
    }
  }
}
