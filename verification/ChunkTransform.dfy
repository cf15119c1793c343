/** Moving chunk grids through the index maps `x => offset + stride * x` of an index transform
    (tensorstore/chunk_layout.cc). */
module ChunkTransform {
  import opened Results
  import opened Int64
  import opened IndexIntervals

  // ----- Greatest common divisors ---------------------------------------------------------

  /** Euclid's algorithm on magnitudes. */
  function Gcd(x: nat, y: nat): (g: nat)
    requires x > 0 || y > 0
    ensures g > 0
    decreases y
  {
    if y == 0 then x else Gcd(y, x % y)
  }

  /** The divisor divides both numbers. */
  lemma {:induction false} GcdDivides(x: nat, y: nat)
    requires x > 0 || y > 0
    ensures x % Gcd(x, y) == 0 && y % Gcd(x, y) == 0
    decreases y
  {
    if y != 0 {
      GcdDivides(y, x % y);
      var g := Gcd(x, y);
      DivMod(x, y);
      var q, a, b := x / y, y / g, (x % y) / g;
      DivMod(y, g);
      DivMod(x % y, g);
      assert x == (q * a + b) * g by { Factor(q, a, b, g, x, y); }
      MultipleHasNoRemainder(q * a + b, g);
    } else {
      MultipleHasNoRemainder(1, x);
      MultipleHasNoRemainder(0, x);
    }
  }

  lemma Factor(q: int, a: int, b: int, g: int, x: int, y: int)
    requires y == a * g && x == q * y + b * g
    ensures x == (q * a + b) * g
  {
  }

  lemma MultipleHasNoRemainder(k: int, g: int)
    requires g > 0
    ensures k * g % g == 0 && k * g / g == k
  {
    FloorIsUnique(k, k * g, g);
    DivMod(k * g, g);
  }

  /** Every common divisor divides it. */
  lemma {:induction false} GcdIsGreatest(x: nat, y: nat, d: nat)
    requires (x > 0 || y > 0) && d > 0 && x % d == 0 && y % d == 0
    ensures Gcd(x, y) % d == 0
    decreases y
  {
    if y != 0 {
      var q, a, b := x / y, x / d, y / d;
      DivMod(x, y);
      DivMod(x, d);
      DivMod(y, d);
      assert x % y == (a - q * b) * d by { Difference(q, a, b, d, x, y); }
      MultipleHasNoRemainder(a - q * b, d);
      GcdIsGreatest(y, x % y, d);
    }
  }

  lemma Difference(q: int, a: int, b: int, d: int, x: int, y: int)
    requires x == a * d && y == b * d
    ensures x - q * y == (a - q * b) * d
  {
  }

  // ----- One dimension -----------------------------------------------------------------------

  predicate IsFiniteIndex(x: int64) {
    IsFinite(x as int)
  }

  /** The origin that a negative stride pushes forward: one less, as chunks are half-open. */
  ghost function BeforeScaling(value: int, stride: int): int {
    if stride < 0 then value - 1 else value
  }

  function PushOrigin(value: int64, offset: int64, stride: int64): (r: Option<int64>)
    requires IsFiniteIndex(value) && stride != 0
    ensures var scaled := stride as int * BeforeScaling(value as int, stride as int);
            && (r.Some? <==> Fits(scaled) && IsFinite(scaled + offset as int))
            && (r.Some? ==> r.value as int == scaled + offset as int)
  {
    var v := if stride < 0 then value - 1 else value;
    var scaled := MulOverflow(stride, v);
    if scaled.None? then None
    else
      var sum := AddOverflow(scaled.value, offset);
      if sum.None? || !IsFiniteIndex(sum.value) then None else sum
  }

  function PullOrigin(value: int64, offset: int64, stride: int64): (r: Option<int64>)
    requires IsFiniteIndex(value) && stride != 0
    ensures r.Some? <==> IsFinite(value as int - offset as int)
    ensures r.Some? ==> r.value as int == PulledOrigin(value as int, offset as int, stride as int)
  {
    var difference := SubOverflow(value, offset);
    if difference.None? || !IsFiniteIndex(difference.value) then None
    else Some(CeilOfRatio(if stride > 0 then difference.value else difference.value - 1, stride))
  }

  /** The least index of the chunk that starts at, or for a negative stride ends before, the image. */
  ghost function PulledOrigin(origin: int, offset: int, stride: int): int
    requires stride != 0
  {
    CeilDiv(if stride > 0 then origin - offset else origin - offset - 1, stride)
  }

  function PushShape(value: int64, stride: int64): (r: Option<int64>)
    ensures var scaled := Abs(stride as int) * value as int;
            && (r.Some? <==> stride != INT64_MIN && INT64_MIN as int <= scaled <= MAX_FINITE as int)
            && (r.Some? ==> r.value as int == scaled)
  {
    if stride == INT64_MIN then None
    else
      var scaled := MulOverflow(if stride < 0 then -stride else stride, value);
      if scaled.None? || scaled.value > MAX_FINITE then None else scaled
  }

  function PullShape(value: int64, stride: int64): (r: int64)
    requires stride != 0 && value != 0 && value != INT64_MIN
    ensures r as int == if value > 0 then PulledShape(value as int, stride as int)
                        else -PulledShape(-(value as int), stride as int)
  {
    var g := Gcd(Abs(stride as int), Abs(value as int));
    PulledShapeFits(Abs(value as int), stride as int);
    TruncDiv(value as int, g) as int64
  }

  ghost function PulledShape(size: int, stride: int): int
    requires stride != 0 && size > 0
  {
    size / Gcd(Abs(stride), size)
  }

  /** With `a` the new shape, `a * |stride|` is a multiple of the old shape. */
  lemma PulledShapeIsExact(size: int, stride: int) returns (b: int)
    requires stride != 0 && size > 0
    ensures var a, g := PulledShape(size, stride), Gcd(Abs(stride), size);
            && size == a * g && Abs(stride) == b * g && b > 0
            && 0 < a <= size && a * Abs(stride) == b * size
  {
    var t, g := Abs(stride), Gcd(Abs(stride), size);
    GcdDivides(t, size);
    var a := Cofactor(size, g);
    b := Cofactor(t, g);
    CrossMultiply(a, b, g, size, t);
  }

  lemma Cofactor(x: int, g: int) returns (a: int)
    requires x > 0 && g > 0 && x % g == 0
    ensures a == x / g && x == a * g && 0 < a <= x
  {
    a := x / g;
    DivMod(x, g);
    if a <= 0 {
      MulMonotone(a, 0, g);
      assert false;
    }
    MulMonotone(1, g, a);
  }

  lemma CrossMultiply(a: int, b: int, g: int, x: int, y: int)
    requires x == a * g && y == b * g
    ensures a * y == b * x
  {
    assert a * (b * g) == b * (a * g);
  }

  lemma PulledShapeFits(size: int, stride: int)
    requires stride != 0 && size > 0
    ensures 0 < PulledShape(size, stride) <= size
  {
    var b := PulledShapeIsExact(size, stride);
  }

  lemma GcdIsAtMost(x: nat, y: nat)
    requires x > 0 && y > 0
    ensures Gcd(x, y) <= x && Gcd(x, y) <= y
  {
    GcdDivides(x, y);
    DividesIsAtMost(Gcd(x, y), x);
    DividesIsAtMost(Gcd(x, y), y);
  }

  lemma DividesIsAtMost(g: int, x: int)
    requires g > 0 && x > 0 && x % g == 0
    ensures g <= x
  {
    DivMod(x, g);
    if x / g <= 0 {
      MulMonotone(x / g, 0, g);
    }
  }

  // ----- Pulling a grid back never splits a chunk -----------------------------------------------

  /** The chunk of a grid that contains `p`. */
  ghost function ChunkOf(origin: int, size: int, p: int): int
    requires size > 0
  {
    FloorDiv(p - origin, size)
  }

  /** The new chunk of an index is a function of the old chunk of its image: every `b` consecutive
      old chunks, in the direction of the stride, make up one new chunk. */
  lemma PulledChunk(origin: int, size: int, offset: int, stride: int, b: int, x: int)
    requires size > 0 && stride != 0 && b > 0
    requires PulledShape(size, stride) > 0 && PulledShape(size, stride) * Abs(stride) == b * size
    ensures var m := ChunkOf(origin, size, offset + x * stride);
            ChunkOf(PulledOrigin(origin, offset, stride), PulledShape(size, stride), x) ==
            FloorDiv(if stride > 0 then m else -m - 1, b)
  {
    var a, t := PulledShape(size, stride), Abs(stride);
    var o := PulledOrigin(origin, offset, stride);
    var n := offset + x * stride - origin;
    var m := FloorDiv(n, size);
    var m' := if stride > 0 then m else -m - 1;
    var j := FloorDiv(m', b);
    SameSide(origin, size, offset, stride, a, b, x, j);
    SameSide(origin, size, offset, stride, a, b, x, j + 1);
    FloorIsGreatest(j, m', b);
    FloorIsGreatest(j + 1, m', b);
    MulSuccessor(j, a);
    FloorIsUnique(j, x - o, a);
  }

  /** `x` is at or beyond the start of new chunk `j` exactly when its image is at or beyond the
      start of old chunk `j * b`, counted in the direction of the stride. */
  lemma SameSide(origin: int, size: int, offset: int, stride: int, a: int, b: int, x: int, j: int)
    requires size > 0 && stride != 0 && b > 0 && a > 0 && a * Abs(stride) == b * size
    ensures var m := FloorDiv(offset + x * stride - origin, size);
            var m' := if stride > 0 then m else -m - 1;
            j * a <= x - PulledOrigin(origin, offset, stride) <==> j * b <= m'
  {
    var t := Abs(stride);
    var n := offset + x * stride - origin;
    var step := j * a * t;
    assert j * b * size == step by { Associate(j, a, t, b, size); }
    if stride > 0 {
      CeilIsLeast(x - j * a, origin - offset, t);
      MulMinus(x, j * a, t);
      FloorIsGreatest(j * b, n, size);
    } else {
      assert PulledOrigin(origin, offset, stride) == CeilDiv(1 - (origin - offset), t);
      CeilIsLeast(x - j * a, 1 - (origin - offset), t);
      MulMinus(x, j * a, t);
      MulNegate(x, t);
      FloorIsGreatest(-(j * b), n, size);
      MulNegate(j * b, size);
    }
  }

  lemma MulMinus(x: int, y: int, t: int)
    ensures (x - y) * t == x * t - y * t
  {
  }

  lemma Associate(j: int, a: int, t: int, b: int, size: int)
    requires a * t == b * size
    ensures j * b * size == j * a * t
  {
    assert j * (b * size) == j * (a * t);
    assert j * b * size == j * (b * size);
    assert j * a * t == j * (a * t);
  }

  /** No output chunk is split: indices whose images share an output chunk share an input chunk. */
  lemma NoChunkIsSplit(origin: int, size: int, offset: int, stride: int, x: int, y: int)
    requires size > 0 && stride != 0
    requires ChunkOf(origin, size, offset + x * stride) == ChunkOf(origin, size, offset + y * stride)
    ensures PulledShape(size, stride) > 0
    ensures ChunkOf(PulledOrigin(origin, offset, stride), PulledShape(size, stride), x) ==
            ChunkOf(PulledOrigin(origin, offset, stride), PulledShape(size, stride), y)
  {
    var b := PulledShapeIsExact(size, stride);
    PulledChunk(origin, size, offset, stride, b, x);
    PulledChunk(origin, size, offset, stride, b, y);
  }

  // ----- Pushing forward, then pulling back ------------------------------------------------------

  /** A pushed origin is pulled back exactly when the scaled origin is itself a finite index. */
  lemma OriginRoundTrip(value: int64, offset: int64, stride: int64)
    requires IsFiniteIndex(value) && stride != 0 && PushOrigin(value, offset, stride).Some?
    ensures var pushed := PushOrigin(value, offset, stride).value;
            PullOrigin(pushed, offset, stride) ==
            if IsFinite(stride as int * BeforeScaling(value as int, stride as int)) then Some(value) else None
  {
    var s, v := stride as int, BeforeScaling(value as int, stride as int);
    if stride > 0 {
      CeilIsUnique(v, s * v, s);
    } else {
      CeilIsUnique(v + 1, s * v - 1, s);
      MulSuccessor(v, s);
    }
  }

  /** A pulled origin is itself a valid origin, except for one value of the difference, and stride -1. */
  lemma PulledOriginIsValid(value: int64, offset: int64, stride: int64)
    requires IsFiniteIndex(value) && stride != 0 && PullOrigin(value, offset, stride).Some?
    ensures IsFiniteIndex(PullOrigin(value, offset, stride).value) <==>
            !(stride == -1 && value as int - offset as int == MIN_FINITE as int)
  {
    var difference, s := value as int - offset as int, stride as int;
    if stride > 0 {
      CeilStaysWithin(difference, s, MAX_FINITE as int);
    } else if stride == -1 {
      CeilIsUnique(1 - difference, 1 - difference, 1);
      assert PulledOrigin(value as int, offset as int, s) == CeilDiv(1 - difference, 1);
    } else {
      CeilStaysWithin(1 - difference, -s, MAX_FINITE as int);
      assert PulledOrigin(value as int, offset as int, s) == CeilDiv(1 - difference, -s);
    }
  }

  lemma CeilStaysWithin(n: int, d: int, m: int)
    requires d >= 1 && m >= 1 && Abs(n) <= (if d == 1 then m else m + 1)
    ensures -m <= CeilDiv(n, d) <= m
  {
    CeilIsLeast(m, n, d);
    CeilIsLeast(-m - 1, n, d);
    MulNegate(m + 1, d);
    if d >= 2 {
      MulMonotone(2, d, m);
      MulMonotone(2, d, m + 1);
      assert m * d >= 2 * m && (m + 1) * d >= 2 * (m + 1);
    }
  }

  lemma PulledOriginExample()
    ensures PullOrigin(MIN_FINITE, 0, -1) == Some(INF_INDEX) && !IsFiniteIndex(INF_INDEX)
  {
  }

  /** A pushed origin that is refused on the way back. */
  lemma OriginRoundTripExample()
    ensures PushOrigin(0x2000_0000_0000_0000, -0x2000_0000_0000_0000, 2) == Some(0x2000_0000_0000_0000)
    ensures PullOrigin(0x2000_0000_0000_0000, -0x2000_0000_0000_0000, 2) == None
  {
  }

  /** A pushed shape is always pulled back, also the `-1` that asks for the whole domain. */
  lemma ShapeRoundTrip(value: int64, stride: int64)
    requires value >= -1 && value != 0 && stride != 0 && PushShape(value, stride).Some?
    ensures var pushed := PushShape(value, stride).value;
            && pushed != 0 && pushed != INT64_MIN
            && PullShape(pushed, stride) == value
  {
    var t, v := Abs(stride as int), Abs(value as int);
    MulMonotone(1, v, t);
    GcdWithMultiple(t, v);
    MultipleHasNoRemainder(v, t);
    MulNegate(t, v);
  }

  /** What is pushed forward is itself a valid shape, except that a `-1` turns into `-|stride|`. */
  lemma PushedShapeIsValid(value: int64, stride: int64)
    requires value >= -1 && value != 0 && stride != 0 && PushShape(value, stride).Some?
    ensures PushShape(value, stride).value >= -1 <==> value > 0 || Abs(stride as int) == 1
  {
    if value > 0 {
      MulMonotone(1, value as int, Abs(stride as int));
    }
  }

  lemma PushedShapeExample()
    ensures PushShape(-1, 2) == Some(-2)
  {
  }

  lemma GcdWithMultiple(t: nat, v: nat)
    requires t > 0 && v > 0
    ensures t * v > 0 && Gcd(t, t * v) == t
  {
    MulMonotone(1, v, t);
    var g := Gcd(t, t * v);
    GcdIsAtMost(t, t * v);
    MultipleHasNoRemainder(v, t);
    MultipleHasNoRemainder(1, t);
    GcdIsGreatest(t, t * v, t);
    DividesIsAtMost(t, g);
  }

  // ----- Vectors of constraints ----------------------------------------------------------------

  /** How one output dimension of an index transform is computed. */
  datatype OutputMap =
    | Constant
    | SingleInputDimension(inputDim: nat, offset: int64, stride: int64)
    | IndexArray(inputDims: set<nat>)

  /** The output dimension depends on input dimension `d`. */
  predicate Uses(m: OutputMap, d: nat) {
    match m
    case Constant => false
    case SingleInputDimension(inputDim, _, _) => inputDim == d
    case IndexArray(inputDims) => d in inputDims
  }

  /** Constraints travel along this output dimension, to and from input dimension `d`. */
  predicate Links(m: OutputMap, d: nat) {
    m.SingleInputDimension? && m.stride != 0 && m.inputDim == d
  }

  /** The output dimension is computed from `d` alone, with a stride that has an absolute value. */
  predicate Inverts(m: OutputMap, d: nat) {
    m.SingleInputDimension? && m.inputDim == d && m.stride != INT64_MIN
  }

  /** Exactly one output dimension uses input dimension `d`, and it inverts it. */
  ghost predicate OneToOne(maps: seq<OutputMap>, d: nat) {
    exists o :: 0 <= o < |maps| && Inverts(maps[o], d) && forall p :: 0 <= p < |maps| && p != o ==> !Uses(maps[p], d)
  }

  ghost predicate Seen(maps: seq<OutputMap>, n: nat, d: nat)
    requires n <= |maps|
  {
    exists o :: 0 <= o < n && Inverts(maps[o], d)
  }

  ghost predicate Spoiled(maps: seq<OutputMap>, n: nat, d: nat)
    requires n <= |maps|
  {
    || (exists o :: 0 <= o < n && Uses(maps[o], d) && !Inverts(maps[o], d))
    || (exists o, p :: 0 <= o < p < n && Inverts(maps[o], d) && Inverts(maps[p], d))
  }

  method GetOneToOneInputDimensions(maps: seq<OutputMap>) returns (oneToOne: set<nat>)
    ensures forall d: nat :: d in oneToOne <==> OneToOne(maps, d)
  {
    var seen: set<nat>, notOneToOne: set<nat> := {}, {};
    for o := 0 to |maps|
      invariant forall d: nat :: d in seen <==> Seen(maps, o, d)
      invariant forall d: nat :: d in notOneToOne <==> Spoiled(maps, o, d)
    {
      match maps[o]
      case Constant =>
      case SingleInputDimension(inputDim, _, stride) =>
        if stride == INT64_MIN || inputDim in seen {
          notOneToOne := notOneToOne + {inputDim};
        }
        if stride != INT64_MIN {
          seen := seen + {inputDim};
        }
      case IndexArray(inputDims) =>
        notOneToOne := notOneToOne + inputDims;
      forall d: nat
        ensures Seen(maps, o + 1, d) <==> Seen(maps, o, d) || Inverts(maps[o], d)
        ensures Spoiled(maps, o + 1, d) <==>
                Spoiled(maps, o, d) || (Uses(maps[o], d) && (Inverts(maps[o], d) ==> Seen(maps, o, d)))
      {
        OneMoreMap(maps, o, d);
      }
    }
    oneToOne := seen - notOneToOne;
  }

  lemma OneMoreMap(maps: seq<OutputMap>, o: nat, d: nat)
    requires o < |maps|
    ensures Seen(maps, o + 1, d) <==> Seen(maps, o, d) || Inverts(maps[o], d)
    ensures Spoiled(maps, o + 1, d) <==>
            Spoiled(maps, o, d) || (Uses(maps[o], d) && (Inverts(maps[o], d) ==> Seen(maps, o, d)))
  {
  }

  /** An output dimension other than a multiple of input dimension `d` alone. */
  ghost predicate IgnoresDimension(m: OutputMap, d: nat) {
    m.Constant? || (m.SingleInputDimension? && m.inputDim != d) || (m.IndexArray? && d !in m.inputDims)
  }

  /** A one-to-one dimension is the single input of exactly one output dimension, whose stride is not the
      least int64, and no other output dimension depends on it; constraints travel along every output
      dimension that is a nonzero multiple of an input dimension. */
  lemma DimensionsExactly(maps: seq<OutputMap>, d: nat)
    ensures OneToOne(maps, d) <==>
            exists o :: 0 <= o < |maps|
              && maps[o].SingleInputDimension? && maps[o].inputDim == d && maps[o].stride != -0x8000_0000_0000_0000
              && forall p :: 0 <= p < |maps| && p != o ==> IgnoresDimension(maps[p], d)
    ensures Linked(maps, d) <==>
            exists o :: 0 <= o < |maps|
              && maps[o].SingleInputDimension? && maps[o].inputDim == d && maps[o].stride != 0
  {
    assert forall p :: 0 <= p < |maps| ==> (IgnoresDimension(maps[p], d) <==> !Uses(maps[p], d));
    if o :| 0 <= o < |maps| && maps[o].SingleInputDimension? && maps[o].inputDim == d && maps[o].stride != 0 {
      assert Links(maps[o], d);
    }
    if o :| && 0 <= o < |maps| && maps[o].SingleInputDimension? && maps[o].inputDim == d
            && maps[o].stride != -0x8000_0000_0000_0000
            && forall p :: 0 <= p < |maps| && p != o ==> IgnoresDimension(maps[p], d) {
      assert Inverts(maps[o], d);
    }
  }

  /** The two kinds of index constraint that travel with a grid. */
  datatype Traits = GridOrigin | ChunkShape {
    /** The value of a dimension without a constraint. */
    const Unset: int64 := if this.GridOrigin? then INT64_MIN else 0

    /** The constraints that a layout can hold. */
    predicate Holds(value: int64) {
      match this
      case GridOrigin => IsFiniteIndex(value)
      case ChunkShape => value >= -1 && value <= MAX_FINITE && value != 0
    }

    /** What can come back: `-1` grows under a stride. */
    predicate CanPull(value: int64) {
      match this
      case GridOrigin => IsFiniteIndex(value)
      case ChunkShape => value != 0 && value != INT64_MIN
    }

    function Push(value: int64, offset: int64, stride: int64): (r: Option<int64>)
      requires Holds(value) && stride != 0
      ensures r.Some? ==> CanPull(r.value)
    {
      match this
      case GridOrigin => PushOrigin(value, offset, stride)
      case ChunkShape =>
        if PushShape(value, stride).Some? then
          ShapeRoundTrip(value, stride);
          PushShape(value, stride)
        else
          None
    }

    function Pull(value: int64, offset: int64, stride: int64): (r: Option<int64>)
      requires CanPull(value) && stride != 0
    {
      match this
      case GridOrigin => PullOrigin(value, offset, stride)
      case ChunkShape => Some(PullShape(value, stride))
    }
  }

  predicate AllHold(traits: Traits, values: seq<int64>) {
    forall i :: 0 <= i < |values| ==> values[i] == traits.Unset || traits.Holds(values[i])
  }

  predicate AllCanPull(traits: Traits, values: seq<int64>) {
    forall i :: 0 <= i < |values| ==> values[i] == traits.Unset || traits.CanPull(values[i])
  }

  predicate MapFits(m: OutputMap, inputRank: nat) {
    m.SingleInputDimension? ==> m.inputDim < inputRank
  }

  predicate MapsFit(maps: seq<OutputMap>, inputRank: nat) {
    forall o :: 0 <= o < |maps| ==> MapFits(maps[o], inputRank)
  }

  /** What one output dimension receives; an error if the constraint cannot be expressed there. */
  function PushOne(traits: Traits, m: OutputMap, input: seq<int64>): (r: Option<int64>)
    requires AllHold(traits, input) && MapFits(m, |input|)
    ensures r.Some? ==> r.value == traits.Unset || traits.CanPull(r.value)
  {
    if !m.SingleInputDimension? || m.stride == 0 || input[m.inputDim] == traits.Unset then Some(traits.Unset)
    else traits.Push(input[m.inputDim], m.offset, m.stride)
  }

  ghost predicate Linked(maps: seq<OutputMap>, d: nat) {
    exists o :: 0 <= o < |maps| && Links(maps[o], d)
  }

  ghost predicate Expressible(traits: Traits, maps: seq<OutputMap>, input: seq<int64>)
    requires AllHold(traits, input) && MapsFit(maps, |input|)
  {
    forall o :: 0 <= o < |maps| ==> PushOne(traits, maps[o], input).Some?
  }

  ghost function Pushed(traits: Traits, maps: seq<OutputMap>, input: seq<int64>): (r: seq<int64>)
    requires AllHold(traits, input) && MapsFit(maps, |input|) && Expressible(traits, maps, input)
    ensures |r| == |maps| && AllCanPull(traits, r)
    ensures forall o :: 0 <= o < |maps| ==> Some(r[o]) == PushOne(traits, maps[o], input)
  {
    seq(|maps|, o requires 0 <= o < |maps| => PushOne(traits, maps[o], input).value)
  }

  ghost predicate IsPushedHard(traits: Traits, maps: seq<OutputMap>, input: seq<int64>, hard: set<nat>, o: nat)
    requires AllHold(traits, input) && MapsFit(maps, |input|) && Expressible(traits, maps, input)
  {
    o < |maps| && Pushed(traits, maps, input)[o] != traits.Unset && maps[o].inputDim in hard
  }

  /** A hard constraint on an input dimension that no output dimension is linked to is an error, as
      far as the vector that is read back still shows a constraint there. */
  ghost predicate Accepts(traits: Traits, maps: seq<OutputMap>, input: seq<int64>, hard: set<nat>, readBack: seq<int64>)
    requires AllHold(traits, input) && MapsFit(maps, |input|) && |readBack| == |input|
  {
    && Expressible(traits, maps, input)
    && forall d: nat :: d < |input| && d in hard && !Linked(maps, d) ==> readBack[d] == traits.Unset
  }

  /** Propagates constraints from input to output dimensions. The two vectors may be one array:
      `ApplyInverseIndexTransform` reuses the storage when the ranks agree, and then the last check
      reads the new output values. */
  method TransformInputVector(traits: Traits, maps: seq<OutputMap>, inVec: array<int64>, inHard: set<nat>,
                              outVec: array<int64>)
    returns (ok: bool, outHard: set<nat>)
    requires AllHold(traits, inVec[..]) && MapsFit(maps, inVec.Length) && |maps| == outVec.Length
    modifies outVec
    ensures inVec != outVec ==> inVec[..] == old(inVec[..])
    ensures ok <==> Accepts(traits, maps, old(inVec[..]), inHard, inVec[..])
    ensures ok ==> outVec[..] == Pushed(traits, maps, old(inVec[..]))
    ensures ok ==> forall o: nat :: o in outHard <==> IsPushedHard(traits, maps, old(inVec[..]), inHard, o)
  {
    var inVecCopy := inVec[..];
    Fill(outVec, traits.Unset);
    var remaining;
    ok, outHard, remaining := PushAll(traits, maps, inVecCopy, inHard, outVec);
    if ok {
      ok := AllAreUnset(traits, inVec, remaining);
    }
  }

  /** Writes what each output dimension receives, and returns the hard dimensions without a link. */
  method PushAll(traits: Traits, maps: seq<OutputMap>, input: seq<int64>, inHard: set<nat>, outVec: array<int64>)
    returns (ok: bool, outHard: set<nat>, remaining: set<nat>)
    requires AllHold(traits, input) && MapsFit(maps, |input|) && |maps| == outVec.Length
    requires forall o :: 0 <= o < |maps| ==> outVec[o] == traits.Unset
    modifies outVec
    ensures ok <==> Expressible(traits, maps, input)
    ensures ok ==> outVec[..] == Pushed(traits, maps, input)
    ensures ok ==> forall o: nat :: o in outHard <==> IsPushedHard(traits, maps, input, inHard, o)
    ensures ok ==> forall d: nat :: d in remaining <==> d in inHard && !Linked(maps, d)
  {
    outHard, remaining := {}, inHard;
    for o := 0 to |maps|
      invariant forall p :: 0 <= p < o ==> Some(outVec[p]) == PushOne(traits, maps[p], input)
      invariant forall p :: o <= p < |maps| ==> outVec[p] == traits.Unset
      invariant forall p: nat :: p in outHard <==> p < o && outVec[p] != traits.Unset && maps[p].inputDim in inHard
      invariant forall d: nat :: d in remaining <==> d in inHard && !Linked(maps[..o], d)
    {
      var m := maps[o];
      assert MapFits(m, |input|);
      if m.SingleInputDimension? && m.stride != 0 {
        remaining := remaining - {m.inputDim};
        var value := input[m.inputDim];
        if value != traits.Unset {
          var pushed := traits.Push(value, m.offset, m.stride);
          if pushed.None? {
            assert PushOne(traits, maps[o], input).None?;
            assert !Expressible(traits, maps, input);
            return false, outHard, remaining;
          }
          outVec[o] := pushed.value;
          if m.inputDim in inHard && pushed.value != traits.Unset {
            outHard := outHard + {o};
          }
        }
      }
      OneMoreLink(maps, o);
    }
    assert maps[..|maps|] == maps;
    assert Expressible(traits, maps, input);
    ok := true;
  }

  method Fill(a: array<int64>, value: int64)
    modifies a
    ensures forall i :: 0 <= i < a.Length ==> a[i] == value
  {
    for i := 0 to a.Length
      invariant forall j :: 0 <= j < i ==> a[j] == value
    {
      a[i] := value;
    }
  }

  /** No dimension among the remaining ones has a constraint. */
  method AllAreUnset(traits: Traits, inVec: array<int64>, remaining: set<nat>) returns (ok: bool)
    ensures ok <==> forall d: nat :: d < inVec.Length && d in remaining ==> inVec[d] == traits.Unset
  {
    for d := 0 to inVec.Length
      invariant forall e: nat :: e < d && e in remaining ==> inVec[e] == traits.Unset
    {
      if inVec[d] != traits.Unset && d in remaining {
        return false;
      }
    }
    return true;
  }

  lemma OneMoreLink(maps: seq<OutputMap>, o: nat)
    requires o < |maps|
    ensures forall d: nat :: Linked(maps[..o + 1], d) <==> Linked(maps[..o], d) || Links(maps[o], d)
  {
    forall d: nat
      ensures Linked(maps[..o + 1], d) <==> Linked(maps[..o], d) || Links(maps[o], d)
    {
      if p :| 0 <= p < o && Links(maps[p], d) {
        assert Links(maps[..o][p], d) && Links(maps[..o + 1][p], d);
      }
      if Links(maps[o], d) {
        assert Links(maps[..o + 1][o], d);
      }
    }
  }

  /** Between two vectors, exactly the requests all of whose hard constraints arrive are accepted. */
  lemma SeparateVectorsKeepHardConstraints(traits: Traits, maps: seq<OutputMap>, input: seq<int64>, hard: set<nat>)
    requires AllHold(traits, input) && MapsFit(maps, |input|)
    requires forall d :: d in hard ==> d < |input| && input[d] != traits.Unset
    ensures Accepts(traits, maps, input, hard, input) <==>
            && Expressible(traits, maps, input)
            && forall d :: d in hard ==>
                 exists o: nat :: && o < |maps| && maps[o].SingleInputDimension? && maps[o].inputDim == d
                                  && IsPushedHard(traits, maps, input, hard, o)
  {
    if Expressible(traits, maps, input) {
      forall o: nat, d: nat | o < |maps| && Links(maps[o], d) && d in hard
        ensures IsPushedHard(traits, maps, input, hard, o)
      {
        PushKeepsConstraint(traits, maps[o], input);
      }
    }
  }

  lemma PushKeepsConstraint(traits: Traits, m: OutputMap, input: seq<int64>)
    requires AllHold(traits, input) && MapFits(m, |input|)
    ensures PushOne(traits, m, input) != Some(traits.Unset) <==>
            m.SingleInputDimension? && m.stride != 0 && input[m.inputDim] != traits.Unset
  {
  }

  /** In one shared vector, a hard constraint gets lost without an error exactly when no output
      dimension is linked to it and no unlinked hard dimension happens to receive a constraint. */
  lemma SharedVectorLosesHardConstraints(traits: Traits, maps: seq<OutputMap>, input: seq<int64>, hard: set<nat>)
    requires AllHold(traits, input) && MapsFit(maps, |input|) && |maps| == |input|
    requires forall d :: d in hard ==> d < |input| && input[d] != traits.Unset
    requires Expressible(traits, maps, input)
    ensures && Accepts(traits, maps, input, hard, Pushed(traits, maps, input))
            && !Accepts(traits, maps, input, hard, input)
            <==>
            && (exists d :: d in hard && !Linked(maps, d))
            && (forall d :: d in hard && !Linked(maps, d) ==>
                  maps[d].SingleInputDimension? && maps[d].stride != 0 ==> input[maps[d].inputDim] == traits.Unset)
  {
    forall d | d in hard && !Linked(maps, d) {
      PushKeepsConstraint(traits, maps[d], input);
    }
  }

  /** A hard chunk size of a dimension that the transform drops: refused, or lost. */
  lemma SharedVectorExample()
    ensures var maps, input := [OutputMap.Constant], [64];
            && Expressible(ChunkShape, maps, input)
            && !Accepts(ChunkShape, maps, input, {0}, input)
            && Accepts(ChunkShape, maps, input, {0}, Pushed(ChunkShape, maps, input))
  {
    var maps, input: seq<int64> := [OutputMap.Constant], [64];
    assert !Linked(maps, 0);
    assert PushOne(ChunkShape, maps[0], input) == Some(0);
    assert Expressible(ChunkShape, maps, input);
  }

  /** What is written for an output dimension: the scaled origin plus the offset, where a negative stride
      scales the index before the origin, or the size times the magnitude of the stride. A dimension that is
      linked to no constraint is left without one. */
  lemma PushedValues(maps: seq<OutputMap>, origins: seq<int64>, sizes: seq<int64>, o: nat)
    requires AllHold(GridOrigin, origins) && AllHold(ChunkShape, sizes) && |origins| == |sizes|
    requires MapsFit(maps, |origins|) && o < |maps|
    ensures var m := maps[o];
            var origin, size := PushOne(GridOrigin, m, origins), PushOne(ChunkShape, m, sizes);
            if m.SingleInputDimension? && m.stride != 0 then
              var x, y, stride := origins[m.inputDim] as int, sizes[m.inputDim] as int, m.stride as int;
              var scaled := if stride > 0 then stride * x else stride * (x - 1);
              var scaledSize := if stride > 0 then stride * y else -stride * y;
              && (if x == -0x8000_0000_0000_0000 then origin == Some(INT64_MIN)
                  else if Fits(scaled) && IsFinite(scaled + m.offset as int) then
                    origin.Some? && origin.value as int == scaled + m.offset as int
                  else origin.None?)
              && (if y == 0 then size == Some(0)
                  else if INT64_MIN as int <= scaledSize <= MAX_FINITE as int && m.stride != INT64_MIN then
                    size.Some? && size.value as int == scaledSize
                  else size.None?)
            else origin == Some(INT64_MIN) && size == Some(0)
  {
    var m := maps[o];
    assert MapFits(m, |origins|);
    if m.SingleInputDimension? && sizes[m.inputDim] != 0 {
      MulNegate(m.stride as int, sizes[m.inputDim] as int);
    }
  }

  /** The chunk of an image in the pushed grid is the chunk of the index, counted in the direction of the
      stride. */
  lemma PushedChunk(origin: int, size: int, offset: int, stride: int, x: int)
    requires size > 0 && stride != 0 && Abs(stride) * size > 0
    ensures var pushed := stride * BeforeScaling(origin, stride) + offset;
            var m := ChunkOf(origin, size, x);
            ChunkOf(pushed, Abs(stride) * size, offset + x * stride) == if stride > 0 then m else -m - 1
  {
    var t, m := Abs(stride), FloorDiv(x - origin, size);
    var pushed := stride * BeforeScaling(origin, stride) + offset;
    var n := offset + x * stride - pushed;
    FloorBounds(x - origin, size);
    if stride > 0 {
      assert n == t * (x - origin);
      ScaledFloor(m, x - origin, size, t);
      FloorIsUnique(m, n, t * size);
    } else {
      assert n == t * (origin - 1 - x);
      ScaledFloor(-m - 1, origin - 1 - x, size, t);
      FloorIsUnique(-m - 1, n, t * size);
    }
  }

  lemma ScaledFloor(q: int, n: int, d: int, t: int)
    requires t > 0 && d > 0 && q * d <= n < q * d + d
    ensures q * (t * d) <= t * n < q * (t * d) + t * d
  {
    MulMonotone(q * d, n, t);
    MulMonotone(n + 1, q * d + d, t);
    assert q * (t * d) == (q * d) * t && (q * d + d) * t == q * (t * d) + t * d;
  }

  // ----- Pulling vectors back --------------------------------------------------------------------

  predicate SendsBack(m: OutputMap, oneToOne: set<nat>) {
    m.SingleInputDimension? && m.stride != 0 && m.inputDim in oneToOne
  }

  /** The constraint that an output dimension sends back; an error if it cannot be expressed. */
  function PullOne(traits: Traits, m: OutputMap, oneToOne: set<nat>, value: int64): Option<int64>
    requires value == traits.Unset || traits.CanPull(value)
  {
    if !SendsBack(m, oneToOne) || value == traits.Unset then Some(traits.Unset)
    else traits.Pull(value, m.offset, m.stride)
  }

  /** The input values are what the linked one-to-one output dimensions send back; all others are unset. */
  ghost predicate ArePulled(traits: Traits, maps: seq<OutputMap>, oneToOne: set<nat>,
                            output: seq<int64>, input: seq<int64>)
    requires |output| == |maps| && AllCanPull(traits, output) && MapsFit(maps, |input|)
  {
    && (forall o :: 0 <= o < |maps| && SendsBack(maps[o], oneToOne) ==>
          Some(input[maps[o].inputDim]) == PullOne(traits, maps[o], oneToOne, output[o]))
    && (forall d: nat :: d < |input| && (d !in oneToOne || !Linked(maps, d)) ==> input[d] == traits.Unset)
  }

  /** Propagates constraints from output to input dimensions, along one-to-one dimensions only. */
  method TransformOutputVector(traits: Traits, maps: seq<OutputMap>, oneToOne: set<nat>, outVec: array<int64>,
                               outHard: set<nat>, inVec: array<int64>)
    returns (ok: bool, inHard: set<nat>)
    requires forall d: nat :: d in oneToOne <==> OneToOne(maps, d)
    requires AllCanPull(traits, outVec[..]) && MapsFit(maps, inVec.Length) && |maps| == outVec.Length
    modifies inVec
    ensures ok <==> forall o :: 0 <= o < |maps| ==> PullOne(traits, maps[o], oneToOne, old(outVec[o])).Some?
    ensures ok ==> ArePulled(traits, maps, oneToOne, old(outVec[..]), inVec[..])
    ensures ok ==> forall o :: 0 <= o < |maps| && SendsBack(maps[o], oneToOne) ==>
                     (maps[o].inputDim in inHard <==> inVec[maps[o].inputDim] != traits.Unset && o in outHard)
    ensures ok ==> forall d: nat :: d < inVec.Length && (d !in oneToOne || !Linked(maps, d)) ==> d !in inHard
  {
    ghost var output := outVec[..];
    var outVecCopy := outVec[..];
    Fill(inVec, traits.Unset);
    inHard := {};
    for o := 0 to |maps|
      invariant forall p :: 0 <= p < o ==> PullOne(traits, maps[p], oneToOne, output[p]).Some?
      invariant forall p :: 0 <= p < o && SendsBack(maps[p], oneToOne) ==>
                  && Some(inVec[maps[p].inputDim]) == PullOne(traits, maps[p], oneToOne, output[p])
                  && (maps[p].inputDim in inHard <==> inVec[maps[p].inputDim] != traits.Unset && p in outHard)
      invariant forall d: nat :: d < inVec.Length && (d !in oneToOne || !Linked(maps[..o], d)) ==>
                  inVec[d] == traits.Unset && d !in inHard
    {
      var m := maps[o];
      OneMoreLink(maps, o);
      if SendsBack(m, oneToOne) {
        OnlyOneLink(maps, m.inputDim, o);
        var value := outVecCopy[o];
        if value != traits.Unset {
          var pulled := traits.Pull(value, m.offset, m.stride);
          if pulled.None? {
            return false, inHard;
          }
          inVec[m.inputDim] := pulled.value;
          if pulled.value != traits.Unset {
            inHard := if o in outHard then inHard + {m.inputDim} else inHard - {m.inputDim};
          }
        }
      }
    }
    assert maps[..|maps|] == maps;
    ok := true;
  }

  /** What arrives in a one-to-one dimension: the difference of origin and offset, divided by the stride and
      rounded up, where a negative stride divides the index before; or the size divided by its greatest
      common divisor with the stride. */
  lemma PulledValues(maps: seq<OutputMap>, oneToOne: set<nat>, outOrigin: seq<int64>, outShape: seq<int64>,
                     inOrigin: seq<int64>, inShape: seq<int64>, o: nat)
    requires |outOrigin| == |outShape| == |maps| && |inOrigin| == |inShape| && MapsFit(maps, |inOrigin|)
    requires AllCanPull(GridOrigin, outOrigin) && AllCanPull(ChunkShape, outShape) && o < |maps|
    requires maps[o].SingleInputDimension? && maps[o].stride != 0 && maps[o].inputDim in oneToOne
    ensures var m := maps[o];
            var value, size, stride := outOrigin[o] as int, outShape[o] as int, m.stride as int;
            && (ArePulled(GridOrigin, maps, oneToOne, outOrigin, inOrigin) ==>
                  if outOrigin[o] == INT64_MIN then inOrigin[m.inputDim] == INT64_MIN
                  else inOrigin[m.inputDim] as int ==
                       CeilDiv((if stride > 0 then value else value - 1) - m.offset as int, stride))
            && (PullOne(GridOrigin, m, oneToOne, outOrigin[o]).None? <==>
                  outOrigin[o] != INT64_MIN && !IsFinite(value - m.offset as int))
            && (ArePulled(ChunkShape, maps, oneToOne, outShape, inShape) ==>
                  if size == 0 then inShape[m.inputDim] == 0
                  else var g := Gcd(Abs(stride), Abs(size));
                       inShape[m.inputDim] as int == if size > 0 then size / g else -(-size / g))
            && PullOne(ChunkShape, m, oneToOne, outShape[o]).Some?
  {
    var m := maps[o];
    assert SendsBack(m, oneToOne);
  }

  lemma OnlyOneLink(maps: seq<OutputMap>, d: nat, o: nat)
    requires OneToOne(maps, d) && o < |maps| && Links(maps[o], d)
    ensures Inverts(maps[o], d)
    ensures forall p :: 0 <= p < |maps| && p != o ==> !Links(maps[p], d)
    ensures !Linked(maps[..o], d)
  {
  }

  /** A constraint that is pushed forward along a one-to-one dimension and pulled back is found
      again; an origin only if its scaled value is a finite index. */
  lemma VectorRoundTrip(traits: Traits, maps: seq<OutputMap>, oneToOne: set<nat>, input: seq<int64>, o: nat)
    requires AllHold(traits, input) && MapsFit(maps, |input|) && Expressible(traits, maps, input)
    requires forall d: nat :: d in oneToOne <==> OneToOne(maps, d)
    requires o < |maps| && SendsBack(maps[o], oneToOne)
    ensures var m := maps[o];
            var x := input[m.inputDim];
            PullOne(traits, m, oneToOne, Pushed(traits, maps, input)[o]) ==
            if && traits.GridOrigin? && x != traits.Unset
               && !IsFinite(m.stride as int * BeforeScaling(x as int, m.stride as int))
            then None else Some(x)
  {
    var m := maps[o];
    var x := input[m.inputDim];
    PushKeepsConstraint(traits, m, input);
    if x != traits.Unset {
      match traits
      case GridOrigin => OriginRoundTrip(x, m.offset, m.stride);
      case ChunkShape => ShapeRoundTrip(x, m.stride);
    }
  }

  /** The images of `x` and `y` share a chunk in every output dimension that has an origin and a size. */
  ghost predicate ImagesShareChunk(maps: seq<OutputMap>, origins: seq<int64>, sizes: seq<int64>,
                                   x: seq<int>, y: seq<int>)
    requires |origins| == |sizes| == |maps| && |x| == |y| && MapsFit(maps, |x|)
  {
    forall o :: 0 <= o < |maps| && maps[o].SingleInputDimension? && origins[o] != GridOrigin.Unset && sizes[o] > 0 ==>
      SameChunk(origins[o], sizes[o], Image(maps[o], x), Image(maps[o], y))
  }

  ghost function Image(m: OutputMap, x: seq<int>): int
    requires m.SingleInputDimension? && m.inputDim < |x|
  {
    m.offset as int + x[m.inputDim] * m.stride as int
  }

  ghost predicate SameChunk(origin: int64, size: int64, p: int, q: int)
    requires size > 0
  {
    ChunkOf(origin as int, size as int, p) == ChunkOf(origin as int, size as int, q)
  }

  /** The pushed origin and shape neither split nor join chunks: in every output dimension that is linked
      to an origin and a size, the images of two index vectors share a chunk exactly if the vectors do. */
  lemma PushedGridKeepsChunks(maps: seq<OutputMap>, origins: seq<int64>, sizes: seq<int64>,
                              x: seq<int>, y: seq<int>, o: nat)
    requires AllHold(GridOrigin, origins) && AllHold(ChunkShape, sizes) && |origins| == |sizes| == |x| == |y|
    requires MapsFit(maps, |x|) && Expressible(GridOrigin, maps, origins) && Expressible(ChunkShape, maps, sizes)
    requires o < |maps| && maps[o].SingleInputDimension? && maps[o].stride != 0
    requires origins[maps[o].inputDim] != GridOrigin.Unset && sizes[maps[o].inputDim] > 0
    ensures var origin, size := Pushed(GridOrigin, maps, origins)[o], Pushed(ChunkShape, maps, sizes)[o];
            var d := maps[o].inputDim;
            && size > 0
            && (SameChunk(origin, size, Image(maps[o], x), Image(maps[o], y)) <==>
                SameChunk(origins[d], sizes[d], x[d], y[d]))
  {
    var m := maps[o];
    var d, stride := m.inputDim, m.stride as int;
    MulMonotone(1, Abs(stride), sizes[d] as int);
    PushedChunk(origins[d] as int, sizes[d] as int, m.offset as int, stride, x[d]);
    PushedChunk(origins[d] as int, sizes[d] as int, m.offset as int, stride, y[d]);
  }

  /** The pulled origin and shape split no output chunk: if the images of two index vectors share an
      output chunk, then the vectors share an input chunk in every input dimension whose pulled
      origin and size are both set. */
  lemma PulledGridSplitsNoChunk(maps: seq<OutputMap>, oneToOne: set<nat>, outOrigin: seq<int64>, outShape: seq<int64>,
                                inOrigin: seq<int64>, inShape: seq<int64>, x: seq<int>, y: seq<int>)
    requires |outOrigin| == |outShape| == |maps| && |inOrigin| == |inShape| == |x| == |y| && MapsFit(maps, |x|)
    requires AllCanPull(GridOrigin, outOrigin) && AllCanPull(ChunkShape, outShape)
    requires ArePulled(GridOrigin, maps, oneToOne, outOrigin, inOrigin)
    requires ArePulled(ChunkShape, maps, oneToOne, outShape, inShape)
    requires ImagesShareChunk(maps, outOrigin, outShape, x, y)
    ensures forall d :: 0 <= d < |x| && inOrigin[d] != GridOrigin.Unset && inShape[d] > 0 ==>
      SameChunk(inOrigin[d], inShape[d], x[d], y[d])
  {
    forall d: nat | d < |x| && inOrigin[d] != GridOrigin.Unset && inShape[d] > 0
      ensures SameChunk(inOrigin[d], inShape[d], x[d], y[d])
    {
      assert d in oneToOne && Linked(maps, d);
      var o :| 0 <= o < |maps| && Links(maps[o], d);
      assert SendsBack(maps[o], oneToOne);
      PulledConstraints(maps[o], oneToOne, outOrigin[o], outShape[o], inOrigin[d], inShape[d]);
      NoChunkIsSplit(outOrigin[o] as int, outShape[o] as int, maps[o].offset as int, maps[o].stride as int, x[d], y[d]);
    }
  }

  lemma PulledConstraints(m: OutputMap, oneToOne: set<nat>, outOrigin: int64, outSize: int64,
                          inOrigin: int64, inSize: int64)
    requires SendsBack(m, oneToOne)
    requires outOrigin == GridOrigin.Unset || GridOrigin.CanPull(outOrigin)
    requires outSize == ChunkShape.Unset || ChunkShape.CanPull(outSize)
    requires Some(inOrigin) == PullOne(GridOrigin, m, oneToOne, outOrigin) && inOrigin != GridOrigin.Unset
    requires Some(inSize) == PullOne(ChunkShape, m, oneToOne, outSize) && inSize > 0
    ensures outOrigin != GridOrigin.Unset && outSize > 0
    ensures inOrigin as int == PulledOrigin(outOrigin as int, m.offset as int, m.stride as int)
    ensures inSize as int == PulledShape(outSize as int, m.stride as int)
  {
    if outSize < 0 {
      PulledShapeFits(-(outSize as int), m.stride as int);
    }
  }
}
