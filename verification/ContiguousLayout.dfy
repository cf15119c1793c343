/** Contiguous layouts: offsets of index vectors, strides from a permutation, and a permutation
    recovered from strides (tensorstore/contiguous_layout.h and tensorstore/contiguous_layout.cc). */
module ContiguousLayouts {
  import opened Int64
  import opened Graph

  datatype Order = C | Fortran

  const MAX_RANK := 32

  // ----- Index vectors and offsets ---------------------------------------------------

  function Product(shape: seq<int>): int {
    if shape == [] then 1 else Product(shape[..|shape| - 1]) * shape[|shape| - 1]
  }

  ghost predicate Positive(shape: seq<int>) {
    forall i :: 0 <= i < |shape| ==> shape[i] > 0
  }

  ghost predicate InBounds(indices: seq<int>, shape: seq<int>) {
    |indices| == |shape| && forall i :: 0 <= i < |shape| ==> 0 <= indices[i] < shape[i]
  }

  /** The offset of an index vector whose last index varies fastest. */
  ghost function Offset(shape: seq<int>, indices: seq<int>): int
    requires |shape| == |indices|
  {
    if shape == [] then 0
    else
      var n := |shape| - 1;
      Offset(shape[..n], indices[..n]) * shape[n] + indices[n]
  }

  /** The index vector with a given offset. */
  ghost function Indices(shape: seq<int>, offset: int): (r: seq<int>)
    requires Positive(shape)
    ensures |r| == |shape|
  {
    if shape == [] then []
    else
      var n := |shape| - 1;
      Indices(shape[..n], offset / shape[n]) + [offset % shape[n]]
  }

  lemma {:induction false} ProductIsPositive(shape: seq<int>)
    requires Positive(shape)
    ensures Product(shape) >= 1
  {
    if shape != [] {
      var n := |shape| - 1;
      ProductIsPositive(shape[..n]);
      MulMonotone(1, shape[n], Product(shape[..n]));
    }
  }

  lemma {:induction false} OffsetInRange(shape: seq<int>, indices: seq<int>)
    requires InBounds(indices, shape)
    ensures 0 <= Offset(shape, indices) < Product(shape)
  {
    if shape != [] {
      var n := |shape| - 1;
      OffsetInRange(shape[..n], indices[..n]);
      MulMonotone(0, Offset(shape[..n], indices[..n]), shape[n]);
      MulMonotone(Offset(shape[..n], indices[..n]) + 1, Product(shape[..n]), shape[n]);
      MulSuccessor(Offset(shape[..n], indices[..n]), shape[n]);
    }
  }

  /** The index vector of the offset of an index vector is the vector itself ... */
  lemma {:induction false} IndicesOfOffset(shape: seq<int>, indices: seq<int>)
    requires Positive(shape) && InBounds(indices, shape)
    ensures Indices(shape, Offset(shape, indices)) == indices
  {
    if shape != [] {
      var n := |shape| - 1;
      var high := Offset(shape[..n], indices[..n]);
      IndicesOfOffset(shape[..n], indices[..n]);
      QuotientAndRemainder(high, indices[n], shape[n]);
      assert indices == indices[..n] + [indices[n]];
    }
  }

  /** ... and every offset below the number of elements is the offset of its index vector. */
  lemma {:induction false} OffsetOfIndices(shape: seq<int>, offset: int)
    requires Positive(shape) && 0 <= offset < Product(shape)
    ensures InBounds(Indices(shape, offset), shape)
    ensures Offset(shape, Indices(shape, offset)) == offset
  {
    if shape != [] {
      var n := |shape| - 1;
      LastIndex(shape, offset);
      OffsetOfIndices(shape[..n], offset / shape[n]);
    }
  }

  lemma LastIndex(shape: seq<int>, offset: int)
    requires shape != [] && Positive(shape) && 0 <= offset < Product(shape)
    ensures var n := |shape| - 1;
            var q, r, x := offset / shape[n], offset % shape[n], Indices(shape, offset);
            && 0 <= q < Product(shape[..n]) && 0 <= r < shape[n] && q * shape[n] + r == offset
            && x[..n] == Indices(shape[..n], q) && x[n] == r
  {
    var n := |shape| - 1;
    DivMod(offset, shape[n]);
    QuotientBelow(offset, Product(shape[..n]), shape[n]);
    assert Indices(shape, offset) == Indices(shape[..n], offset / shape[n]) + [offset % shape[n]];
  }

  lemma QuotientAndRemainder(q: int, r: int, d: int)
    requires 0 <= r < d
    ensures (q * d + r) / d == q && (q * d + r) % d == r
  {
    FloorIsUnique(q, q * d + r, d);
    DivMod(q * d + r, d);
  }

  lemma QuotientBelow(n: int, bound: int, d: int)
    requires 0 <= n < bound * d && d > 0
    ensures 0 <= n / d < bound
  {
    FloorIsGreatest(bound, n, d);
    FloorIsGreatest(0, n, d);
  }

  /** `a` comes before `b` in lexicographic order. */
  ghost predicate Before(a: seq<int>, b: seq<int>)
    requires |a| == |b|
  {
    exists k :: 0 <= k < |a| && a[..k] == b[..k] && a[k] < b[k]
  }

  /** Offsets order the index vectors lexicographically. */
  lemma {:induction false} OffsetIsRank(shape: seq<int>, a: seq<int>, b: seq<int>)
    requires InBounds(a, shape) && InBounds(b, shape) && Before(a, b)
    ensures Offset(shape, a) < Offset(shape, b)
  {
    var n := |shape| - 1;
    var k :| 0 <= k < |a| && a[..k] == b[..k] && a[k] < b[k];
    if k < n {
      assert a[..n][..k] == b[..n][..k];
      OffsetIsRank(shape[..n], a[..n], b[..n]);
      MulMonotone(Offset(shape[..n], a[..n]) + 1, Offset(shape[..n], b[..n]), shape[n]);
      MulSuccessor(Offset(shape[..n], a[..n]), shape[n]);
    }
  }

  function Reversed<T>(s: seq<T>): (r: seq<T>)
    ensures |r| == |s| && forall i :: 0 <= i < |s| ==> r[i] == s[|s| - 1 - i]
  {
    seq(|s|, i requires 0 <= i < |s| => s[|s| - 1 - i])
  }

  /** The dimensions from the slowest varying to the fastest. */
  function Visited<T>(order: Order, s: seq<T>): (r: seq<T>)
    ensures |r| == |s|
  {
    if order.C? then s else Reversed(s)
  }

  /** In C order the first index that differs decides between two index vectors, in Fortran order the last. */
  ghost predicate Precedes(order: Order, a: seq<int>, b: seq<int>)
    requires |a| == |b|
  {
    exists k: nat :: k < |a| && a[k] < b[k] && AgreesBefore(order, a, b, k)
  }

  ghost predicate AgreesBefore(order: Order, a: seq<int>, b: seq<int>, k: nat)
    requires |a| == |b| && k < |a|
  {
    match order
    case C => forall i :: 0 <= i < k ==> a[i] == b[i]
    case Fortran => forall i :: k < i < |a| ==> a[i] == b[i]
  }

  lemma VisitedPrecedes(order: Order, a: seq<int>, b: seq<int>)
    requires |a| == |b| && Precedes(order, a, b)
    ensures Before(Visited(order, a), Visited(order, b))
  {
    var k: nat :| k < |a| && a[k] < b[k] && AgreesBefore(order, a, b, k);
    if order.Fortran? {
      ReversedPrecedes(a, b, k);
    } else {
      assert a[..k] == b[..k];
    }
  }

  lemma ReversedPrecedes(a: seq<int>, b: seq<int>, k: nat)
    requires k < |a| == |b| && a[k] < b[k] && forall i :: k < i < |a| ==> a[i] == b[i]
    ensures Before(Reversed(a), Reversed(b))
  {
    var x, y, j := Reversed(a), Reversed(b), |a| - 1 - k;
    forall i | 0 <= i < j
      ensures x[i] == y[i]
    {
      assert a[|a| - 1 - i] == b[|a| - 1 - i];
    }
    assert x[..j] == y[..j];
    assert x[j] < y[j];
  }

  lemma VisitedInBounds(order: Order, shape: seq<int>, a: seq<int>)
    requires InBounds(a, shape)
    ensures InBounds(Visited(order, a), Visited(order, shape))
  {
  }

  /** So offsets rank the index vectors of a shape from 0 on, in that order. */
  lemma OffsetIsRankInOrder(order: Order, shape: seq<int>, a: seq<int>, b: seq<int>)
    requires InBounds(a, shape) && InBounds(b, shape) && Precedes(order, a, b)
    ensures var s := Visited(order, shape);
            0 <= Offset(s, Visited(order, a)) < Offset(s, Visited(order, b)) < Product(s)
  {
    var s, x, y := Visited(order, shape), Visited(order, a), Visited(order, b);
    VisitedInBounds(order, shape, a);
    VisitedInBounds(order, shape, b);
    VisitedPrecedes(order, a, b);
    OffsetIsRank(s, x, y);
    OffsetInRange(s, x);
    OffsetInRange(s, y);
  }

  lemma {:induction false} PrefixProductFits(shape: seq<int>, k: nat)
    requires Positive(shape) && k <= |shape|
    ensures 1 <= Product(shape[..k]) <= Product(shape)
  {
    ProductIsPositive(shape[..k]);
    if k == |shape| {
      assert shape[..k] == shape;
    } else {
      var n := |shape| - 1;
      PrefixProductFits(shape[..n], k);
      assert shape[..n][..k] == shape[..k];
      MulMonotone(1, shape[n], Product(shape[..n]));
    }
  }

  /** One step of the loop, which fits in int64. */
  lemma OffsetStep(s: seq<int>, x: seq<int>, k: nat, offset: int, extent: int, index: int)
    requires k < |s| && Positive(s) && InBounds(x, s) && Fits(Product(s))
    requires offset == Offset(s[..k], x[..k]) && extent == s[k] && index == x[k]
    ensures offset * extent + index == Offset(s[..k + 1], x[..k + 1])
    ensures Fits(offset * extent + index)
  {
    assert s[..k + 1][..k] == s[..k] && x[..k + 1][..k] == x[..k];
    OffsetInRange(s[..k + 1], x[..k + 1]);
    PrefixProductFits(s, k + 1);
  }

  /** The offset of an index vector; it fits in int64 at every step if the element count does. */
  method GetContiguousOffset(order: Order, shape: seq<int>, indices: seq<int>) returns (offset: int)
    requires InBounds(indices, shape) && Fits(Product(Visited(order, shape)))
    ensures offset == Offset(Visited(order, shape), Visited(order, indices))
    ensures 0 <= offset < Product(Visited(order, shape))
  {
    ghost var s, x := Visited(order, shape), Visited(order, indices);
    assert Positive(s) && InBounds(x, s);
    offset := 0;
    for k := 0 to |indices|
      invariant offset == Offset(s[..k], x[..k])
    {
      var i := if order.C? then k else |indices| - 1 - k;
      OffsetStep(s, x, k, offset, shape[i], indices[i]);
      assert Fits(offset * shape[i] + indices[i]);
      offset := offset * shape[i];
      offset := offset + indices[i];
    }
    assert s[..|s|] == s && x[..|x|] == x;
    OffsetInRange(s, x);
  }

  lemma IndicesStep(t: seq<int>, rest: int, done: seq<int>)
    requires t != [] && Positive(t) && 0 <= rest < Product(t)
    ensures var n := |t| - 1;
            && 0 <= rest / t[n] < Product(t[..n])
            && Indices(t, rest) + done == Indices(t[..n], rest / t[n]) + ([rest % t[n]] + done)
  {
    QuotientBelow(rest, Product(t[..|t| - 1]), t[|t| - 1]);
  }

  /** One step of writing the indices: the remaining prefix of the shape loses its last extent. */
  lemma IndicesWritten(s: seq<int>, offset: int, n: nat, rest: int, done: seq<int>)
    requires 0 < n <= |s| && Positive(s) && 0 <= rest < Product(s[..n])
    requires Indices(s, offset) == Indices(s[..n], rest) + done
    ensures 0 <= rest / s[n - 1] < Product(s[..n - 1])
    ensures Indices(s, offset) == Indices(s[..n - 1], rest / s[n - 1]) + ([rest % s[n - 1]] + done)
  {
    IndicesStep(s[..n], rest, done);
    assert s[..n][..n - 1] == s[..n - 1];
  }

  lemma VisitedUpdate(order: Order, a: seq<int>, k: nat, value: int)
    requires k < |a|
    ensures var i := if order.C? then |a| - 1 - k else k;
            Visited(order, a[i := value])[|a| - k - 1..] == [value] + Visited(order, a)[|a| - k..]
  {
    var i, m := if order.C? then |a| - 1 - k else k, |a| - 1 - k;
    var v, w := Visited(order, a), Visited(order, a[i := value]);
    assert w[m] == value;
    assert w[m + 1..] == v[m + 1..] by {
      assert forall j :: m < j < |a| ==> w[j] == v[j];
    }
    assert w[m..] == [w[m]] + w[m + 1..];
  }

  /** All but the first `n` indices of an offset have been found, and `rest` is left to divide. */
  ghost predicate IsDividedDown(s: seq<int>, offset: int, n: nat, rest: int, done: seq<int>)
    requires n <= |s| && Positive(s) && 0 <= offset < Product(s)
  {
    0 <= rest < Product(s[..n]) && Indices(s, offset) == Indices(s[..n], rest) + done
  }

  /** Writes one index, and divides its extent out. */
  method WriteIndex(order: Order, shape: seq<int>, indices: array<int>, k: nat, rest: int, ghost offset: int)
    returns (quotient: int)
    requires Positive(shape) && indices.Length == |shape| && k < |shape| && 0 <= offset < Product(Visited(order, shape))
    requires IsDividedDown(Visited(order, shape), offset, |shape| - k, rest, Visited(order, indices[..])[|shape| - k..])
    modifies indices
    ensures IsDividedDown(Visited(order, shape), offset, |shape| - k - 1, quotient,
                          Visited(order, indices[..])[|shape| - k - 1..])
  {
    var rank := |shape|;
    ghost var s := Visited(order, shape);
    var i := if order.C? then rank - 1 - k else k;
    var size := shape[i];
    assert size == s[rank - k - 1];
    IndicesWritten(s, offset, rank - k, rest, Visited(order, indices[..])[rank - k..]);
    VisitedUpdate(order, indices[..], k, rest % size);
    ghost var updated := indices[..][i := rest % size];
    indices[i] := rest % size;
    assert indices[..] == updated;
    quotient := rest / size;
  }

  /** The index vector of an offset, written in place. */
  method GetContiguousIndices(order: Order, offset: int, shape: seq<int>, indices: array<int>)
    requires Positive(shape) && 0 <= offset < Product(Visited(order, shape)) && indices.Length == |shape|
    modifies indices
    ensures Visited(order, indices[..]) == Indices(Visited(order, shape), offset)
  {
    var rank := |shape|;
    var rest := offset;
    ghost var s := Visited(order, shape);
    assert s[..rank] == s;
    for k := 0 to rank
      invariant IsDividedDown(s, offset, rank - k, rest, Visited(order, indices[..])[rank - k..])
    {
      rest := WriteIndex(order, shape, indices, k, rest, offset);
    }
    assert rest == 0;
  }

  // ----- Permutations ------------------------------------------------------------------

  ghost predicate IsPermutation(p: seq<int>) {
    && (forall i :: 0 <= i < |p| ==> 0 <= p[i] < |p|)
    && (forall i, j :: 0 <= i < j < |p| ==> p[i] != p[j])
  }

  function Below(n: nat): (r: set<int>)
    ensures |r| == n && forall y :: y in r <==> 0 <= y < n
  {
    if n == 0 then {} else Below(n - 1) + {n - 1}
  }

  /** A list of `n` distinct numbers below `n` contains every number below `n`. */
  lemma PermutationCovers(p: seq<int>, x: int)
    requires IsPermutation(p) && 0 <= x < |p|
    ensures x in p
  {
    if x !in p {
      DistinctFits(p, Below(|p|) - {x});
    }
  }

  method IsValidPermutation(permutation: seq<int>) returns (valid: bool)
    ensures valid <==> |permutation| <= 32 && IsPermutation(permutation)
  {
    var seen: set<int> := {};
    var rank := |permutation|;
    if rank > MAX_RANK {
      return false;
    }
    for i := 0 to rank
      invariant forall d :: d in seen <==> d in permutation[..i]
      invariant forall j :: 0 <= j < i ==> 0 <= permutation[j] < rank
      invariant forall j, k :: 0 <= j < k < i ==> permutation[j] != permutation[k]
    {
      var dim := permutation[i];
      if dim < 0 || dim >= rank || dim in seen {
        if dim in seen {
          var j :| 0 <= j < i && permutation[j] == dim;
        }
        return false;
      }
      seen := seen + {dim};
      assert permutation[..i + 1] == permutation[..i] + [dim];
    }
    return true;
  }

  /** The inverse of a permutation is a permutation, and inverts it on both sides. */
  method InvertPermutation(perm: seq<int>, inverse: array<int>)
    requires IsPermutation(perm) && inverse.Length == |perm|
    modifies inverse
    ensures forall i :: 0 <= i < |perm| ==> inverse[perm[i]] == i
    ensures IsPermutation(inverse[..])
    ensures forall x :: 0 <= x < |perm| ==> perm[inverse[x]] == x
  {
    for i := 0 to |perm|
      invariant forall j :: 0 <= j < i ==> inverse[perm[j]] == j
    {
      inverse[perm[i]] := i;
    }
    forall x | 0 <= x < |perm|
      ensures 0 <= inverse[x] < |perm| && perm[inverse[x]] == x
    {
      PermutationCovers(perm, x);
    }
  }

  function Permute<T>(s: seq<T>, p: seq<int>): (r: seq<T>)
    requires |p| == |s| && forall i :: 0 <= i < |p| ==> 0 <= p[i] < |s|
    ensures |r| == |s| && forall i :: 0 <= i < |s| ==> r[i] == s[p[i]]
  {
    seq(|s|, i requires 0 <= i < |s| => s[p[i]])
  }

  // ----- Strides -------------------------------------------------------------------------

  function Sum(s: seq<int>): int {
    if s == [] then 0 else Sum(s[..|s| - 1]) + s[|s| - 1]
  }

  /** The address of an index vector: the sum of each index times its stride. */
  ghost function Address(indices: seq<int>, strides: seq<int>): int
    requires |indices| == |strides|
  {
    Sum(Terms(indices, strides))
  }

  /** Each stride, from the last permuted dimension, is the element stride times the extents of
      the dimensions after it. */
  ghost predicate AreStrides(strides: seq<int>, permutation: seq<int>, elementStride: int, shape: seq<int>) {
    && |strides| == |permutation| == |shape| && IsPermutation(permutation)
    && forall j :: 0 <= j < |shape| ==>
         strides[permutation[j]] == elementStride * Product(Permute(shape, permutation)[j + 1..])
  }

  lemma {:induction false} SuffixProduct(s: seq<int>, j: nat)
    requires j < |s|
    ensures Product(s[j..]) == Product(s[j + 1..]) * s[j]
  {
    var n := |s| - 1;
    if j < n {
      SuffixProduct(s[..n], j);
      assert s[..n][j..] == s[j..][..n - j] && s[..n][j + 1..] == s[j + 1..][..n - j - 1];
      assert Product(s[j..]) == Product(s[..n][j..]) * s[n];
      assert Product(s[j + 1..]) == Product(s[..n][j + 1..]) * s[n];
    } else {
      assert s[j..] == [s[j]] && s[j..][..0] == [];
    }
  }

  lemma StrideStep(elementStride: int, s: seq<int>, j: nat)
    requires j < |s|
    ensures elementStride * Product(s[j + 1..]) * s[j] == elementStride * Product(s[j..])
  {
    SuffixProduct(s, j);
  }

  /** The stride of the dimension before position `j`: the element stride times the extents from there on. */
  ghost function StrideAt(elementStride: int, s: seq<int>, j: nat): int
    requires j <= |s|
  {
    elementStride * Product(s[j..])
  }

  /** Every value that the stride takes while it is multiplied by one extent after the other. */
  ghost predicate StepsFit(elementStride: int, s: seq<int>) {
    forall j :: 0 <= j <= |s| ==> Fits(StrideAt(elementStride, s, j))
  }

  /** One multiplication of the loop: the next stride, and that it fits. */
  lemma NextStride(elementStride: int, s: seq<int>, j: nat, stride: int, extent: int)
    requires j < |s| && stride == StrideAt(elementStride, s, j + 1) && extent == s[j]
    ensures stride * extent == StrideAt(elementStride, s, j)
    ensures StepsFit(elementStride, s) ==> Fits(stride * extent)
  {
    StrideStep(elementStride, s, j);
  }

  /** No step overflows exactly when the last one before an empty dimension, if there is any, does not:
      `z` is the position after the last empty dimension. */
  lemma StridesFit(elementStride: int, s: seq<int>, z: nat)
    requires z <= |s| && Positive(s[z..]) && (z > 0 ==> s[z - 1] == 0)
    ensures StepsFit(elementStride, s) <==> Fits(elementStride * Product(s[z..]))
  {
    assert StepsFit(elementStride, s) ==> Fits(StrideAt(elementStride, s, z));
    if Fits(elementStride * Product(s[z..])) {
      forall j | 0 <= j <= |s|
        ensures Fits(StrideAt(elementStride, s, j))
      {
        if j < z {
          EmptyProduct(s, j, z);
        } else {
          SuffixIsSmaller(s, z, j);
          ProductIsPositive(s[j..]);
          BetweenZeroAnd(elementStride, Product(s[j..]), Product(s[z..]));
        }
      }
    }
  }

  lemma {:induction false} EmptyProduct(s: seq<int>, j: nat, z: nat)
    requires j < z <= |s| && s[z - 1] == 0
    ensures Product(s[j..]) == 0
    decreases z - j
  {
    SuffixProduct(s, j);
    if j < z - 1 {
      EmptyProduct(s, j + 1, z);
    }
  }

  lemma {:induction false} SuffixIsSmaller(s: seq<int>, z: nat, j: nat)
    requires z <= j <= |s| && Positive(s[z..])
    ensures Positive(s[j..]) && 1 <= Product(s[j..]) <= Product(s[z..])
    decreases j - z
  {
    assert forall k :: j <= k < |s| ==> s[k] == s[z..][k - z];
    ProductIsPositive(s[j..]);
    if z < j {
      assert s[z + 1..] == s[z..][1..];
      SuffixIsSmaller(s, z + 1, j);
      SuffixProduct(s, z);
      assert s[z] == s[z..][0];
      MulMonotone(1, s[z], Product(s[z + 1..]));
    }
  }

  lemma BetweenZeroAnd(e: int, x: int, y: int)
    requires 0 <= x <= y && Fits(e * y)
    ensures Fits(e * x)
  {
    MulMonotone(0, x, e);
    MulMonotone(x, y, e);
  }

  method ComputeStridesFromPermutation(permutation: seq<int>, elementStride: int, shape: seq<int>, strides: array<int>)
    requires strides.Length == |shape| == |permutation| && IsPermutation(permutation)
    modifies strides
    ensures AreStrides(strides[..], permutation, elementStride, shape)
  {
    var stride := elementStride;
    var j := |shape|;
    ghost var permuted := Permute(shape, permutation);
    while j > 0
      invariant 0 <= j <= |shape|
      invariant stride == StrideAt(elementStride, permuted, j)
      invariant forall k :: j <= k < |shape| ==> strides[permutation[k]] == StrideAt(elementStride, permuted, k + 1)
    {
      j := j - 1;
      var i := permutation[j];
      strides[i] := stride;
      NextStride(elementStride, permuted, j, stride, shape[i]);
      stride := stride * shape[i];
      assert StepsFit(elementStride, permuted) ==> Fits(stride);
    }
  }

  function Ascending(n: nat): (p: seq<int>)
    ensures |p| == n && IsPermutation(p) && forall i :: 0 <= i < n ==> p[i] == i
  {
    seq(n, i => i)
  }

  function Descending(n: nat): (p: seq<int>)
    ensures |p| == n && IsPermutation(p) && forall i :: 0 <= i < n ==> p[i] == n - 1 - i
  {
    seq(n, i => n - 1 - i)
  }

  /** The strides for C or Fortran order are those for the permutation that stands for it. */
  method ComputeStrides(order: Order, elementStride: int, shape: seq<int>, strides: array<int>)
    requires strides.Length == |shape|
    modifies strides
    ensures AreStrides(strides[..], if order.C? then Ascending(|shape|) else Descending(|shape|), elementStride, shape)
  {
    var stride := elementStride;
    var rank := |shape|;
    if order.C? {
      var i := rank;
      while i > 0
        invariant 0 <= i <= rank && stride == StrideAt(elementStride, shape, i)
        invariant forall j :: i <= j < rank ==> strides[j] == StrideAt(elementStride, shape, j + 1)
      {
        i := i - 1;
        strides[i] := stride;
        NextStride(elementStride, shape, i, stride, shape[i]);
        stride := stride * shape[i];
        assert StepsFit(elementStride, shape) ==> Fits(stride);
      }
      assert Permute(shape, Ascending(rank)) == shape;
    } else {
      FortranStrides(elementStride, shape, strides);
    }
  }

  method FortranStrides(elementStride: int, shape: seq<int>, strides: array<int>)
    requires strides.Length == |shape|
    modifies strides
    ensures AreStrides(strides[..], Descending(|shape|), elementStride, shape)
  {
    var stride := elementStride;
    var rank := |shape|;
    ghost var reversed := Reversed(shape);
    for i := 0 to rank
      invariant stride == StrideAt(elementStride, reversed, rank - i)
      invariant forall j :: 0 <= j < i ==> strides[j] == StrideAt(elementStride, reversed, rank - j)
    {
      strides[i] := stride;
      NextStride(elementStride, reversed, rank - 1 - i, stride, shape[i]);
      stride := stride * shape[i];
      assert StepsFit(elementStride, reversed) ==> Fits(stride);
    }
    FromTheFront(elementStride, shape, strides[..]);
  }

  lemma FromTheFront(elementStride: int, shape: seq<int>, strides: seq<int>)
    requires |strides| == |shape|
    requires forall j :: 0 <= j < |strides| ==> strides[j] == StrideAt(elementStride, Reversed(shape), |strides| - j)
    ensures AreStrides(strides, Descending(|shape|), elementStride, shape)
  {
    var p := Descending(|shape|);
    assert Permute(shape, p) == Reversed(shape);
    forall j | 0 <= j < |strides|
      ensures strides[p[j]] == elementStride * Product(Reversed(shape)[j + 1..])
    {
      assert p[j] == |strides| - 1 - j;
    }
  }

  // ----- What the strides address ------------------------------------------------------------

  ghost function Terms(indices: seq<int>, strides: seq<int>): (r: seq<int>)
    requires |indices| == |strides|
    ensures |r| == |indices| && forall i :: 0 <= i < |r| ==> r[i] == indices[i] * strides[i]
  {
    seq(|indices|, i requires 0 <= i < |indices| => indices[i] * strides[i])
  }

  lemma {:induction false} SumWithout(s: seq<int>, i: nat)
    requires i < |s|
    ensures Sum(s) == Sum(s[..i] + s[i + 1..]) + s[i]
  {
    var n := |s| - 1;
    if i < n {
      SumWithout(s[..n], i);
      var rest := s[..i] + s[i + 1..];
      assert rest[..n - 1] == s[..n][..i] + s[..n][i + 1..];
      assert rest[n - 1] == s[n];
    } else {
      assert s[..i] + s[i + 1..] == s[..n];
    }
  }

  /** Summing in the order of a permutation gives the same sum. */
  lemma {:induction false} SumOfPermuted(s: seq<int>, p: seq<int>)
    requires |p| == |s| && IsPermutation(p)
    ensures Sum(Permute(s, p)) == Sum(s)
    decreases |s|
  {
    if s != [] {
      var n := |s| - 1;
      PermutationCovers(p, n);
      var k :| 0 <= k < |p| && p[k] == n;
      RemoveGreatest(s, p, k);
      SumOfPermuted(s[..n], p[..k] + p[k + 1..]);
      SumWithout(Permute(s, p), k);
    }
  }

  lemma RemoveGreatest(s: seq<int>, p: seq<int>, k: nat)
    requires |p| == |s| && IsPermutation(p) && k < |p| && p[k] == |s| - 1
    ensures var n, p' := |s| - 1, p[..k] + p[k + 1..];
            && IsPermutation(p')
            && Permute(s, p)[..k] + Permute(s, p)[k + 1..] == Permute(s[..n], p')
  {
    var n, p' := |s| - 1, p[..k] + p[k + 1..];
    forall i | 0 <= i < n
      ensures p'[i] == p[if i < k then i else i + 1] && 0 <= p'[i] < n
    {
    }
  }

  /** With the strides in decreasing order of significance, the address is the element stride
      times the offset. */
  lemma {:induction false} AddressInOrder(shape: seq<int>, x: seq<int>, elementStride: int, terms: seq<int>)
    requires |shape| == |x| == |terms|
    requires forall j :: 0 <= j < |shape| ==> terms[j] == x[j] * (elementStride * Product(shape[j + 1..]))
    ensures Sum(terms) == elementStride * Offset(shape, x)
  {
    if shape != [] {
      var n := |shape| - 1;
      var high := elementStride * shape[n];
      forall j | 0 <= j < n
        ensures terms[..n][j] == x[..n][j] * (high * Product(shape[..n][j + 1..]))
      {
        assert shape[j + 1..][..n - j - 1] == shape[..n][j + 1..];
        assert Product(shape[j + 1..]) == Product(shape[..n][j + 1..]) * shape[n];
        Regroup(elementStride, shape[n], Product(shape[..n][j + 1..]));
      }
      AddressInOrder(shape[..n], x[..n], high, terms[..n]);
      assert Product(shape[n + 1..]) == 1;
      Distribute(elementStride, shape[n], Offset(shape[..n], x[..n]), x[n]);
    }
  }

  lemma Regroup(e: int, d: int, p: int)
    ensures e * (p * d) == (e * d) * p
  {
  }

  lemma Distribute(e: int, d: int, high: int, low: int)
    ensures (e * d) * high + low * (e * 1) == e * (high * d + low)
  {
  }

  /** The last dimension of the permutation has the element stride, and each one before it the stride of the
      next one times the extent of the next one. */
  lemma StridesMultiply(strides: seq<int>, permutation: seq<int>, elementStride: int, shape: seq<int>, j: nat)
    requires AreStrides(strides, permutation, elementStride, shape) && j < |shape|
    ensures strides[permutation[j]] ==
            if j == |shape| - 1 then elementStride else strides[permutation[j + 1]] * shape[permutation[j + 1]]
  {
    var s := Permute(shape, permutation);
    if j < |shape| - 1 {
      StrideStep(elementStride, s, j + 1);
    } else {
      assert s[j + 1..] == [];
    }
  }

  /** The address of an index vector is the element stride times its offset in the permuted shape. */
  lemma AddressIsOffset(strides: seq<int>, permutation: seq<int>, elementStride: int, shape: seq<int>,
                        indices: seq<int>)
    requires AreStrides(strides, permutation, elementStride, shape) && |indices| == |shape|
    ensures Address(indices, strides) ==
            elementStride * Offset(Permute(shape, permutation), Permute(indices, permutation))
  {
    var terms := Terms(indices, strides);
    SumOfPermuted(terms, permutation);
    AddressInOrder(Permute(shape, permutation), Permute(indices, permutation), elementStride,
                   Permute(terms, permutation));
  }

  lemma PermuteKeepsBounds(indices: seq<int>, shape: seq<int>, p: seq<int>)
    requires |p| == |shape| && IsPermutation(p) && InBounds(indices, shape)
    ensures InBounds(Permute(indices, p), Permute(shape, p))
  {
  }

  lemma PermuteIsInjective(a: seq<int>, b: seq<int>, p: seq<int>)
    requires |p| == |a| == |b| && IsPermutation(p) && Permute(a, p) == Permute(b, p)
    ensures a == b
  {
    forall x | 0 <= x < |a|
      ensures a[x] == b[x]
    {
      PermutationCovers(p, x);
      var k :| 0 <= k < |p| && p[k] == x;
      assert Permute(a, p)[k] == Permute(b, p)[k];
    }
  }

  /** Distinct index vectors have distinct addresses ... */
  lemma AddressesAreDistinct(strides: seq<int>, permutation: seq<int>, elementStride: int, shape: seq<int>,
                             a: seq<int>, b: seq<int>)
    requires AreStrides(strides, permutation, elementStride, shape) && elementStride != 0
    requires InBounds(a, shape) && InBounds(b, shape) && Address(a, strides) == Address(b, strides)
    ensures a == b
  {
    var s, x, y := Permute(shape, permutation), Permute(a, permutation), Permute(b, permutation);
    AddressIsOffset(strides, permutation, elementStride, shape, a);
    AddressIsOffset(strides, permutation, elementStride, shape, b);
    PermuteKeepsBounds(a, shape, permutation);
    PermuteKeepsBounds(b, shape, permutation);
    MulCancel(elementStride, Offset(s, x), Offset(s, y));
    IndicesOfOffset(s, x);
    IndicesOfOffset(s, y);
    PermuteIsInjective(a, b, permutation);
  }

  lemma MulCancel(e: int, x: int, y: int)
    requires e != 0 && e * x == e * y
    ensures x == y
  {
    if x < y {
      MulMonotone(x + 1, y, e);
      MulSuccessor(x, e);
    } else if y < x {
      MulMonotone(y + 1, x, e);
      MulSuccessor(y, e);
    }
  }

  /** ... and the addresses are exactly the multiples 0, 1, ..., N - 1 of the element stride, for
      N elements. */
  lemma AddressesAreContiguous(strides: seq<int>, permutation: seq<int>, elementStride: int, shape: seq<int>, k: int)
    requires AreStrides(strides, permutation, elementStride, shape) && Positive(shape) && elementStride != 0
    ensures 0 <= k < Product(Permute(shape, permutation)) <==>
            exists x: seq<int> :: InBounds(x, shape) && Address(x, strides) == elementStride * k
  {
    var s := Permute(shape, permutation);
    if 0 <= k < Product(s) {
      OffsetOfIndices(s, k);
      var x := Unpermute(Indices(s, k), permutation);
      assert InBounds(x, shape) by {
        forall i | 0 <= i < |x|
          ensures 0 <= x[i] < shape[i]
        {
          PermutationCovers(permutation, i);
          var j :| 0 <= j < |permutation| && permutation[j] == i;
          assert Permute(x, permutation)[j] == Indices(s, k)[j];
        }
      }
      AddressIsOffset(strides, permutation, elementStride, shape, x);
      assert InBounds(x, shape) && Address(x, strides) == elementStride * k;
    }
    if x :| InBounds(x, shape) && Address(x, strides) == elementStride * k {
      AddressIsOffset(strides, permutation, elementStride, shape, x);
      PermuteKeepsBounds(x, shape, permutation);
      OffsetInRange(s, Permute(x, permutation));
      MulCancel(elementStride, k, Offset(s, Permute(x, permutation)));
    }
  }

  /** The vector whose permutation is the given one. */
  ghost function Unpermute(y: seq<int>, p: seq<int>): (x: seq<int>)
    requires |p| == |y| && IsPermutation(p)
    ensures |x| == |y| && Permute(x, p) == y
  {
    var x := seq(|y|, i requires 0 <= i < |y| => y[PositionOf(p, i)]);
    assert forall j :: 0 <= j < |p| ==> PositionOf(p, p[j]) == j;
    x
  }

  ghost function PositionOf(p: seq<int>, x: int): (k: int)
    requires IsPermutation(p) && 0 <= x < |p|
    ensures 0 <= k < |p| && p[k] == x
  {
    PermutationCovers(p, x);
    var k :| 0 <= k < |p| && p[k] == x;
    k
  }

  /** One extent can be multiplied last. */
  lemma {:induction false} ProductWithout(s: seq<int>, i: nat)
    requires i < |s|
    ensures Product(s) == Product(s[..i] + s[i + 1..]) * s[i]
  {
    var n := |s| - 1;
    if i < n {
      ProductWithout(s[..n], i);
      var rest := s[..i] + s[i + 1..];
      assert rest[..n - 1] == s[..n][..i] + s[..n][i + 1..];
      assert rest[n - 1] == s[n];
      Commute(Product(rest[..n - 1]), s[i], s[n]);
    } else {
      assert s[..i] + s[i + 1..] == s[..n];
    }
  }

  lemma Commute(p: int, a: int, b: int)
    ensures p * a * b == p * b * a
  {
  }

  /** The number of elements does not depend on the order of the dimensions. */
  lemma {:induction false} ProductOfPermuted(s: seq<int>, p: seq<int>)
    requires |p| == |s| && IsPermutation(p)
    ensures Product(Permute(s, p)) == Product(s)
    decreases |s|
  {
    if s != [] {
      var n := |s| - 1;
      PermutationCovers(p, n);
      var k :| 0 <= k < |p| && p[k] == n;
      RemoveGreatest(s, p, k);
      ProductOfPermuted(s[..n], p[..k] + p[k + 1..]);
      ProductWithout(Permute(s, p), k);
    }
  }

  // ----- A permutation from strides ----------------------------------------------------------

  /** The negative magnitude of a stride, which fits in int64 even for the least int64. */
  function NegativeMagnitude(stride: int64): (r: int64)
    ensures r as int == -Abs(stride as int)
  {
    if stride > 0 then -stride else stride
  }

  /** Dimension `a` goes before dimension `b`: its stride is greater in magnitude, or equal with
      `a` first. */
  ghost predicate GoesBefore(strides: seq<int64>, a: int, b: int)
    requires 0 <= a < |strides| && 0 <= b < |strides|
  {
    var x, y := Abs(strides[a] as int), Abs(strides[b] as int);
    x > y || (x == y && a < b)
  }

  ghost predicate IsStrideOrder(strides: seq<int64>, p: seq<int>) {
    && |p| == |strides| && IsPermutation(p)
    && forall i, j :: 0 <= i < j < |p| ==> GoesBefore(strides, p[i], p[j])
  }

  /** The dimensions below `n`, stably sorted by the negative magnitude of their strides. */
  function StableSort(strides: seq<int64>, n: nat): (p: seq<int>)
    requires n <= |strides|
    ensures |p| == n && IsPermutation(p)
    ensures forall i, j :: 0 <= i < j < n ==> GoesBefore(strides, p[i], p[j])
  {
    if n == 0 then []
    else
      var sorted := StableSort(strides, n - 1);
      InsertStably(strides, sorted, n - 1)
  }

  /** Inserts `dim` after every dimension that does not compare greater. */
  function InsertStably(strides: seq<int64>, sorted: seq<int>, dim: nat): (p: seq<int>)
    requires |sorted| == dim < |strides| && IsPermutation(sorted)
    requires forall i, j :: 0 <= i < j < dim ==> GoesBefore(strides, sorted[i], sorted[j])
    ensures |p| == dim + 1 && IsPermutation(p)
    ensures forall i, j :: 0 <= i < j < |p| ==> GoesBefore(strides, p[i], p[j])
  {
    var k := UpperBound(strides, sorted, dim, dim);
    InsertionIsSorted(strides, sorted, dim, k);
    sorted[..k] + [dim] + sorted[k..]
  }

  lemma InsertionIsSorted(strides: seq<int64>, sorted: seq<int>, dim: nat, k: nat)
    requires k <= |sorted| == dim < |strides| && IsPermutation(sorted)
    requires forall i, j :: 0 <= i < j < dim ==> GoesBefore(strides, sorted[i], sorted[j])
    requires forall i :: 0 <= i < k ==> GoesBefore(strides, sorted[i], dim)
    requires forall i :: k <= i < dim ==> GoesBefore(strides, dim, sorted[i])
    ensures var p := sorted[..k] + [dim] + sorted[k..];
            IsPermutation(p) && forall i, j :: 0 <= i < j < |p| ==> GoesBefore(strides, p[i], p[j])
  {
    var p := sorted[..k] + [dim] + sorted[k..];
    forall i, j | 0 <= i < j < |p|
      ensures 0 <= p[i] < |p| && 0 <= p[j] < |p| && p[i] != p[j] && GoesBefore(strides, p[i], p[j])
    {
      assert i != k ==> p[i] == sorted[if i < k then i else i - 1];
      assert j != k ==> p[j] == sorted[if j < k then j else j - 1];
    }
  }

  function UpperBound(strides: seq<int64>, sorted: seq<int>, dim: nat, k: nat): (r: nat)
    requires k <= |sorted| == dim < |strides| && IsPermutation(sorted)
    requires forall i, j :: 0 <= i < j < dim ==> GoesBefore(strides, sorted[i], sorted[j])
    requires forall i :: k <= i < dim ==> GoesBefore(strides, dim, sorted[i])
    ensures r <= dim
    ensures forall i :: 0 <= i < r ==> GoesBefore(strides, sorted[i], dim)
    ensures forall i :: r <= i < dim ==> GoesBefore(strides, dim, sorted[i])
  {
    if k == 0 then k
    else if NegativeMagnitude(strides[dim]) < NegativeMagnitude(strides[sorted[k - 1]]) then
      UpperBound(strides, sorted, dim, k - 1)
    else
      assert GoesBefore(strides, sorted[k - 1], dim);
      assert forall i :: 0 <= i < k - 1 ==> GoesBefore(strides, sorted[i], sorted[k - 1]);
      k
  }

  method SetPermutationFromStrides(strides: seq<int64>, permutation: array<int>)
    requires permutation.Length == |strides|
    modifies permutation
    ensures IsStrideOrder(strides, permutation[..])
  {
    var sorted := StableSort(strides, |strides|);
    forall i | 0 <= i < |strides| {
      permutation[i] := sorted[i];
    }
    assert permutation[..] == sorted;
  }

  /** There is only one such permutation. */
  lemma {:induction false} StrideOrderIsUnique(strides: seq<int64>, p: seq<int>, q: seq<int>, i: nat)
    requires IsStrideOrder(strides, p) && IsStrideOrder(strides, q) && i <= |p|
    ensures p[..i] == q[..i]
  {
    if i > 0 {
      var n := i - 1;
      StrideOrderIsUnique(strides, p, q, n);
      if p[n] != q[n] {
        FirstDifference(strides, p, q, n);
        FirstDifference(strides, q, p, n);
        assert false;
      }
      assert p[..i] == p[..n] + [p[n]] && q[..i] == q[..n] + [q[n]];
    }
  }

  lemma FirstDifference(strides: seq<int64>, p: seq<int>, q: seq<int>, n: nat)
    requires |p| == |strides| && IsPermutation(p) && IsStrideOrder(strides, q)
    requires n < |p| && p[..n] == q[..n] && p[n] != q[n]
    ensures GoesBefore(strides, q[n], p[n])
  {
    var j := PositionOf(q, p[n]);
    if j < n {
      assert false;
    }
  }

  function AsInts(strides: seq<int64>): (r: seq<int>)
    ensures |r| == |strides| && forall i :: 0 <= i < |r| ==> r[i] == strides[i] as int
  {
    seq(|strides|, i requires 0 <= i < |strides| => strides[i] as int)
  }

  /** The dimension at position `j` has an extent of at least two, or an extent of one, which gives equal
      strides, after a lower dimension. */
  ghost predicate AscendsAt(shape: seq<int>, p: seq<int>, j: int)
    requires |p| == |shape| && IsPermutation(p) && 0 < j < |shape|
  {
    shape[p[j]] >= 2 || (shape[p[j]] == 1 && p[j - 1] < p[j])
  }

  /** So does every dimension but the first of the permutation. */
  ghost predicate TiesAscend(shape: seq<int>, p: seq<int>)
    requires |p| == |shape| && IsPermutation(p)
  {
    forall j :: 0 < j < |shape| ==> AscendsAt(shape, p, j)
  }

  /** The permutation is recovered from the strides computed with it exactly when ties ascend and no
      dimension after the first is empty; in particular when every extent is at least two. */
  lemma PermutationIsRecovered(strides: seq<int64>, permutation: seq<int>, elementStride: int, shape: seq<int>,
                               recovered: seq<int>)
    requires IsStrideOrder(strides, recovered)
    requires AreStrides(AsInts(strides), permutation, elementStride, shape)
    requires elementStride != 0 && forall i :: 0 <= i < |shape| ==> shape[i] >= 0
    ensures recovered == permutation <==> TiesAscend(shape, permutation)
  {
    if recovered == permutation {
      OrderedHasNoZero(strides, permutation, elementStride, shape, 1);
      forall j | 0 < j < |shape|
        ensures AscendsAt(shape, permutation, j)
      {
        AdjacentStrides(strides, permutation, elementStride, shape, j);
        assert GoesBefore(strides, permutation[j - 1], permutation[j]);
      }
    }
    if TiesAscend(shape, permutation) {
      TiesAscendIsSorted(strides, permutation, elementStride, shape);
      StrideOrderIsUnique(strides, permutation, recovered, |shape|);
      assert permutation[..|shape|] == permutation && recovered[..|shape|] == recovered;
    }
  }

  /** An empty dimension makes all strides before it zero, which is out of order after a nonzero one. */
  lemma {:induction false} OrderedHasNoZero(strides: seq<int64>, p: seq<int>, elementStride: int, shape: seq<int>,
                                            j: nat)
    requires IsStrideOrder(strides, p) && AreStrides(AsInts(strides), p, elementStride, shape) && j >= 1
    requires elementStride != 0 && forall i :: 0 <= i < |shape| ==> shape[i] >= 0
    ensures forall k :: j <= k < |shape| ==> shape[p[k]] >= 1
    decreases |shape| - j
  {
    if j < |shape| {
      OrderedHasNoZero(strides, p, elementStride, shape, j + 1);
      AdjacentStrides(strides, p, elementStride, shape, j);
      assert GoesBefore(strides, p[j - 1], p[j]);
    }
  }

  /** Two dimensions of extent one in descending order are not recovered. */
  lemma UnrecoveredExample()
    ensures var strides, permutation: seq<int>, shape: seq<int> := [1, 1], [1, 0], [1, 1];
            && AreStrides(AsInts(strides), permutation, 1, shape) && !TiesAscend(shape, permutation)
            && IsStrideOrder(strides, [0, 1])
  {
    var strides: seq<int64>, permutation: seq<int>, shape: seq<int> := [1, 1], [1, 0], [1, 1];
    var s := Permute(shape, permutation);
    forall j | 0 <= j < |shape|
      ensures AsInts(strides)[permutation[j]] == 1 * Product(s[j + 1..])
    {
      OnesMultiplyToOne(s[j + 1..]);
    }
    assert !AscendsAt(shape, permutation, 1);
  }

  lemma {:induction false} OnesMultiplyToOne(s: seq<int>)
    requires forall i :: 0 <= i < |s| ==> s[i] == 1
    ensures Product(s) == 1
  {
    if s != [] {
      OnesMultiplyToOne(s[..|s| - 1]);
    }
  }

  /** An empty dimension that is not the first of the permutation, without any ties. */
  lemma UnrecoveredEmptyExample()
    ensures var strides, permutation: seq<int>, shape: seq<int> := [0, 1], [0, 1], [5, 0];
            && AreStrides(AsInts(strides), permutation, 1, shape) && !TiesAscend(shape, permutation)
            && IsStrideOrder(strides, [1, 0])
  {
    EmptyStrides();
    assert !AscendsAt([5, 0], [0, 1], 1);
  }

  lemma EmptyStrides()
    ensures AreStrides([0, 1], [0, 1], 1, [5, 0])
  {
    var s := Permute([5, 0], [0, 1]);
    assert s[1..] == [0] && s[2..] == [] && [0][..0] == [];
  }

  lemma TiesAscendIsSorted(strides: seq<int64>, p: seq<int>, elementStride: int, shape: seq<int>)
    requires AreStrides(AsInts(strides), p, elementStride, shape) && TiesAscend(shape, p)
    requires elementStride != 0 && forall i :: 0 <= i < |shape| ==> shape[i] >= 0
    ensures IsStrideOrder(strides, p)
  {
    forall j | 0 < j < |shape|
      ensures GoesBefore(strides, p[j - 1], p[j])
    {
      AscendingHasNoZero(shape, p, j);
      AdjacentStrides(strides, p, elementStride, shape, j);
    }
    AdjacentSuffices(strides, p);
  }

  lemma AscendingHasNoZero(shape: seq<int>, p: seq<int>, j: nat)
    requires |p| == |shape| && IsPermutation(p) && TiesAscend(shape, p) && j >= 1
    ensures forall k :: j <= k < |shape| ==> shape[p[k]] >= 1
  {
    forall k | j <= k < |shape|
      ensures shape[p[k]] >= 1
    {
      assert AscendsAt(shape, p, k);
    }
  }

  lemma AdjacentSuffices(strides: seq<int64>, p: seq<int>)
    requires |p| == |strides| && IsPermutation(p)
    requires forall k :: 0 < k < |p| ==> GoesBefore(strides, p[k - 1], p[k])
    ensures IsStrideOrder(strides, p)
  {
    forall i, j | 0 <= i < j < |p|
      ensures GoesBefore(strides, p[i], p[j])
    {
      AdjacentIsEnough(strides, p, i, j);
    }
  }

  /** How the strides of adjacent dimensions compare when no later dimension is empty. */
  lemma AdjacentStrides(strides: seq<int64>, p: seq<int>, elementStride: int, shape: seq<int>, j: nat)
    requires AreStrides(AsInts(strides), p, elementStride, shape) && 0 < j < |shape|
    requires elementStride != 0 && shape[p[j]] >= 0 && forall k :: j < k < |shape| ==> shape[p[k]] >= 1
    ensures GoesBefore(strides, p[j - 1], p[j]) <==> AscendsAt(shape, p, j)
  {
    var s := Permute(shape, p);
    var a, b := strides[p[j - 1]] as int, strides[p[j]] as int;
    StrideStep(elementStride, s, j);
    assert Positive(s[j + 1..]);
    ProductIsPositive(s[j + 1..]);
    NonzeroProduct(elementStride, Product(s[j + 1..]));
    assert a == b * s[j];
    ScaledMagnitude(b, s[j]);
  }

  lemma NonzeroProduct(e: int, x: int)
    requires e != 0 && x >= 1
    ensures e * x != 0
  {
  }

  lemma ScaledMagnitude(b: int, n: int)
    requires b != 0 && n >= 0
    ensures n == 0 ==> Abs(b * n) < Abs(b)
    ensures n == 1 ==> Abs(b * n) == Abs(b)
    ensures n >= 2 ==> Abs(b * n) > Abs(b)
  {
    if n >= 2 {
      MulMonotone(2, n, b);
    }
  }

  lemma {:induction false} AdjacentIsEnough(strides: seq<int64>, p: seq<int>, i: nat, j: nat)
    requires |p| == |strides| && IsPermutation(p) && i < j < |p|
    requires forall k :: 0 < k < |p| ==> GoesBefore(strides, p[k - 1], p[k])
    ensures GoesBefore(strides, p[i], p[j])
  {
    assert GoesBefore(strides, p[j - 1], p[j]);
    if i < j - 1 {
      AdjacentIsEnough(strides, p, i, j - 1);
    }
  }
}
