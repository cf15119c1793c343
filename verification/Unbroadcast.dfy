/** Removing broadcast dimensions from a strided layout: `UnbroadcastStridedLayout` of
    tensorstore/array.cc. */
module Unbroadcast {
  import opened ContiguousLayouts

  datatype Layout = Layout(shape: seq<int>, byteStrides: seq<int>) {
    ghost predicate Valid() {
      |shape| == |byteStrides| && forall i :: 0 <= i < |shape| ==> shape[i] >= 0
    }
  }

  /** A dimension along which every index has the same address, or that has only one index. */
  predicate Trivial(size: int, byteStride: int) {
    size == 1 || byteStride == 0
  }

  /** The offsets that a layout addresses. */
  ghost predicate Addresses(layout: Layout, offset: int)
    requires layout.Valid()
  {
    exists x: seq<int> :: InBounds(x, layout.shape) && Address(x, layout.byteStrides) == offset
  }

  /** The normal form: no zero stride except on an extent of one, the converse, and no leading
      trivial dimension. */
  ghost predicate IsNormal(layout: Layout)
    requires layout.Valid()
  {
    && (forall i :: 0 <= i < |layout.shape| ==> (layout.shape[i] == 1 <==> layout.byteStrides[i] == 0))
    && (layout.shape != [] ==> !Trivial(layout.shape[0], layout.byteStrides[0]))
  }

  /** The number of leading trivial dimensions. */
  ghost function LeadingTrivial(layout: Layout): (k: nat)
    requires layout.Valid()
    ensures k <= |layout.shape|
    ensures forall i :: 0 <= i < k ==> Trivial(layout.shape[i], layout.byteStrides[i])
    ensures k < |layout.shape| ==> !Trivial(layout.shape[k], layout.byteStrides[k])
  {
    LeadingTrivialFrom(layout, 0)
  }

  ghost function LeadingTrivialFrom(layout: Layout, from: nat): (k: nat)
    requires layout.Valid() && from <= |layout.shape|
    ensures from <= k <= |layout.shape|
    ensures forall i :: from <= i < k ==> Trivial(layout.shape[i], layout.byteStrides[i])
    ensures k < |layout.shape| ==> !Trivial(layout.shape[k], layout.byteStrides[k])
    decreases |layout.shape| - from
  {
    if from < |layout.shape| && Trivial(layout.shape[from], layout.byteStrides[from])
    then LeadingTrivialFrom(layout, from + 1) else from
  }

  /** `r` keeps the dimensions from `k` on, with trivial ones made into extent one, stride zero. */
  ghost predicate IsTrimmed(layout: Layout, k: nat, r: Layout)
    requires layout.Valid() && k <= |layout.shape|
  {
    && |r.shape| == |r.byteStrides| == |layout.shape| - k
    && forall i :: 0 <= i < |r.shape| ==>
         if Trivial(layout.shape[k + i], layout.byteStrides[k + i]) then r.shape[i] == 1 && r.byteStrides[i] == 0
         else r.shape[i] == layout.shape[k + i] && r.byteStrides[i] == layout.byteStrides[k + i]
  }

  /** Normalizes every dimension into the two output spans. */
  method NormalizeDimensions(layout: Layout, shape: array<int>, byteStrides: array<int>)
    requires layout.Valid() && shape.Length == byteStrides.Length == |layout.shape| && shape != byteStrides
    modifies shape, byteStrides
    ensures IsTrimmed(layout, 0, Layout(shape[..], byteStrides[..]))
  {
    for i := 0 to |layout.shape|
      invariant forall j :: 0 <= j < i ==>
        if Trivial(layout.shape[j], layout.byteStrides[j]) then shape[j] == 1 && byteStrides[j] == 0
        else shape[j] == layout.shape[j] && byteStrides[j] == layout.byteStrides[j]
    {
      var byteStride := layout.byteStrides[i];
      var size := layout.shape[i];
      if byteStride == 0 {
        size := 1;
      } else if size == 1 {
        byteStride := 0;
      }
      shape[i] := size;
      byteStrides[i] := byteStride;
    }
  }

  /** The unbroadcast layout: leading trivial dimensions dropped, the others normalized. */
  method UnbroadcastStridedLayout(layout: Layout) returns (r: Layout)
    requires layout.Valid()
    ensures IsTrimmed(layout, LeadingTrivial(layout), r)
    ensures r.Valid() && IsNormal(r)
  {
    var rank := |layout.shape|;
    var newRank := 0;
    var origDim := rank;
    while origDim > 0
      invariant 0 <= origDim <= rank && 0 <= newRank <= rank - origDim
      invariant forall i :: origDim <= i < rank - newRank ==> Trivial(layout.shape[i], layout.byteStrides[i])
      invariant newRank > 0 ==> !Trivial(layout.shape[rank - newRank], layout.byteStrides[rank - newRank])
    {
      origDim := origDim - 1;
      if layout.shape[origDim] != 1 && layout.byteStrides[origDim] != 0 {
        newRank := rank - origDim;
      }
    }
    ghost var k := LeadingTrivial(layout);
    assert k == rank - newRank;
    var shape, byteStrides := new int[newRank], new int[newRank];
    var rest := Layout(layout.shape[rank - newRank..], layout.byteStrides[rank - newRank..]);
    NormalizeDimensions(rest, shape, byteStrides);
    r := Layout(shape[..], byteStrides[..]);
  }

  // ----- The same elements -----------------------------------------------------------------

  /** The index in the trimmed layout that stands for an index in the original: leading indices
      are dropped, and indices of trivial dimensions become zero. */
  ghost function Clamp(layout: Layout, k: nat, x: seq<int>): (y: seq<int>)
    requires layout.Valid() && k <= |layout.shape| == |x|
    ensures |y| == |x| - k
    ensures forall i :: 0 <= i < |y| ==>
              y[i] == if Trivial(layout.shape[k + i], layout.byteStrides[k + i]) then 0 else x[k + i]
  {
    seq(|x| - k, i requires 0 <= i < |x| - k =>
      if Trivial(layout.shape[k + i], layout.byteStrides[k + i]) then 0 else x[k + i])
  }

  lemma {:induction false} SumOfZeros(s: seq<int>)
    requires forall i :: 0 <= i < |s| ==> s[i] == 0
    ensures Sum(s) == 0
  {
    if s != [] {
      SumOfZeros(s[..|s| - 1]);
    }
  }

  lemma {:induction false} SumConcat(a: seq<int>, b: seq<int>)
    ensures Sum(a + b) == Sum(a) + Sum(b)
  {
    if b == [] {
      assert a + b == a;
    } else {
      SumConcat(a, b[..|b| - 1]);
      assert (a + b)[..|a + b| - 1] == a + b[..|b| - 1];
    }
  }

  lemma SumSplit(s: seq<int>, k: nat)
    requires k <= |s|
    ensures Sum(s) == Sum(s[..k]) + Sum(s[k..])
  {
    SumConcat(s[..k], s[k..]);
    assert s == s[..k] + s[k..];
  }

  /** An index has the same offset as the clamped index has in the trimmed layout. */
  lemma SameOffset(layout: Layout, k: nat, r: Layout, x: seq<int>)
    requires layout.Valid() && k <= |layout.shape| && IsTrimmed(layout, k, r)
    requires forall i :: 0 <= i < k ==> Trivial(layout.shape[i], layout.byteStrides[i])
    requires InBounds(x, layout.shape)
    ensures r.Valid() && InBounds(Clamp(layout, k, x), r.shape)
    ensures Address(Clamp(layout, k, x), r.byteStrides) == Address(x, layout.byteStrides)
  {
    ClampInBounds(layout, k, r, x);
    ClampedTerms(layout, k, r, x);
    LeadingTermsVanish(layout, k, x);
    SumSplit(Terms(x, layout.byteStrides), k);
  }

  lemma LeadingTermsVanish(layout: Layout, k: nat, x: seq<int>)
    requires layout.Valid() && k <= |layout.shape| && InBounds(x, layout.shape)
    requires forall i :: 0 <= i < k ==> Trivial(layout.shape[i], layout.byteStrides[i])
    ensures Sum(Terms(x, layout.byteStrides)[..k]) == 0
  {
    forall i | 0 <= i < k
      ensures Terms(x, layout.byteStrides)[i] == 0
    {
      TrivialTerm(x[i], layout.shape[i], layout.byteStrides[i]);
    }
    SumOfZeros(Terms(x, layout.byteStrides)[..k]);
  }

  lemma ClampInBounds(layout: Layout, k: nat, r: Layout, x: seq<int>)
    requires layout.Valid() && k <= |layout.shape| && IsTrimmed(layout, k, r) && InBounds(x, layout.shape)
    ensures r.Valid() && InBounds(Clamp(layout, k, x), r.shape)
  {
    var y := Clamp(layout, k, x);
    forall i | 0 <= i < |y|
      ensures 0 <= y[i] < r.shape[i]
    {
      assert 0 <= x[k + i] < layout.shape[k + i];
    }
  }

  lemma TrivialTerm(x: int, size: int, byteStride: int)
    requires 0 <= x < size && Trivial(size, byteStride)
    ensures x * byteStride == 0
  {
    if byteStride != 0 {
      assert x == 0;
    }
  }

  lemma ClampedTerms(layout: Layout, k: nat, r: Layout, x: seq<int>)
    requires layout.Valid() && k <= |layout.shape| && IsTrimmed(layout, k, r) && InBounds(x, layout.shape)
    ensures Terms(Clamp(layout, k, x), r.byteStrides) == Terms(x, layout.byteStrides)[k..]
  {
    var terms, y := Terms(x, layout.byteStrides), Clamp(layout, k, x);
    var clamped := Terms(y, r.byteStrides);
    forall i | 0 <= i < |y|
      ensures clamped[i] == terms[k + i]
    {
      if Trivial(layout.shape[k + i], layout.byteStrides[k + i]) {
        TrivialTerm(x[k + i], layout.shape[k + i], layout.byteStrides[k + i]);
      }
    }
  }

  /** A layout with a zero extent that the code turns into an extent of one, and no other: it is
      empty, and its normal form is not. */
  ghost predicate BecomesNonEmpty(layout: Layout)
    requires layout.Valid()
  {
    && (exists i :: 0 <= i < |layout.shape| && layout.shape[i] == 0)
    && (forall i :: 0 <= i < |layout.shape| && layout.shape[i] == 0 ==> layout.byteStrides[i] == 0)
  }

  /** Unbroadcasting addresses exactly the same offsets, except when it makes an empty layout
      nonempty. */
  lemma SameOffsets(layout: Layout, r: Layout)
    requires layout.Valid() && IsTrimmed(layout, LeadingTrivial(layout), r)
    ensures r.Valid()
    ensures (forall offset :: Addresses(layout, offset) <==> Addresses(r, offset)) <==> !BecomesNonEmpty(layout)
  {
    var k := LeadingTrivial(layout);
    forall offset | Addresses(layout, offset)
      ensures Addresses(r, offset)
    {
      var x :| InBounds(x, layout.shape) && Address(x, layout.byteStrides) == offset;
      SameOffset(layout, k, r, x);
    }
    if BecomesNonEmpty(layout) {
      var zeros := seq(|r.shape|, _ => 0);
      assert InBounds(zeros, r.shape);
      assert Addresses(r, Address(zeros, r.byteStrides));
      var i :| 0 <= i < |layout.shape| && layout.shape[i] == 0;
      assert !Addresses(layout, Address(zeros, r.byteStrides));
    } else {
      forall offset | Addresses(r, offset)
        ensures Addresses(layout, offset)
      {
        var y :| InBounds(y, r.shape) && Address(y, r.byteStrides) == offset;
        var x := Extend(layout, k, r, y);
        SameOffset(layout, k, r, x);
        assert Clamp(layout, k, x) == y;
      }
    }
  }

  ghost function Extend(layout: Layout, k: nat, r: Layout, y: seq<int>): (x: seq<int>)
    requires layout.Valid() && k == LeadingTrivial(layout) && IsTrimmed(layout, k, r) && InBounds(y, r.shape)
    requires !BecomesNonEmpty(layout)
    ensures InBounds(x, layout.shape) && Clamp(layout, k, x) == y
  {
    var x := seq(|layout.shape|, i requires 0 <= i < |layout.shape| => if i < k then 0 else y[i - k]);
    assert forall i :: 0 <= i < |layout.shape| && layout.shape[i] == 0 && layout.byteStrides[i] != 0 ==>
        i >= k && r.shape[i - k] == 0;
    x
  }

  lemma BecomesNonEmptyExample()
    ensures BecomesNonEmpty(Layout([0], [0])) && IsTrimmed(Layout([0], [0]), 1, Layout([], []))
  {
    assert Layout([0], [0]).shape[0] == 0;
  }

  /** A normal layout is its own normal form, so unbroadcasting twice is unbroadcasting once. */
  lemma NormalIsFixed(layout: Layout, r: Layout)
    requires layout.Valid() && IsNormal(layout) && IsTrimmed(layout, LeadingTrivial(layout), r)
    ensures r == layout
  {
    assert LeadingTrivial(layout) == 0;
    assert r.shape == layout.shape && r.byteStrides == layout.byteStrides;
  }

  method UnbroadcastTwice(layout: Layout) returns (once: Layout, twice: Layout)
    requires layout.Valid()
    ensures IsTrimmed(layout, LeadingTrivial(layout), once) && twice == once
  {
    once := UnbroadcastStridedLayout(layout);
    twice := UnbroadcastStridedLayout(once);
    NormalIsFixed(once, twice);
  }
}
