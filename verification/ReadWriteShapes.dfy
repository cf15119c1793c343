/** From shape, aspect-ratio and element constraints to chunk shapes: one shape, and a read shape
    that evenly divides a write shape (tensorstore/chunk_layout.cc). */
module ReadWriteShapes {
  import opened Int64
  import opened IndexIntervals
  import opened NearestSizes
  import opened ChunkSizeSearch
  import opened SearchConvergence
  import opened ChosenShapes
  import opened Results

  const DEFAULT_CHUNK_ELEMENTS: int64 := 1024 * 1024

  datatype ShapeConstraint = ShapeConstraint(sizes: seq<int64>, hard: set<nat>)

  /** The constraints on one kind of chunk. */
  datatype GridView = GridView(
    shape: Option<ShapeConstraint>, aspectRatio: Option<seq<real>>, elements: Option<int64>)
  {
    predicate Valid() {
      shape.Some? ==> forall i :: 0 <= i < |shape.value.sizes| ==> shape.value.sizes[i] >= -1
    }
  }

  predicate DomainValid(domain: seq<IndexInterval>) {
    forall i :: 0 <= i < |domain| ==> domain[i].Valid()
  }

  // ----- Explicit sizes -------------------------------------------------------------------------

  predicate CanInitialize(shape: Option<ShapeConstraint>, domain: seq<IndexInterval>)
    requires DomainValid(domain)
  {
    shape.Some? ==>
      && |shape.value.sizes| == |domain|
      && forall i :: 0 <= i < |domain| && shape.value.sizes[i] == -1 ==> domain[i].Bounded()
  }

  /** The size that a constraint prescribes, `-1` being that of the domain; 0 if it leaves the dimension free. */
  function InitialSize(shape: Option<ShapeConstraint>, bounds: IndexInterval, i: nat): int64
    requires shape.Some? ==> i < |shape.value.sizes|
  {
    if shape.None? then 0
    else if shape.value.sizes[i] != -1 then shape.value.sizes[i]
    else if bounds.size < 1 then 1
    else bounds.size
  }

  function InitialShape(shape: Option<ShapeConstraint>, domain: seq<IndexInterval>): (r: seq<int64>)
    requires DomainValid(domain) && CanInitialize(shape, domain)
    ensures |r| == |domain| && forall i: nat :: i < |r| ==> r[i] == InitialSize(shape, domain[i], i)
  {
    seq(|domain|, i requires 0 <= i < |domain| => InitialSize(shape, domain[i], i))
  }

  /** A hard bit on a free dimension is dropped. */
  predicate IsHard(shape: Option<ShapeConstraint>, i: nat) {
    shape.Some? && i < |shape.value.sizes| && i in shape.value.hard && shape.value.sizes[i] != 0
  }

  method InitializeChunkShape(shape: Option<ShapeConstraint>, domain: seq<IndexInterval>, chunkShape: array<int64>)
    returns (hard: Result<set<nat>>)
    requires DomainValid(domain) && chunkShape.Length == |domain|
    modifies chunkShape
    ensures hard.Ok? <==> CanInitialize(shape, domain)
    ensures hard.Ok? ==> chunkShape[..] == InitialShape(shape, domain)
    ensures hard.Ok? ==> forall i: nat :: i < |domain| ==> (i in hard.value <==> IsHard(shape, i))
  {
    var rank := |domain|;
    var hardConstraint: set<nat> := {};
    if shape.Some? {
      if |shape.value.sizes| != rank {
        return Err;
      }
      hardConstraint := shape.value.hard;
    }
    for i := 0 to rank
      invariant shape.Some? ==> forall j :: 0 <= j < i ==> chunkShape[j] == shape.value.sizes[j]
      invariant shape.None? ==> forall j :: 0 <= j < i ==> chunkShape[j] == 0
    {
      chunkShape[i] := if shape.Some? then shape.value.sizes[i] else 0;
    }
    for i := 0 to rank
      invariant forall j :: i <= j < rank ==> chunkShape[j] == if shape.Some? then shape.value.sizes[j] else 0
      invariant shape.Some? ==> forall j :: 0 <= j < i && shape.value.sizes[j] == -1 ==> domain[j].Bounded()
      invariant forall j :: 0 <= j < i ==> chunkShape[j] == InitialSize(shape, domain[j], j)
      invariant forall j: nat :: j < i ==> (j in hardConstraint <==> IsHard(shape, j))
      invariant forall j: nat :: i <= j < rank ==> (j in hardConstraint <==> shape.Some? && j in shape.value.hard)
    {
      if chunkShape[i] == 0 {
        hardConstraint := hardConstraint - {i};
        continue;
      }
      if chunkShape[i] == -1 {
        var bounds := domain[i];
        if !bounds.Bounded() {
          return Err;
        }
        chunkShape[i] := if bounds.size < 1 then 1 else bounds.size;
      }
    }
    return Ok(hardConstraint);
  }

  // ----- Free sizes -------------------------------------------------------------------------------

  predicate RatiosAreValid(aspectRatio: Option<seq<real>>, rank: nat) {
    aspectRatio.Some? ==>
      |aspectRatio.value| == rank && forall i :: 0 <= i < rank ==> aspectRatio.value[i] >= 0.0
  }

  /** An aspect ratio of 0 stands for 1. */
  function Ratios(aspectRatio: Option<seq<real>>, rank: nat): (r: seq<real>)
    requires RatiosAreValid(aspectRatio, rank)
    ensures |r| == rank
    ensures forall i :: 0 <= i < rank ==>
      r[i] == if aspectRatio.None? || aspectRatio.value[i] == 0.0 then 1.0 else aspectRatio.value[i]
  {
    seq(rank, i requires 0 <= i < rank =>
      if aspectRatio.None? || aspectRatio.value[i] == 0.0 then 1.0 else aspectRatio.value[i])
  }

  function TargetElements(elements: Option<int64>): int64 {
    if elements.Some? then elements.value else DEFAULT_CHUNK_ELEMENTS
  }

  /** The free sizes of a shape can be chosen. */
  ghost predicate CanComplete(grid: GridView, shape: seq<int64>, domain: seq<IndexInterval>, sizes: SizeMap) {
    && |shape| == |domain| && DomainValid(domain) && sizes.Valid(|shape|)
    && (forall i :: 0 <= i < |shape| ==> shape[i] == 0 || IsSize(shape[i]))
    && (SomeFreeSize(shape) ==> RatiosAreValid(grid.aspectRatio, |shape|))
  }

  ghost function SearchOf(grid: GridView, shape: seq<int64>, domain: seq<IndexInterval>, sizes: SizeMap): (s: Search)
    requires CanComplete(grid, shape, domain, sizes) && SomeFreeSize(shape)
    ensures s.Valid() && s.SomeFree() && s.shape == shape && s.sizes == sizes
  {
    SearchFor(Ratios(grid.aspectRatio, |shape|), shape, TargetElements(grid.elements), domain, sizes)
  }

  ghost function FactorOf(grid: GridView, shape: seq<int64>, domain: seq<IndexInterval>, sizes: SizeMap,
                          midpoint: (real, real) -> real): real
    requires CanComplete(grid, shape, domain, sizes) && SomeFreeSize(shape)
  {
    ChosenFactor(SearchOf(grid, shape, domain, sizes), TargetElements(grid.elements), midpoint)
  }

  /** The shape with its free sizes filled in by the search. */
  ghost function Completed(grid: GridView, shape: seq<int64>, domain: seq<IndexInterval>, sizes: SizeMap,
                           midpoint: (real, real) -> real): (r: seq<int64>)
    requires CanComplete(grid, shape, domain, sizes)
    ensures |r| == |shape| && AllSizes(r)
  {
    if SomeFreeSize(shape) then
      SearchOf(grid, shape, domain, sizes).ShapeAt(FactorOf(grid, shape, domain, sizes, midpoint))
    else
      shape
  }

  method CompleteChunkShapeFromAspectRatio(domain: seq<IndexInterval>, grid: GridView, sizes: SizeMap,
                                           chunkShape: array<int64>, midpoint: (real, real) -> real)
    returns (ok: bool)
    requires DomainValid(domain) && chunkShape.Length == |domain| && sizes.Valid(chunkShape.Length)
    requires forall i :: 0 <= i < chunkShape.Length ==> chunkShape[i] == 0 || IsSize(chunkShape[i])
    modifies chunkShape
    ensures ok <==> CanComplete(grid, old(chunkShape[..]), domain, sizes)
    ensures chunkShape[..] == if ok then Completed(grid, old(chunkShape[..]), domain, sizes, midpoint)
                              else old(chunkShape[..])
  {
    var rank := chunkShape.Length;
    if exists i :: 0 <= i < rank && chunkShape[i] == 0 {
      var aspectRatio: seq<real> := [];
      if grid.aspectRatio.Some? {
        if |grid.aspectRatio.value| != rank {
          return false;
        }
        for i := 0 to rank
          invariant |aspectRatio| == i
          invariant forall j :: 0 <= j < i ==> grid.aspectRatio.value[j] >= 0.0
          invariant forall j :: 0 <= j < i ==>
            aspectRatio[j] == if grid.aspectRatio.value[j] == 0.0 then 1.0 else grid.aspectRatio.value[j]
        {
          var ratio := grid.aspectRatio.value[i];
          if ratio < 0.0 {
            return false;
          }
          aspectRatio := aspectRatio + [if ratio == 0.0 then 1.0 else ratio];
        }
      } else {
        aspectRatio := seq(rank, _ => 1.0);
      }
      assert aspectRatio == Ratios(grid.aspectRatio, rank);
      var target := DEFAULT_CHUNK_ELEMENTS;
      if grid.elements.Some? {
        target := grid.elements.value;
      }
      ChooseChunkSizeFromAspectRatio(aspectRatio, chunkShape, target, domain, sizes, midpoint);
    } else {
      assert !SomeFreeSize(chunkShape[..]);
    }
    return true;
  }

  /** The size that the search proposes for a free dimension, before it is mapped. */
  ghost function Proposed(grid: GridView, shape: seq<int64>, domain: seq<IndexInterval>, sizes: SizeMap,
                          midpoint: (real, real) -> real, i: nat): (r: int64)
    requires CanComplete(grid, shape, domain, sizes) && i < |shape| && shape[i] == 0
    ensures IsSize(r)
  {
    SearchOf(grid, shape, domain, sizes).Scaled(i, FactorOf(grid, shape, domain, sizes, midpoint))
  }

  /** Sizes that are not free stay as they are, and free ones are the mapped proposals. */
  lemma CompletedSizes(grid: GridView, shape: seq<int64>, domain: seq<IndexInterval>, sizes: SizeMap,
                       midpoint: (real, real) -> real, i: nat)
    requires CanComplete(grid, shape, domain, sizes) && i < |shape|
    ensures Completed(grid, shape, domain, sizes, midpoint)[i] ==
            if shape[i] != 0 then shape[i]
            else sizes.Apply(|shape|, i, Proposed(grid, shape, domain, sizes, midpoint, i))
  {
    if SomeFreeSize(shape) {
      var s, factor := SearchOf(grid, shape, domain, sizes), FactorOf(grid, shape, domain, sizes, midpoint);
      assert s.ShapeAt(factor)[i] == s.SizeAt(i, factor);
    }
  }

  /** The completed shape has no more elements than the target unless its least completion does, which
      is then the result. Unmapped sizes and read sizes can be as small as one, a write size as small
      as the read size. */
  lemma CompletedFitsTarget(grid: GridView, shape: seq<int64>, domain: seq<IndexInterval>, sizes: SizeMap,
                            midpoint: (real, real) -> real)
    requires CanComplete(grid, shape, domain, sizes) && SomeFreeSize(shape)
    ensures AllSizes(Leasts(shape, sizes))
    ensures var target, result := TargetElements(grid.elements) as int, Completed(grid, shape, domain, sizes, midpoint);
            if Saturate(Product(Leasts(shape, sizes))) <= target then Saturate(Product(result)) <= target
            else result == Leasts(shape, sizes)
  {
    var s, target := SearchOf(grid, shape, domain, sizes), TargetElements(grid.elements);
    BisectKeepsBracket(s, target, midpoint, s.Increment(), s.End(), MAX_ROUNDS);
    var bracket := FinalBracket(s, target, midpoint);
    ChosenFitsTarget(s, target, bracket.0, bracket.1);
  }

  // ----- One chunk shape --------------------------------------------------------------------------

  method ChooseChunkShape(grid: GridView, domain: seq<IndexInterval>, chunkShape: array<int64>,
                          midpoint: (real, real) -> real)
    returns (ok: bool)
    requires grid.Valid() && DomainValid(domain) && chunkShape.Length == |domain|
    modifies chunkShape
    ensures ok <==>
      CanInitialize(grid.shape, domain) && CanComplete(grid, InitialShape(grid.shape, domain), domain, Identity)
    ensures ok ==> chunkShape[..] == Completed(grid, InitialShape(grid.shape, domain), domain, Identity, midpoint)
  {
    var hard := InitializeChunkShape(grid.shape, domain, chunkShape);
    if hard.Err? {
      return false;
    }
    ok := CompleteChunkShapeFromAspectRatio(domain, grid, Identity, chunkShape, midpoint);
  }

  /** A chosen shape keeps the prescribed sizes, and its other sizes lie between one and the size of
      a bounded domain. */
  lemma ChosenSizesFitDomain(grid: GridView, shape: seq<int64>, domain: seq<IndexInterval>,
                             midpoint: (real, real) -> real, i: nat)
    requires CanComplete(grid, shape, domain, Identity) && i < |shape|
    ensures var size := Completed(grid, shape, domain, Identity, midpoint)[i];
            if shape[i] != 0 then size == shape[i]
            else 1 <= size && (domain[i].Bounded() ==> size <= if domain[i].Empty() then 1 else domain[i].size)
  {
    CompletedSizes(grid, shape, domain, Identity, midpoint, i);
    if shape[i] == 0 {
      var ratios, target := Ratios(grid.aspectRatio, |shape|), TargetElements(grid.elements);
      SizesFitDomain(ratios, shape, target, domain, FactorOf(grid, shape, domain, Identity, midpoint), i);
    }
  }

  ghost predicate RatiosAreDoubles(grid: GridView) {
    grid.aspectRatio.Some? ==>
      forall i :: 0 <= i < |grid.aspectRatio.value| ==> InDoubleRange(grid.aspectRatio.value[i])
  }

  /** With the midpoint rule, and for all aspect ratios that are doubles, a chosen shape is nearly
      optimal: no factor whose shape fits the target has a size that exceeds the chosen one by more
      than one. */
  lemma ChosenShapeIsOptimal(grid: GridView, shape: seq<int64>, domain: seq<IndexInterval>,
                             midpoint: (real, real) -> real, factor: real, i: nat)
    requires CanComplete(grid, shape, domain, Identity) && SomeFreeSize(shape) && i < |shape|
    requires FollowsRule(midpoint) && RatiosAreDoubles(grid) && TargetElements(grid.elements) < INT64_MAX
    requires SearchOf(grid, shape, domain, Identity).Elements(factor) <= TargetElements(grid.elements) as int
    ensures SearchOf(grid, shape, domain, Identity).SizeAt(i, factor) as int <=
            Completed(grid, shape, domain, Identity, midpoint)[i] as int + 1
  {
    var ratios, target := Ratios(grid.aspectRatio, |shape|), TargetElements(grid.elements);
    forall j | 0 <= j < |ratios|
      ensures InDoubleRange(ratios[j])
    {
    }
    ChosenShapeIsNearlyOptimal(ratios, shape, target, domain, midpoint, factor, i);
  }

  /** The ratios of a request; those left out, and those that are 0, count as 1. */
  ghost predicate AreRequested(grid: GridView, rank: nat, ratios: seq<real>) {
    && |ratios| == rank && (grid.aspectRatio.Some? ==> |grid.aspectRatio.value| == rank)
    && forall i :: 0 <= i < rank ==>
         ratios[i] == if grid.aspectRatio.None? || grid.aspectRatio.value[i] == 0.0 then 1.0
                      else grid.aspectRatio.value[i]
  }

  /** The target of a request, if none is given one Mi of elements. */
  ghost predicate IsTarget(grid: GridView, target: int64) {
    target == if grid.elements.Some? then grid.elements.value else 1048576
  }

  lemma RequestedRatios(grid: GridView, shape: seq<int64>, domain: seq<IndexInterval>, sizes: SizeMap,
                        ratios: seq<real>)
    requires CanComplete(grid, shape, domain, sizes) && SomeFreeSize(shape) && AreRequested(grid, |shape|, ratios)
    ensures ratios == Ratios(grid.aspectRatio, |shape|) && AreRatios(ratios, shape, ratios)
  {
  }

  lemma RequestedAreDoubles(grid: GridView, rank: nat, ratios: seq<real>)
    requires RatiosAreDoubles(grid) && AreRequested(grid, rank, ratios)
    ensures forall j :: 0 <= j < |ratios| ==> InDoubleRange(ratios[j])
  {
    forall j | 0 <= j < |ratios|
      ensures InDoubleRange(ratios[j])
    {
    }
  }

  /** What the search proposes for the free dimensions is in one proportion to the requested ratios, also
      if it is then mapped. */
  lemma ProposedIsInProportion(grid: GridView, shape: seq<int64>, domain: seq<IndexInterval>, sizes: SizeMap,
                               midpoint: (real, real) -> real, ratios: seq<real>, target: int64) returns (t: real)
    requires CanComplete(grid, shape, domain, sizes) && SomeFreeSize(shape)
    requires AreRequested(grid, |shape|, ratios) && IsTarget(grid, target)
    ensures t > 0.0
    ensures forall i: nat :: i < |shape| && shape[i] == 0 ==>
              InProportionAt(ratios, t, target, domain, i, Proposed(grid, shape, domain, sizes, midpoint, i))
  {
    RequestedRatios(grid, shape, domain, sizes, ratios);
    var s, f := SearchOf(grid, shape, domain, sizes), FactorOf(grid, shape, domain, sizes, midpoint);
    t := ProposalsAreInProportion(ratios, ratios, s, target, domain, f);
    forall i: nat | i < |shape| && shape[i] == 0
      ensures InProportionAt(ratios, t, target, domain, i, Proposed(grid, shape, domain, sizes, midpoint, i))
    {
      assert s.Free(i);
    }
  }

  /** And they are nearly as great as they can be: there are others in proportion, at least as great and by
      at most one, that reach the target once mapped, or that no proportion makes greater. */
  lemma NextProposedReachTarget(grid: GridView, shape: seq<int64>, domain: seq<IndexInterval>, sizes: SizeMap,
                                midpoint: (real, real) -> real, ratios: seq<real>, target: int64)
    returns (t: real, next: seq<int64>)
    requires CanComplete(grid, shape, domain, sizes) && SomeFreeSize(shape)
    requires AreRequested(grid, |shape|, ratios) && IsTarget(grid, target)
    requires FollowsRule(midpoint) && RatiosAreDoubles(grid) && target < INT64_MAX
    ensures t > 0.0 && |next| == |shape| && AllSizes(next)
    ensures forall i: nat :: i < |shape| && shape[i] == 0 ==>
              && InProportionAt(ratios, t, target, domain, i, next[i])
              && IsNext(Proposed(grid, shape, domain, sizes, midpoint, i), next[i])
    ensures || Product(Mapped(shape, sizes, next)) >= target as int
            || forall i: nat :: i < |shape| && shape[i] == 0 ==> IsGreatest(next[i], target, domain[i])
  {
    RequestedRatios(grid, shape, domain, sizes, ratios);
    RequestedAreDoubles(grid, |shape|, ratios);
    var s := SearchOf(grid, shape, domain, sizes);
    t, next := NextProposalsReachTarget(ratios, ratios, s, target, domain, midpoint);
    assert forall i: nat :: i < |shape| && shape[i] == 0 ==> s.Free(i);
  }

  /** A chosen shape is in proportion to the requested ratios ... */
  lemma CompletedIsInProportion(grid: GridView, shape: seq<int64>, domain: seq<IndexInterval>,
                                midpoint: (real, real) -> real, ratios: seq<real>, target: int64) returns (t: real)
    requires CanComplete(grid, shape, domain, Identity) && SomeFreeSize(shape)
    requires AreRequested(grid, |shape|, ratios) && IsTarget(grid, target)
    ensures t > 0.0
    ensures InProportion(ratios, shape, target, domain, t, Completed(grid, shape, domain, Identity, midpoint))
  {
    RequestedRatios(grid, shape, domain, Identity, ratios);
    t := ChosenIsInProportion(ratios, ratios, shape, target, domain, midpoint);
  }

  /** ... and no shape in any proportion to them that fits the target has a size that exceeds the chosen one
      by more than one. If one fits, the chosen one fits. */
  lemma CompletedIsLargest(grid: GridView, shape: seq<int64>, domain: seq<IndexInterval>,
                           midpoint: (real, real) -> real, ratios: seq<real>, target: int64,
                           t: real, r: seq<int64>, i: nat)
    requires CanComplete(grid, shape, domain, Identity) && SomeFreeSize(shape) && i < |shape|
    requires FollowsRule(midpoint) && RatiosAreDoubles(grid) && target < INT64_MAX
    requires AreRequested(grid, |shape|, ratios) && IsTarget(grid, target)
    requires InProportion(ratios, shape, target, domain, t, r) && AllSizes(r) && Product(r) <= target as int
    ensures var result := Completed(grid, shape, domain, Identity, midpoint);
            Product(result) <= target as int && r[i] as int <= result[i] as int + 1
  {
    RequestedRatios(grid, shape, domain, Identity, ratios);
    RequestedAreDoubles(grid, |shape|, ratios);
    ChosenIsLargest(ratios, ratios, shape, target, domain, midpoint, t, r, i);
  }

  // ----- Read and write shapes --------------------------------------------------------------------

  /** The sizes of a dimension after read and write sizes have been reconciled; none if two hard
      constraints are incompatible. */
  function Reconcile(read: int64, write: int64, readHard: bool, writeHard: bool): (r: Option<(int64, int64)>)
    requires (read == 0 || IsSize(read)) && (write == 0 || IsSize(write))
    ensures r.None? <==> read != 0 && write != 0 && !Divides(read as int, write as int) && readHard && writeHard
    ensures r.Some? ==> (r.value.0 == 0 <==> read == 0) && (r.value.1 == 0 <==> write == 0)
    ensures r.Some? ==> (r.value.0 == 0 || IsSize(r.value.0)) && (r.value.1 == 0 || IsSize(r.value.1))
    ensures r.Some? && read != 0 && write != 0 ==> Divides(r.value.0 as int, r.value.1 as int)
    ensures r.Some? ==> (readHard ==> r.value.0 == read) && (writeHard ==> r.value.1 == write)
  {
    if read == 0 || write == 0 || Divides(read as int, write as int) then Some((read, write))
    else if readHard && writeHard then None
    else if readHard then Some((read, FindNearestMultiple(read, write)))
    else Some((NearestDivisor(write, read), write))
  }

  ghost predicate CanReconcile(read: seq<int64>, write: seq<int64>, readHard: set<nat>, writeHard: set<nat>)
    requires |read| == |write|
    requires forall i :: 0 <= i < |read| ==> (read[i] == 0 || IsSize(read[i])) && (write[i] == 0 || IsSize(write[i]))
  {
    forall i: nat :: i < |read| ==> Reconcile(read[i], write[i], i in readHard, i in writeHard).Some?
  }

  method ReconcileSizes(readShape: array<int64>, writeShape: array<int64>, readHard: set<nat>, writeHard: set<nat>)
    returns (ok: bool)
    requires readShape != writeShape && readShape.Length == writeShape.Length
    requires forall i :: 0 <= i < readShape.Length ==>
               (readShape[i] == 0 || IsSize(readShape[i])) && (writeShape[i] == 0 || IsSize(writeShape[i]))
    modifies readShape, writeShape
    ensures ok <==> CanReconcile(old(readShape[..]), old(writeShape[..]), readHard, writeHard)
    ensures ok ==> forall i: nat :: i < readShape.Length ==>
      Some((readShape[i], writeShape[i])) ==
      Reconcile(old(readShape[i]), old(writeShape[i]), i in readHard, i in writeHard)
  {
    var rank := writeShape.Length;
    for i := 0 to rank
      invariant forall j: nat :: j < i ==>
        Some((readShape[j], writeShape[j])) ==
        Reconcile(old(readShape[j]), old(writeShape[j]), j in readHard, j in writeHard)
      invariant forall j :: i <= j < rank ==> readShape[j] == old(readShape[j]) && writeShape[j] == old(writeShape[j])
    {
      var readSize, writeSize := readShape[i], writeShape[i];
      if readSize == 0 || writeSize == 0 || writeSize % readSize == 0 {
        continue;
      }
      var readIsHard, writeIsHard := i in readHard, i in writeHard;
      if readIsHard && writeIsHard {
        assert Reconcile(old(readShape[..])[i], old(writeShape[..])[i], i in readHard, i in writeHard).None?;
        return false;
      }
      if readIsHard && !writeIsHard {
        writeShape[i] := FindNearestMultiple(readSize, writeSize);
        continue;
      }
      readShape[i] := NearestDivisor(writeSize, readSize);
    }
    return true;
  }

  /** The explicit sizes of dimension `i` after reconciliation. */
  function ReconcileAt(read: GridView, write: GridView, bounds: IndexInterval, i: nat): (r: Option<(int64, int64)>)
    requires read.Valid() && write.Valid()
    requires read.shape.Some? ==> i < |read.shape.value.sizes|
    requires write.shape.Some? ==> i < |write.shape.value.sizes|
  {
    Reconcile(InitialSize(read.shape, bounds, i), InitialSize(write.shape, bounds, i),
              IsHard(read.shape, i), IsHard(write.shape, i))
  }

  ghost predicate ShapesReconcile(read: GridView, write: GridView, domain: seq<IndexInterval>)
    requires read.Valid() && write.Valid() && DomainValid(domain)
    requires CanInitialize(read.shape, domain) && CanInitialize(write.shape, domain)
  {
    forall i: nat :: i < |domain| ==> ReconcileAt(read, write, domain[i], i).Some?
  }

  /** The read sizes after reconciliation; 0 where they are still free. */
  ghost function ReconciledRead(read: GridView, write: GridView, domain: seq<IndexInterval>): (r: seq<int64>)
    requires read.Valid() && write.Valid() && DomainValid(domain)
    requires CanInitialize(read.shape, domain) && CanInitialize(write.shape, domain)
    requires ShapesReconcile(read, write, domain)
    ensures |r| == |domain|
    ensures forall i: nat :: i < |r| ==> r[i] == ReconcileAt(read, write, domain[i], i).value.0
  {
    seq(|domain|, i requires 0 <= i < |domain| => ReconcileAt(read, write, domain[i], i).value.0)
  }

  ghost function ReconciledWrite(read: GridView, write: GridView, domain: seq<IndexInterval>): (r: seq<int64>)
    requires read.Valid() && write.Valid() && DomainValid(domain)
    requires CanInitialize(read.shape, domain) && CanInitialize(write.shape, domain)
    requires ShapesReconcile(read, write, domain)
    ensures |r| == |domain|
    ensures forall i: nat :: i < |r| ==> r[i] == ReconcileAt(read, write, domain[i], i).value.1
  {
    seq(|domain|, i requires 0 <= i < |domain| => ReconcileAt(read, write, domain[i], i).value.1)
  }

  /** The remaining conditions under which both shapes can be chosen. */
  ghost predicate RatiosAreUsable(grid: GridView, domain: seq<IndexInterval>)
    requires DomainValid(domain) && CanInitialize(grid.shape, domain)
  {
    SomeFreeSize(InitialShape(grid.shape, domain)) ==> RatiosAreValid(grid.aspectRatio, |domain|)
  }

  predicate SizesReconciled(readSizes: seq<int64>, writeSizes: seq<int64>) {
    && |readSizes| == |writeSizes|
    && (forall i :: 0 <= i < |readSizes| ==> readSizes[i] == 0 || IsSize(readSizes[i]))
    && (forall i :: 0 <= i < |writeSizes| ==> writeSizes[i] == 0 || IsSize(writeSizes[i]))
    && (forall i :: 0 <= i < |readSizes| && readSizes[i] != 0 && writeSizes[i] != 0 ==>
          Divides(readSizes[i] as int, writeSizes[i] as int))
  }

  /** Both shapes can be completed: the read shape against the write sizes, and the write shape
      against the completed read shape. */
  ghost predicate CanCompleteBoth(read: GridView, write: GridView, domain: seq<IndexInterval>,
                                  readSizes: seq<int64>, writeSizes: seq<int64>, midpoint: (real, real) -> real)
  {
    && SizesReconciled(readSizes, writeSizes)
    && CanComplete(read, readSizes, domain, DivisorOf(writeSizes))
    && CanComplete(write, writeSizes, domain, MultipleOf(FinalRead(read, domain, readSizes, writeSizes, midpoint)))
  }

  ghost function FinalRead(read: GridView, domain: seq<IndexInterval>, readSizes: seq<int64>, writeSizes: seq<int64>,
                           midpoint: (real, real) -> real): (r: seq<int64>)
    requires CanComplete(read, readSizes, domain, DivisorOf(writeSizes))
    ensures |r| == |readSizes| && AllSizes(r)
  {
    Completed(read, readSizes, domain, DivisorOf(writeSizes), midpoint)
  }

  ghost function FinalWrite(read: GridView, write: GridView, domain: seq<IndexInterval>, readSizes: seq<int64>,
                            writeSizes: seq<int64>, midpoint: (real, real) -> real): (r: seq<int64>)
    requires CanCompleteBoth(read, write, domain, readSizes, writeSizes, midpoint)
    ensures |r| == |writeSizes| && AllSizes(r)
  {
    Completed(write, writeSizes, domain, MultipleOf(FinalRead(read, domain, readSizes, writeSizes, midpoint)), midpoint)
  }

  /** Every read size divides the write size. Explicit sizes stay. A free read size is the proposal of
      its search, or next to an explicit write size the divisor nearest to the proposal; a free write
      size is the multiple of the read size nearest to the proposal of its search. */
  lemma FinalSizesAreNearest(read: GridView, write: GridView, domain: seq<IndexInterval>,
                             readSizes: seq<int64>, writeSizes: seq<int64>, midpoint: (real, real) -> real, i: nat)
    requires CanCompleteBoth(read, write, domain, readSizes, writeSizes, midpoint) && i < |domain|
    ensures var readShape := FinalRead(read, domain, readSizes, writeSizes, midpoint);
            var readSize := readShape[i] as int;
            var writeSize := FinalWrite(read, write, domain, readSizes, writeSizes, midpoint)[i] as int;
            && Divides(readSize, writeSize)
            && (readSizes[i] != 0 ==> readSize == readSizes[i] as int)
            && (writeSizes[i] != 0 ==> writeSize == writeSizes[i] as int)
            && (readSizes[i] == 0 ==>
                  var proposal := Proposed(read, readSizes, domain, DivisorOf(writeSizes), midpoint, i) as int;
                  if writeSizes[i] == 0 then readSize == proposal
                  else if FindsNearestDivisor(writeSizes[i] as int, proposal) then
                    IsNearestDivisor(readSize, writeSizes[i] as int, proposal)
                  else readSize == writeSizes[i] as int)
            && (writeSizes[i] == 0 ==>
                  IsNearestMultiple(writeSize, readSize,
                                    Proposed(write, writeSizes, domain, MultipleOf(readShape), midpoint, i) as int))
  {
    var readShape := FinalRead(read, domain, readSizes, writeSizes, midpoint);
    CompletedSizes(read, readSizes, domain, DivisorOf(writeSizes), midpoint, i);
    CompletedSizes(write, writeSizes, domain, MultipleOf(readShape), midpoint, i);
    if readSizes[i] == 0 && writeSizes[i] != 0 {
      NearestDivisorIsNearest(writeSizes[i], Proposed(read, readSizes, domain, DivisorOf(writeSizes), midpoint, i));
    }
    if writeSizes[i] == 0 {
      NearestMultipleIsNearest(readShape[i], Proposed(write, writeSizes, domain, MultipleOf(readShape), midpoint, i));
    }
  }

  /** Completes the reconciled shapes: first the read shape, then the write shape. */
  method CompleteReadWriteShapes(read: GridView, write: GridView, domain: seq<IndexInterval>,
                                 readShape: array<int64>, writeShape: array<int64>, midpoint: (real, real) -> real)
    returns (ok: bool)
    requires DomainValid(domain) && readShape != writeShape && readShape.Length == writeShape.Length == |domain|
    requires SizesReconciled(readShape[..], writeShape[..])
    modifies readShape, writeShape
    ensures ok <==>
      && (SomeFreeSize(old(readShape[..])) ==> RatiosAreValid(read.aspectRatio, |domain|))
      && (SomeFreeSize(old(writeShape[..])) ==> RatiosAreValid(write.aspectRatio, |domain|))
    ensures ok ==> CanCompleteBoth(read, write, domain, old(readShape[..]), old(writeShape[..]), midpoint)
    ensures ok ==> readShape[..] == FinalRead(read, domain, old(readShape[..]), old(writeShape[..]), midpoint)
    ensures ok ==> writeShape[..] == FinalWrite(read, write, domain, old(readShape[..]), old(writeShape[..]), midpoint)
  {
    ok := CompleteChunkShapeFromAspectRatio(domain, read, DivisorOf(writeShape[..]), readShape, midpoint);
    if ok {
      assert AllSizes(readShape[..]);
      ok := CompleteChunkShapeFromAspectRatio(domain, write, MultipleOf(readShape[..]), writeShape, midpoint);
    }
  }

  /** Chooses a read shape that evenly divides the write shape; see `FinalSizesAreNearest`. */
  method ChooseReadWriteChunkShapes(read: GridView, write: GridView, domain: seq<IndexInterval>,
                                    readShape: array<int64>, writeShape: array<int64>, midpoint: (real, real) -> real)
    returns (ok: bool)
    requires read.Valid() && write.Valid() && DomainValid(domain)
    requires readShape != writeShape && readShape.Length == writeShape.Length == |domain|
    modifies readShape, writeShape
    ensures ok <==>
      && CanInitialize(read.shape, domain) && CanInitialize(write.shape, domain)
      && ShapesReconcile(read, write, domain)
      && RatiosAreUsable(read, domain) && RatiosAreUsable(write, domain)
    ensures ok ==>
      var readSizes, writeSizes := ReconciledRead(read, write, domain), ReconciledWrite(read, write, domain);
      && CanCompleteBoth(read, write, domain, readSizes, writeSizes, midpoint)
      && readShape[..] == FinalRead(read, domain, readSizes, writeSizes, midpoint)
      && writeShape[..] == FinalWrite(read, write, domain, readSizes, writeSizes, midpoint)
    ensures ok ==> forall i :: 0 <= i < |domain| ==>
      IsSize(readShape[i]) && IsSize(writeShape[i]) && Divides(readShape[i] as int, writeShape[i] as int)
  {
    ok := ChooseExplicitSizes(read, write, domain, readShape, writeShape);
    if ok {
      ghost var readSizes, writeSizes := readShape[..], writeShape[..];
      ok := CompleteReadWriteShapes(read, write, domain, readShape, writeShape, midpoint);
      if ok {
        forall i | 0 <= i < |domain|
          ensures Divides(readShape[i] as int, writeShape[i] as int)
        {
          FinalSizesAreNearest(read, write, domain, readSizes, writeSizes, midpoint, i);
        }
      }
    }
  }

  /** The explicit sizes of both shapes, reconciled. */
  method ChooseExplicitSizes(read: GridView, write: GridView, domain: seq<IndexInterval>,
                             readShape: array<int64>, writeShape: array<int64>)
    returns (ok: bool)
    requires read.Valid() && write.Valid() && DomainValid(domain)
    requires readShape != writeShape && readShape.Length == writeShape.Length == |domain|
    modifies readShape, writeShape
    ensures ok <==>
      && CanInitialize(read.shape, domain) && CanInitialize(write.shape, domain)
      && ShapesReconcile(read, write, domain)
    ensures ok ==>
      && readShape[..] == ReconciledRead(read, write, domain) && writeShape[..] == ReconciledWrite(read, write, domain)
      && SizesReconciled(readShape[..], writeShape[..])
      && (SomeFreeSize(readShape[..]) <==> SomeFreeSize(InitialShape(read.shape, domain)))
      && (SomeFreeSize(writeShape[..]) <==> SomeFreeSize(InitialShape(write.shape, domain)))
  {
    var writeHard := InitializeChunkShape(write.shape, domain, writeShape);
    if writeHard.Err? {
      return false;
    }
    var readHard := InitializeChunkShape(read.shape, domain, readShape);
    if readHard.Err? {
      return false;
    }
    assert readShape[..] == InitialShape(read.shape, domain) && writeShape[..] == InitialShape(write.shape, domain);
    ok := ReconcileSizes(readShape, writeShape, readHard.value, writeHard.value);
    HardSetsAgree(read, write, domain, readHard.value, writeHard.value);
    if ok {
      ReconciledSizes(read, write, domain, readShape[..], writeShape[..]);
    }
  }

  lemma ReconciledSizes(read: GridView, write: GridView, domain: seq<IndexInterval>,
                        readSizes: seq<int64>, writeSizes: seq<int64>)
    requires read.Valid() && write.Valid() && DomainValid(domain)
    requires CanInitialize(read.shape, domain) && CanInitialize(write.shape, domain)
    requires ShapesReconcile(read, write, domain)
    requires |readSizes| == |writeSizes| == |domain|
    requires forall i: nat :: i < |domain| ==>
               Some((readSizes[i], writeSizes[i])) == ReconcileAt(read, write, domain[i], i)
    ensures readSizes == ReconciledRead(read, write, domain) && writeSizes == ReconciledWrite(read, write, domain)
    ensures SizesReconciled(readSizes, writeSizes)
    ensures SomeFreeSize(readSizes) <==> SomeFreeSize(InitialShape(read.shape, domain))
    ensures SomeFreeSize(writeSizes) <==> SomeFreeSize(InitialShape(write.shape, domain))
  {
    FreeSizesAgree(readSizes, InitialShape(read.shape, domain));
    FreeSizesAgree(writeSizes, InitialShape(write.shape, domain));
  }

  lemma HardSetsAgree(read: GridView, write: GridView, domain: seq<IndexInterval>,
                      readHard: set<nat>, writeHard: set<nat>)
    requires read.Valid() && write.Valid() && DomainValid(domain)
    requires CanInitialize(read.shape, domain) && CanInitialize(write.shape, domain)
    requires forall i: nat :: i < |domain| ==> (i in readHard <==> IsHard(read.shape, i))
    requires forall i: nat :: i < |domain| ==> (i in writeHard <==> IsHard(write.shape, i))
    ensures CanReconcile(InitialShape(read.shape, domain), InitialShape(write.shape, domain), readHard, writeHard)
            <==> ShapesReconcile(read, write, domain)
  {
    var r, w := InitialShape(read.shape, domain), InitialShape(write.shape, domain);
    assert forall i: nat :: i < |domain| ==>
      Reconcile(r[i], w[i], i in readHard, i in writeHard) == ReconcileAt(read, write, domain[i], i);
  }

  lemma FreeSizesAgree(a: seq<int64>, b: seq<int64>)
    requires |a| == |b| && forall i :: 0 <= i < |a| ==> (a[i] == 0 <==> b[i] == 0)
    ensures SomeFreeSize(a) <==> SomeFreeSize(b)
  {
  }

  /** A request gives a positive size for a dimension, or with -1 that of the domain, at least one. */
  ghost predicate Gives(shape: Option<ShapeConstraint>, bounds: IndexInterval, i: nat, size: int) {
    && shape.Some? && i < |shape.value.sizes| && shape.value.sizes[i] != 0
    && (shape.value.sizes[i] > 0 ==> size == shape.value.sizes[i] as int)
    && (shape.value.sizes[i] == -1 ==> size == if bounds.size >= 1 then bounds.size as int else 1)
  }

  ghost predicate GivesNone(shape: Option<ShapeConstraint>, i: nat) {
    shape.Some? ==> i < |shape.value.sizes| && shape.value.sizes[i] == 0
  }

  /** Both shapes can be chosen. */
  ghost predicate CanChooseBoth(read: GridView, write: GridView, domain: seq<IndexInterval>,
                                midpoint: (real, real) -> real)
  {
    && read.Valid() && write.Valid() && DomainValid(domain)
    && CanInitialize(read.shape, domain) && CanInitialize(write.shape, domain) && ShapesReconcile(read, write, domain)
    && CanCompleteBoth(read, write, domain, ReconciledRead(read, write, domain), ReconciledWrite(read, write, domain),
                       midpoint)
  }

  /** The final sizes of a dimension. */
  ghost function FinalSizes(read: GridView, write: GridView, domain: seq<IndexInterval>,
                            midpoint: (real, real) -> real, i: nat): (int, int)
    requires CanChooseBoth(read, write, domain, midpoint) && i < |domain|
  {
    var readSizes, writeSizes := ReconciledRead(read, write, domain), ReconciledWrite(read, write, domain);
    (FinalRead(read, domain, readSizes, writeSizes, midpoint)[i] as int,
     FinalWrite(read, write, domain, readSizes, writeSizes, midpoint)[i] as int)
  }

  /** Reconciled sizes that are not free are final. */
  lemma ReconciledIsFinal(read: GridView, write: GridView, domain: seq<IndexInterval>,
                          midpoint: (real, real) -> real, i: nat)
    requires CanChooseBoth(read, write, domain, midpoint) && i < |domain|
    ensures ReconcileAt(read, write, domain[i], i).Some?
    ensures var (r, w) := ReconcileAt(read, write, domain[i], i).value;
            && (r != 0 ==> FinalSizes(read, write, domain, midpoint, i).0 == r as int)
            && (w != 0 ==> FinalSizes(read, write, domain, midpoint, i).1 == w as int)
  {
    var readSizes, writeSizes := ReconciledRead(read, write, domain), ReconciledWrite(read, write, domain);
    FinalSizesAreNearest(read, write, domain, readSizes, writeSizes, midpoint, i);
  }

  lemma GivenIsReconciled(read: GridView, write: GridView, bounds: IndexInterval, i: nat, size: int)
    requires read.Valid() && write.Valid()
    requires read.shape.Some? ==> i < |read.shape.value.sizes|
    requires write.shape.Some? ==> i < |write.shape.value.sizes|
    requires ReconcileAt(read, write, bounds, i).Some?
    ensures var (r, w) := ReconcileAt(read, write, bounds, i).value;
            && (Gives(read.shape, bounds, i, size) && (i in read.shape.value.hard || GivesNone(write.shape, i)) ==>
                  r != 0 && r as int == size)
            && (Gives(write.shape, bounds, i, size) && (i in write.shape.value.hard || GivesNone(read.shape, i)) ==>
                  w != 0 && w as int == size)
  {
  }

  /** Hard sizes reach the final shapes unchanged, and so does a size of one shape where the other gives
      none. */
  lemma HardSizesAreKept(read: GridView, write: GridView, domain: seq<IndexInterval>,
                         midpoint: (real, real) -> real, i: nat, size: int)
    requires CanChooseBoth(read, write, domain, midpoint) && i < |domain|
    ensures Gives(read.shape, domain[i], i, size) && (i in read.shape.value.hard || GivesNone(write.shape, i)) ==>
              FinalSizes(read, write, domain, midpoint, i).0 == size
    ensures Gives(write.shape, domain[i], i, size) && (i in write.shape.value.hard || GivesNone(read.shape, i)) ==>
              FinalSizes(read, write, domain, midpoint, i).1 == size
  {
    ReconciledIsFinal(read, write, domain, midpoint, i);
    GivenIsReconciled(read, write, domain[i], i, size);
  }

  /** Where both shapes give a size: dividing sizes stay; else they are not both hard, and next to a hard
      read size the write size becomes its multiple nearest to the given one, and otherwise the read size
      becomes the divisor of the write size nearest to the given one, or the write size itself if none is
      found. */
  lemma GivenSizesAreReconciled(read: GridView, write: GridView, domain: seq<IndexInterval>,
                                midpoint: (real, real) -> real, i: nat, readSize: int, writeSize: int)
    requires CanChooseBoth(read, write, domain, midpoint) && i < |domain|
    requires Gives(read.shape, domain[i], i, readSize) && Gives(write.shape, domain[i], i, writeSize)
    ensures var (r, w) := FinalSizes(read, write, domain, midpoint, i);
            if writeSize % readSize == 0 then r == readSize && w == writeSize
            else if i in read.shape.value.hard then
              i !in write.shape.value.hard && r == readSize && IsNearestMultiple(w, readSize, writeSize)
            else
              && w == writeSize
              && (if FindsNearestDivisor(writeSize, readSize) then IsNearestDivisor(r, writeSize, readSize)
                  else r == writeSize)
  {
    ReconciledIsFinal(read, write, domain, midpoint, i);
    NearestMultipleIsNearest(readSize as int64, writeSize as int64);
    NearestDivisorIsNearest(writeSize as int64, readSize as int64);
  }

  /** The shapes suit the domain, and the ratios are not negative if they are needed. */
  ghost predicate IsUsable(grid: GridView, domain: seq<IndexInterval>)
    requires DomainValid(domain)
  {
    && (grid.shape.Some? ==> |grid.shape.value.sizes| == |domain|)
    && (forall i :: 0 <= i < |domain| && grid.shape.Some? && grid.shape.value.sizes[i] == -1 ==> domain[i].Bounded())
    && (grid.aspectRatio.Some? && (exists i: nat :: i < |domain| && GivesNone(grid.shape, i)) ==>
          && |grid.aspectRatio.value| == |domain|
          && forall i :: 0 <= i < |domain| ==> grid.aspectRatio.value[i] >= 0.0)
  }

  ghost predicate HardSizesAgree(read: GridView, write: GridView, domain: seq<IndexInterval>) {
    forall i: nat, r: int, w: int ::
      (i < |domain| && Gives(read.shape, domain[i], i, r) && Gives(write.shape, domain[i], i, w)
       && i in read.shape.value.hard && i in write.shape.value.hard) ==> Divides(r, w)
  }

  lemma UsableExactly(grid: GridView, domain: seq<IndexInterval>)
    requires grid.Valid() && DomainValid(domain)
    ensures IsUsable(grid, domain) <==> CanInitialize(grid.shape, domain) && RatiosAreUsable(grid, domain)
  {
    if CanInitialize(grid.shape, domain) {
      var shape := InitialShape(grid.shape, domain);
      assert forall i: nat :: i < |domain| ==> (GivesNone(grid.shape, i) <==> shape[i] == 0);
    }
  }

  lemma ReconcilesExactly(read: GridView, write: GridView, domain: seq<IndexInterval>)
    requires read.Valid() && write.Valid() && DomainValid(domain)
    requires CanInitialize(read.shape, domain) && CanInitialize(write.shape, domain)
    ensures HardSizesAgree(read, write, domain) <==> ShapesReconcile(read, write, domain)
  {
    forall i: nat | i < |domain|
      ensures ReconcileAt(read, write, domain[i], i).None? ==> !HardSizesAgree(read, write, domain)
    {
      var r, w := InitialSize(read.shape, domain[i], i) as int, InitialSize(write.shape, domain[i], i) as int;
      assert IsHard(read.shape, i) ==> Gives(read.shape, domain[i], i, r);
      assert IsHard(write.shape, i) ==> Gives(write.shape, domain[i], i, w);
    }
    if ShapesReconcile(read, write, domain) {
      forall i: nat, r: int, w: int | i < |domain| && Gives(read.shape, domain[i], i, r)
        && Gives(write.shape, domain[i], i, w) && i in read.shape.value.hard && i in write.shape.value.hard
        ensures Divides(r, w)
      {
        assert ReconcileAt(read, write, domain[i], i).Some?;
      }
    }
  }

  /** Both shapes are chosen exactly for usable requests whose hard sizes divide. */
  lemma AcceptedExactly(read: GridView, write: GridView, domain: seq<IndexInterval>)
    requires read.Valid() && write.Valid() && DomainValid(domain)
    ensures && CanInitialize(read.shape, domain) && CanInitialize(write.shape, domain)
            && ShapesReconcile(read, write, domain) && RatiosAreUsable(read, domain) && RatiosAreUsable(write, domain)
            <==> IsUsable(read, domain) && IsUsable(write, domain) && HardSizesAgree(read, write, domain)
  {
    UsableExactly(read, domain);
    UsableExactly(write, domain);
    if CanInitialize(read.shape, domain) && CanInitialize(write.shape, domain) {
      ReconcilesExactly(read, write, domain);
    }
  }
}
