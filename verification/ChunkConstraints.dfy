/** Hard and soft constraints on a chunk layout, and how further constraints are merged into them
    (tensorstore/chunk_layout.cc; the rule is stated in tensorstore/chunk_layout.h). */
module ChunkConstraints {
  import opened Results
  import opened Int64
  import opened IndexIntervals
  import opened ContiguousLayouts

  /** A constraint on one dimension; the default value stands for no constraint. */
  datatype Slot<T(==)> = Slot(value: T, hard: bool)

  // ----- One merge ----------------------------------------------------------------------

  predicate Conflicts<T(==)>(unset: T, current: Slot<T>, request: Slot<T>) {
    current.hard && request.hard && request.value != unset && current.value != request.value
  }

  function MergeSlot<T(==)>(unset: T, current: Slot<T>, request: Slot<T>): Slot<T> {
    if request.value == unset then current
    else if request.hard || current.value == unset then Slot(request.value, current.hard || request.hard)
    else current
  }

  ghost predicate Consistent<T>(unset: T, slot: Slot<T>) {
    slot.hard ==> slot.value != unset
  }

  ghost function MergeVector<T>(unset: T, current: seq<Slot<T>>, request: seq<Slot<T>>): (r: Option<seq<Slot<T>>>)
    requires |current| == |request|
    ensures r.Some? <==> forall i :: 0 <= i < |current| ==> !Conflicts(unset, current[i], request[i])
    ensures r.Some? ==> |r.value| == |current|
    ensures r.Some? ==> forall i :: 0 <= i < |current| ==> r.value[i] == MergeSlot(unset, current[i], request[i])
  {
    if exists i :: 0 <= i < |current| && Conflicts(unset, current[i], request[i]) then None
    else Some(seq(|current|, i requires 0 <= i < |current| => MergeSlot(unset, current[i], request[i])))
  }

  /** A per-dimension constraint vector of the layout, stored with its hard-constraint bits. */
  class ConstraintVector<T(==)> {
    const unset: T
    var values: array<T>
    var hardConstraint: set<nat>

    ghost predicate Valid()
      reads this, values
    {
      && (forall i :: i in hardConstraint ==> i < values.Length)
      && (forall i :: i in hardConstraint ==> values[i] != unset)
    }

    ghost function Slots(): (r: seq<Slot<T>>)
      reads this, values
      ensures |r| == values.Length
      ensures forall i: nat :: i < |r| ==> r[i] == Slot(values[i], i in hardConstraint)
    {
      seq(values.Length, i reads this, values requires 0 <= i < values.Length =>
        Slot(values[i], (i as nat) in hardConstraint))
    }

    constructor (rank: nat, unset: T)
      ensures Valid() && fresh(values) && this.unset == unset
      ensures Slots() == seq(rank, _ => Slot(unset, false))
    {
      this.unset := unset;
      values := new T[rank](_ => unset);
      hardConstraint := {};
    }

    /** Merges a vector of constraints. All hard constraints are compared before any change, so a
        failed merge changes nothing. */
    method MergeVectorInto(request: seq<T>, requestHard: set<nat>) returns (ok: bool)
      requires Valid() && |request| == values.Length
      modifies this`hardConstraint, values
      ensures Valid()
      ensures var merged := MergeVector(unset, old(Slots()), RequestSlots(request, requestHard));
              && (ok <==> merged.Some?)
              && (if ok then Slots() == merged.value else Slots() == old(Slots()))
    {
      var rank := |request|;
      ghost var before, slots := old(Slots()), RequestSlots(request, requestHard);
      for i := 0 to rank
        invariant forall j :: 0 <= j < i ==> !Conflicts(unset, before[j], slots[j])
      {
        if i in requestHard && i in hardConstraint {
          if request[i] != unset && values[i] != request[i] {
            assert Conflicts(unset, before[i], slots[i]);
            return false;
          }
        }
      }
      for i := 0 to rank
        invariant Valid()
        invariant forall j: nat :: j < i ==>
          Slot(values[j], j in hardConstraint) == MergeSlot(unset, before[j], slots[j])
        invariant forall j: nat :: i <= j < rank ==> Slot(values[j], j in hardConstraint) == before[j]
      {
        var x := request[i];
        if x != unset && (i in requestHard || values[i] == unset) {
          values[i] := x;
          if i in requestHard {
            hardConstraint := hardConstraint + {i};
          }
        }
      }
      return true;
    }

    /** Rejects invalid values, and treats values that can only be soft as soft. */
    method ValidateAndMergeVectorInto(request: seq<T>, requestHard: set<nat>, isValid: T -> bool, isSoft: T -> bool)
      returns (ok: bool)
      requires Valid() && |request| == values.Length
      modifies this`hardConstraint, values
      ensures Valid()
      ensures var hard := set i: nat | i in requestHard && (i < |request| ==> !isSoft(request[i]));
              var merged := MergeVector(unset, old(Slots()), RequestSlots(request, hard));
              && (ok <==> (forall i :: 0 <= i < |request| ==> isValid(request[i])) && merged.Some?)
              && (if ok then Slots() == merged.value else Slots() == old(Slots()))
    {
      var hard := requestHard;
      for i := 0 to |request|
        invariant forall j :: 0 <= j < i ==> isValid(request[j])
        invariant hard == set j: nat | j in requestHard && (j < i ==> !isSoft(request[j]))
      {
        if !isValid(request[i]) {
          return false;
        }
        if isSoft(request[i]) {
          hard := hard - {i};
        }
      }
      ok := MergeVectorInto(request, hard);
    }
  }

  ghost function RequestSlots<T>(request: seq<T>, hard: set<nat>): (r: seq<Slot<T>>)
    ensures |r| == |request|
    ensures forall i: nat :: i < |r| ==> r[i] == Slot(request[i], i in hard)
  {
    seq(|request|, i requires 0 <= i < |request| => Slot(request[i], (i as nat) in hard))
  }

  // ----- Any sequence of merges -----------------------------------------------------------

  /** The slot after merging requests one by one, or none if one of them conflicts. */
  ghost function MergeAll<T>(unset: T, requests: seq<Slot<T>>): Option<Slot<T>> {
    if requests == [] then Some(Slot(unset, false))
    else
      var n := |requests| - 1;
      var merged := MergeAll(unset, requests[..n]);
      if merged.None? || Conflicts(unset, merged.value, requests[n]) then None
      else Some(MergeSlot(unset, merged.value, requests[n]))
  }

  ghost predicate IsHardRequest<T>(unset: T, request: Slot<T>) {
    request.hard && request.value != unset
  }

  /** All hard requests ask for the same value. */
  ghost predicate HardAgree<T>(unset: T, requests: seq<Slot<T>>) {
    forall i, j :: (0 <= i < |requests| && 0 <= j < |requests|
                    && IsHardRequest(unset, requests[i]) && IsHardRequest(unset, requests[j])) ==>
                   requests[i].value == requests[j].value
  }

  /** The slot that the documentation promises: the hard value, if any, otherwise the first soft
      one, if any. */
  ghost predicate IsPromised<T>(unset: T, requests: seq<Slot<T>>, slot: Slot<T>) {
    && (slot.hard <==> exists i :: 0 <= i < |requests| && IsHardRequest(unset, requests[i]))
    && (forall i :: 0 <= i < |requests| && IsHardRequest(unset, requests[i]) ==> slot.value == requests[i].value)
    && (!slot.hard ==> IsFirst(unset, requests, slot.value))
  }

  ghost predicate IsFirst<T>(unset: T, requests: seq<Slot<T>>, value: T) {
    || (value == unset && forall i :: 0 <= i < |requests| ==> requests[i].value == unset)
    || exists i :: 0 <= i < |requests| && requests[i].value == value != unset
         && forall j :: 0 <= j < i ==> requests[j].value == unset
  }

  /** Merging succeeds exactly when the hard requests agree, and yields the promised slot, whose
      hard bit is set only for a value other than the default. */
  lemma {:induction false} MergeAllKeepsPromise<T>(unset: T, requests: seq<Slot<T>>)
    ensures MergeAll(unset, requests).Some? <==> HardAgree(unset, requests)
    ensures MergeAll(unset, requests).Some? ==>
              && IsPromised(unset, requests, MergeAll(unset, requests).value)
              && Consistent(unset, MergeAll(unset, requests).value)
  {
    if requests != [] {
      var n := |requests| - 1;
      var earlier := requests[..n];
      MergeAllKeepsPromise(unset, earlier);
      assert requests == earlier + [requests[n]];
      if HardAgree(unset, earlier) {
        OneMoreRequest(unset, earlier, requests[n], MergeAll(unset, earlier).value);
      } else {
        var i, j :| 0 <= i < n && 0 <= j < n && IsHardRequest(unset, earlier[i]) && IsHardRequest(unset, earlier[j])
          && earlier[i].value != earlier[j].value;
        assert requests[i] == earlier[i] && requests[j] == earlier[j];
      }
    }
  }

  lemma OneMoreRequest<T>(unset: T, earlier: seq<Slot<T>>, request: Slot<T>, current: Slot<T>)
    requires HardAgree(unset, earlier) && IsPromised(unset, earlier, current) && Consistent(unset, current)
    ensures Conflicts(unset, current, request) <==> !HardAgree(unset, earlier + [request])
    ensures !Conflicts(unset, current, request) ==>
              && IsPromised(unset, earlier + [request], MergeSlot(unset, current, request))
              && Consistent(unset, MergeSlot(unset, current, request))
  {
    OneMoreHardRequest(unset, earlier, request, current);
    var all, merged := earlier + [request], MergeSlot(unset, current, request);
    if !merged.hard {
      if current.value != unset {
        var i :| 0 <= i < |earlier| && earlier[i].value == current.value
          && forall j :: 0 <= j < i ==> earlier[j].value == unset;
        assert all[i].value == merged.value && forall j :: 0 <= j < i ==> all[j].value == unset;
      } else if request.value != unset {
        assert all[|earlier|].value == merged.value;
      }
    }
  }

  lemma OneMoreHardRequest<T>(unset: T, earlier: seq<Slot<T>>, request: Slot<T>, current: Slot<T>)
    requires HardAgree(unset, earlier) && IsPromised(unset, earlier, current) && Consistent(unset, current)
    ensures var all, merged := earlier + [request], MergeSlot(unset, current, request);
            && (Conflicts(unset, current, request) <==> !HardAgree(unset, all))
            && Consistent(unset, merged)
            && (!Conflicts(unset, current, request) ==>
                  && (merged.hard <==> exists i :: 0 <= i < |all| && IsHardRequest(unset, all[i]))
                  && (forall i :: 0 <= i < |all| && IsHardRequest(unset, all[i]) ==> merged.value == all[i].value))
  {
    var all, merged, n := earlier + [request], MergeSlot(unset, current, request), |earlier|;
    if current.hard {
      var i :| 0 <= i < n && IsHardRequest(unset, earlier[i]);
      assert all[i] == earlier[i];
      if Conflicts(unset, current, request) {
        assert IsHardRequest(unset, all[n]) && all[n].value != all[i].value;
      }
    }
    if IsHardRequest(unset, request) {
      assert IsHardRequest(unset, all[n]);
    }
    assert forall i :: 0 <= i < |all| ==> all[i] == if i < n then earlier[i] else request;
  }

  /** Reordering requests does not change whether they can be merged, nor the hard value. */
  lemma MergeOrderIsIrrelevant<T>(unset: T, a: seq<Slot<T>>, b: seq<Slot<T>>)
    requires multiset(a) == multiset(b)
    ensures MergeAll(unset, a).Some? <==> MergeAll(unset, b).Some?
    ensures MergeAll(unset, a).Some? ==>
              var x, y := MergeAll(unset, a).value, MergeAll(unset, b).value;
              x.hard == y.hard && (x.hard ==> x.value == y.value)
  {
    MergeAllKeepsPromise(unset, a);
    MergeAllKeepsPromise(unset, b);
    SameMembers(a, b);
    assert HardAgree(unset, a) <==> HardAgree(unset, b);
  }

  lemma SameMembers<T>(a: seq<T>, b: seq<T>)
    requires multiset(a) == multiset(b)
    ensures forall i :: 0 <= i < |a| ==> a[i] in b
    ensures forall i :: 0 <= i < |b| ==> b[i] in a
  {
    forall x
      ensures x in a <==> x in b
    {
      assert x in a <==> x in multiset(a);
      assert x in b <==> x in multiset(b);
    }
  }

  ghost predicate HasRank<T>(requests: seq<seq<Slot<T>>>, rank: nat) {
    forall k :: 0 <= k < |requests| ==> |requests[k]| == rank
  }

  ghost function Column<T>(requests: seq<seq<Slot<T>>>, rank: nat, i: nat): (r: seq<Slot<T>>)
    requires HasRank(requests, rank) && i < rank
    ensures |r| == |requests| && forall k :: 0 <= k < |r| ==> r[k] == requests[k][i]
  {
    seq(|requests|, k requires 0 <= k < |requests| => requests[k][i])
  }

  /** The vector after merging vectors one by one. */
  ghost function MergeVectors<T>(unset: T, requests: seq<seq<Slot<T>>>, rank: nat): (r: Option<seq<Slot<T>>>)
    requires HasRank(requests, rank)
    ensures r.Some? ==> |r.value| == rank
  {
    if requests == [] then Some(seq(rank, _ => Slot(unset, false)))
    else
      var n := |requests| - 1;
      var merged := MergeVectors(unset, requests[..n], rank);
      if merged.None? then None else MergeVector(unset, merged.value, requests[n])
  }

  /** Dimensions do not interfere: merging vectors succeeds exactly when merging succeeds in every
      dimension, with the slot that the dimension's own requests give. */
  lemma {:induction false} VectorsMergeByDimension<T>(unset: T, requests: seq<seq<Slot<T>>>, rank: nat)
    requires HasRank(requests, rank)
    ensures MergeVectors(unset, requests, rank).Some? <==>
            forall i: nat :: i < rank ==> MergeAll(unset, Column(requests, rank, i)).Some?
    ensures MergeVectors(unset, requests, rank).Some? ==>
              forall i: nat :: i < rank ==>
                MergeAll(unset, Column(requests, rank, i)) == Some(MergeVectors(unset, requests, rank).value[i])
  {
    if requests != [] {
      var n := |requests| - 1;
      VectorsMergeByDimension(unset, requests[..n], rank);
      forall i: nat | i < rank
        ensures Column(requests, rank, i)[..n] == Column(requests[..n], rank, i)
      {
      }
    }
  }

  // ----- Scalar constraints -------------------------------------------------------------------

  /** The target number of elements and the inner order, each merged as a whole. */
  class ScalarConstraints {
    var elements: int64
    var elementsHard: bool
    var innerOrder: seq<int>
    var innerOrderHard: bool

    ghost predicate Valid()
      reads this
    {
      && Consistent(IMPLICIT, Slot(elements, elementsHard))
      && (innerOrder != [] ==> Consistent(Unordered(|innerOrder|), Slot(innerOrder, innerOrderHard)))
      && (innerOrder == Unordered(|innerOrder|) || IsPermutation(innerOrder))
    }

    constructor (rank: nat)
      ensures Valid() && elements == IMPLICIT && !elementsHard && innerOrder == Unordered(rank) && !innerOrderHard
    {
      elements, elementsHard, innerOrder, innerOrderHard := IMPLICIT, false, Unordered(rank), false;
    }

    method SetChunkElements(value: int64, hard: bool) returns (ok: bool)
      requires Valid()
      modifies this`elements, this`elementsHard
      ensures Valid()
      ensures var current, request := Slot(old(elements), old(elementsHard)), Slot(value, hard);
              && (ok <==> value == IMPLICIT || (0 <= value <= MAX_FINITE && !Conflicts(IMPLICIT, current, request)))
              && Slot(elements, elementsHard) == if ok then MergeSlot(IMPLICIT, current, request) else current
    {
      if value == IMPLICIT {
        return true;
      }
      if value < 0 || value > MAX_FINITE {
        return false;
      }
      if elements != IMPLICIT {
        if !hard {
          return true;
        }
        if elementsHard && elements != value {
          return false;
        }
      }
      elements := value;
      if hard {
        elementsHard := true;
      }
      return true;
    }

    /** The inner order is compared and replaced as one value. At rank 0 there is nothing to compare,
        and a hard request sets the hard bit of the empty order. */
    method SetInnerOrder(value: seq<int>, hard: bool) returns (ok: bool)
      requires Valid() && |value| == |innerOrder|
      modifies this`innerOrder, this`innerOrderHard
      ensures Valid()
      ensures value == [] ==> ok && innerOrder == [] && innerOrderHard == (old(innerOrderHard) || hard)
      ensures value != [] ==>
              var current, request := Slot(old(innerOrder), old(innerOrderHard)), Slot(value, hard);
              var unset := Unordered(|value|);
              && (ok <==> |value| <= MAX_RANK && IsPermutation(value) && !Conflicts(unset, current, request))
              && Slot(innerOrder, innerOrderHard) == if ok then MergeSlot(unset, current, request) else current
    {
      var valid := IsValidPermutation(value);
      if !valid {
        return false;
      }
      assert value != [] ==> value[0] >= 0 && Unordered(|value|)[0] == -1;
      if |value| > 0 && innerOrder[0] != -1 {
        if !hard {
          return true;
        }
        if innerOrderHard {
          return value == innerOrder;
        }
      }
      innerOrder := value;
      if hard {
        innerOrderHard := true;
      }
      return true;
    }
  }

  function Unordered(rank: nat): (r: seq<int>)
    ensures |r| == rank && forall i :: 0 <= i < rank ==> r[i] == -1
  {
    seq(rank, _ => -1)
  }
}
