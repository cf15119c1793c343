/** Walks along the edges of a graph in which every node has at most one outgoing edge. A node
    that is not a key of the map has no outgoing edge. */
module Graph {
  import opened Results

  /** The node `k` edges away from `x`, if the walk is that long. */
  ghost function Walk<T>(edges: map<T, T>, x: T, k: nat): Option<T> {
    if k == 0 then Some(x)
    else match Walk(edges, x, k - 1)
      case None => None
      case Some(y) => if y in edges then Some(edges[y]) else None
  }

  ghost predicate Reaches<T>(edges: map<T, T>, x: T, y: T) {
    exists k: nat :: Walk(edges, x, k) == Some(y)
  }

  ghost predicate OnCycle<T>(edges: map<T, T>, x: T) {
    exists k: nat :: k > 0 && Walk(edges, x, k) == Some(x)
  }

  /** The cycle that the walk from `x` runs into; empty when the walk ends. */
  ghost function CycleFrom<T>(edges: map<T, T>, x: T): set<T> {
    set y | y in edges && Reaches(edges, x, y) && OnCycle(edges, y)
  }

  ghost predicate Closed<T>(edges: map<T, T>, nodes: set<T>) {
    forall x :: x in edges && x in nodes ==> edges[x] in nodes
  }

  lemma {:induction false} WalkConcat<T>(edges: map<T, T>, x: T, j: nat, k: nat)
    requires Walk(edges, x, j).Some?
    ensures Walk(edges, Walk(edges, x, j).value, k) == Walk(edges, x, j + k)
  {
    if k > 0 {
      WalkConcat(edges, x, j, k - 1);
    }
  }

  /** A walk that has ended stays ended. */
  lemma {:induction false} WalkPrefix<T>(edges: map<T, T>, x: T, j: nat, k: nat)
    requires j <= k && Walk(edges, x, k).Some?
    ensures Walk(edges, x, j).Some?
    ensures j < k ==> Walk(edges, x, j).value in edges
  {
    if j < k {
      WalkPrefix(edges, x, j, k - 1);
      if j < k - 1 {
        WalkPrefix(edges, x, j, k - 1);
      }
    }
  }

  lemma {:induction false} WalkStaysInside<T>(edges: map<T, T>, nodes: set<T>, x: T, k: nat)
    requires x in nodes && Closed(edges, nodes)
    ensures Walk(edges, x, k).Some? ==> Walk(edges, x, k).value in nodes
  {
    if k > 0 {
      WalkStaysInside(edges, nodes, x, k - 1);
    }
  }

  /** Within `|nodes|` steps a walk ends or returns to a node it has visited. */
  lemma WalkEndsOrRepeats<T>(edges: map<T, T>, nodes: set<T>, x: T) returns (ends: bool, mu: nat, lam: nat)
    requires x in nodes && Closed(edges, nodes)
    ensures lam >= 1 && mu + lam <= |nodes|
    ensures ends ==> Walk(edges, x, mu + lam).None?
    ensures !ends ==> Walk(edges, x, mu).Some? && Walk(edges, x, mu + lam) == Walk(edges, x, mu)
  {
    var visited := [x];
    while true
      invariant 1 <= |visited| <= |nodes|
      invariant forall i :: 0 <= i < |visited| ==> visited[i] in nodes && Walk(edges, x, i) == Some(visited[i])
      invariant forall i, j :: 0 <= i < j < |visited| ==> visited[i] != visited[j]
      decreases |nodes| - |visited|
    {
      var last := visited[|visited| - 1];
      if last !in edges {
        return true, |visited| - 1, 1;
      }
      var next := edges[last];
      if i :| 0 <= i < |visited| && visited[i] == next {
        return false, i, |visited| - i;
      }
      DistinctFits(visited + [next], nodes);
      visited := visited + [next];
    }
  }

  lemma {:induction false} DistinctFits<T>(s: seq<T>, nodes: set<T>)
    requires forall i :: 0 <= i < |s| ==> s[i] in nodes
    requires forall i, j :: 0 <= i < j < |s| ==> s[i] != s[j]
    ensures |s| <= |nodes|
  {
    if s != [] {
      DistinctFits(s[1..], nodes - {s[0]});
    }
  }

  /** Walking from a node on a cycle of length `p`, the walk only visits its first `p` nodes. */
  lemma {:induction false} CycleRepeats<T>(edges: map<T, T>, x: T, p: nat, k: nat) returns (i: nat)
    requires p > 0 && Walk(edges, x, p) == Some(x)
    ensures i < p && Walk(edges, x, k) == Walk(edges, x, i) && Walk(edges, x, i).Some?
    decreases k
  {
    if k < p {
      WalkPrefix(edges, x, k, p);
      i := k;
    } else {
      i := CycleRepeats(edges, x, p, k - p);
      WalkConcat(edges, x, p, k - p);
    }
  }

  /** The length of the cycle through `x`: the first return, before which no node repeats. */
  lemma Period<T>(edges: map<T, T>, x: T) returns (p: nat)
    requires OnCycle(edges, x)
    ensures p > 0 && Walk(edges, x, p) == Some(x)
    ensures forall i: nat :: i < p ==> Walk(edges, x, i).Some? && Walk(edges, x, i).value in edges
    ensures forall i: nat, j: nat :: i < j < p ==> Walk(edges, x, i) != Walk(edges, x, j)
  {
    p :| p > 0 && Walk(edges, x, p) == Some(x);
    while exists k: nat :: 0 < k < p && Walk(edges, x, k) == Some(x)
      invariant p > 0 && Walk(edges, x, p) == Some(x)
      decreases p
    {
      var k: nat :| 0 < k < p && Walk(edges, x, k) == Some(x);
      p := k;
    }
    forall i: nat | i < p
      ensures Walk(edges, x, i).Some? && Walk(edges, x, i).value in edges
    {
      WalkPrefix(edges, x, i, p);
    }
    forall i: nat, j: nat | i < j < p
      ensures Walk(edges, x, i) != Walk(edges, x, j)
    {
      WalkPrefix(edges, x, i, p);
      WalkPrefix(edges, x, j, p);
      WalkConcat(edges, x, i, p - j);
      WalkConcat(edges, x, j, p - j);
    }
  }

  /** From a node on a cycle, the cycle is all the nodes visited during one period. */
  lemma CycleIsOrbit<T>(edges: map<T, T>, x: T, p: nat, y: T)
    requires p > 0 && Walk(edges, x, p) == Some(x)
    ensures y in CycleFrom(edges, x) <==> exists i: nat :: i < p && Walk(edges, x, i) == Some(y)
  {
    if y in CycleFrom(edges, x) {
      var k: nat :| Walk(edges, x, k) == Some(y);
      var i := CycleRepeats(edges, x, p, k);
    }
    if i: nat :| i < p && Walk(edges, x, i) == Some(y) {
      WalkPrefix(edges, x, i, p);
      OrbitReturns(edges, x, p, i);
    }
  }

  lemma OrbitReturns<T>(edges: map<T, T>, x: T, p: nat, i: nat)
    requires p > 0 && Walk(edges, x, p) == Some(x) && Walk(edges, x, i).Some?
    ensures Walk(edges, Walk(edges, x, i).value, p) == Walk(edges, x, i)
  {
    WalkConcat(edges, x, i, p);
    WalkConcat(edges, x, p, i);
    assert i + p == p + i;
  }

  /** Whatever node of the cycle is found, it is the same cycle. */
  lemma SameCycle<T>(edges: map<T, T>, x: T, y: T)
    requires Reaches(edges, x, y) && OnCycle(edges, y)
    ensures CycleFrom(edges, x) == CycleFrom(edges, y)
  {
    var j: nat :| Walk(edges, x, j) == Some(y);
    var p: nat :| p > 0 && Walk(edges, y, p) == Some(y);
    forall z
      ensures z in CycleFrom(edges, x) <==> z in CycleFrom(edges, y)
    {
      if z in CycleFrom(edges, y) {
        var k: nat :| Walk(edges, y, k) == Some(z);
        WalkConcat(edges, x, j, k);
      }
      if z in CycleFrom(edges, x) {
        CycleIsReached(edges, x, j, y, z);
      }
    }
  }

  lemma CycleIsReached<T>(edges: map<T, T>, x: T, j: nat, y: T, z: T)
    requires Walk(edges, x, j) == Some(y) && OnCycle(edges, y) && z in CycleFrom(edges, x)
    ensures Reaches(edges, y, z)
  {
    var k: nat :| Walk(edges, x, k) == Some(z);
    var p: nat :| p > 0 && Walk(edges, z, p) == Some(z);
    k := LaterVisit(edges, x, k, p, j);
    WalkConcat(edges, x, j, k - j);
  }

  /** A walk that visits a node on a cycle visits it again after any given number of steps. */
  lemma {:induction false} LaterVisit<T>(edges: map<T, T>, x: T, k: nat, p: nat, j: nat) returns (later: nat)
    requires Walk(edges, x, k).Some? && p > 0 && Walk(edges, Walk(edges, x, k).value, p) == Walk(edges, x, k)
    ensures later >= j && Walk(edges, x, later) == Walk(edges, x, k)
    decreases j - k
  {
    later := k;
    if k < j {
      WalkConcat(edges, x, k, p);
      later := LaterVisit(edges, x, k + p, p, j);
    }
  }

  /** The cycle a walk runs into exists exactly when the walk never ends. */
  lemma CycleIffEndless<T>(edges: map<T, T>, nodes: set<T>, x: T)
    requires x in nodes && Closed(edges, nodes)
    ensures CycleFrom(edges, x) == {} <==> exists k: nat :: Walk(edges, x, k).None?
  {
    var ends, mu, lam := WalkEndsOrRepeats(edges, nodes, x);
    if !ends {
      var y := Walk(edges, x, mu).value;
      WalkConcat(edges, x, mu, lam);
      WalkPrefix(edges, x, mu, mu + lam);
      assert OnCycle(edges, y) && Reaches(edges, x, y);
      assert y in CycleFrom(edges, x);
      if k: nat :| Walk(edges, x, k).None? {
        var later := LaterVisit(edges, x, mu, lam, k);
        WalkPrefix(edges, x, k, later);
      }
    } else {
      if y :| y in CycleFrom(edges, x) {
        var k: nat :| Walk(edges, x, k) == Some(y);
        var p: nat :| p > 0 && Walk(edges, y, p) == Some(y);
        var later := LaterVisit(edges, x, k, p, mu + lam);
        WalkPrefix(edges, x, mu + lam, later);
      }
    }
  }

  /** `orbit` lists a cycle: each node once, each blocked on the next, the last on the first. */
  ghost predicate IsOrbit<T>(edges: map<T, T>, orbit: seq<T>) {
    && orbit != []
    && (forall i :: 0 <= i < |orbit| ==> orbit[i] in edges)
    && (forall i :: 0 <= i < |orbit| - 1 ==> edges[orbit[i]] == orbit[i + 1])
    && edges[orbit[|orbit| - 1]] == orbit[0]
    && (forall i, j :: 0 <= i < j < |orbit| ==> orbit[i] != orbit[j])
  }

  /** A node on a cycle has an orbit, and the orbit is the whole cycle. */
  lemma Orbit<T>(edges: map<T, T>, x: T) returns (orbit: seq<T>)
    requires OnCycle(edges, x)
    ensures IsOrbit(edges, orbit) && orbit[0] == x
    ensures forall y :: y in CycleFrom(edges, x) <==> y in orbit
  {
    var p := Period(edges, x);
    orbit := [];
    while |orbit| < p
      invariant |orbit| <= p
      invariant forall i: nat :: i < |orbit| ==> Walk(edges, x, i) == Some(orbit[i])
    {
      orbit := orbit + [Walk(edges, x, |orbit|).value];
    }
    forall i | 0 <= i < p - 1
      ensures edges[orbit[i]] == orbit[i + 1]
    {
      assert Walk(edges, x, i + 1) == Some(orbit[i + 1]);
    }
    forall i, j | 0 <= i < j < p
      ensures orbit[i] != orbit[j]
    {
      assert Walk(edges, x, i) != Walk(edges, x, j);
    }
    forall y
      ensures y in CycleFrom(edges, x) <==> y in orbit
    {
      CycleIsOrbit(edges, x, p, y);
      if y in orbit {
        var i :| 0 <= i < |orbit| && orbit[i] == y;
        assert Walk(edges, x, i) == Some(y);
      }
    }
  }
}
