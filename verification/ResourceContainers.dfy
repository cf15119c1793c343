/** The containers of context resources under construction, linked by what each one's creation is
    blocked on, and the search for a deadlock among them: tensorstore/context.cc. All methods
    run with the mutex of the root context held. */
module ResourceContainers {
  import opened Results
  import opened Graph

  datatype CreationResult = NotReady | Created(resource: nat) | Failed(chain: seq<string>)

  class ResourceContainer {
    const spec: string
    var creationBlockedOn: ResourceContainer?
    var result: CreationResult

    constructor (spec: string)
      ensures this.spec == spec && creationBlockedOn == null && result == NotReady
    {
      this.spec, creationBlockedOn, result := spec, null, NotReady;
    }

    predicate Ready()
      reads this
    {
      !result.NotReady?
    }
  }

  ghost function Edges(nodes: set<ResourceContainer>): (r: map<ResourceContainer, ResourceContainer>)
    reads nodes
    ensures r.Keys <= nodes
  {
    map c: ResourceContainer | c in nodes && c.creationBlockedOn != null ::
      var next: ResourceContainer := c.creationBlockedOn; next
  }

  ghost predicate ClosedGraph(nodes: set<ResourceContainer>)
    reads nodes
  {
    forall c :: c in nodes && c.creationBlockedOn != null ==> c.creationBlockedOn in nodes
  }

  /** What the search knows about where it must stop: the walk ends after `mu + lam` steps, or
      repeats with period `lam` from step `mu` on. */
  ghost predicate StopsAt(edges: map<ResourceContainer, ResourceContainer>, x: ResourceContainer,
                          ends: bool, mu: nat, lam: nat)
  {
    && lam >= 1
    && (ends ==> Walk(edges, x, mu + lam).None?)
    && (!ends ==> Walk(edges, x, mu).Some? && Walk(edges, x, mu + lam) == Walk(edges, x, mu))
  }

  lemma Periodic(edges: map<ResourceContainer, ResourceContainer>, x: ResourceContainer, mu: nat, lam: nat, t: nat)
    requires StopsAt(edges, x, false, mu, lam) && t >= mu
    ensures Walk(edges, x, t).Some? && Walk(edges, x, t + lam) == Walk(edges, x, t)
  {
    var later := LaterVisit(edges, x, mu, lam, t) by { WalkConcat(edges, x, mu, lam); }
    WalkPrefix(edges, x, t, later);
    WalkConcat(edges, x, mu, t - mu);
    WalkConcat(edges, x, mu + lam, t - mu);
    assert mu + lam + (t - mu) == t + lam;
  }

  lemma MeetingIsOnCycle(edges: map<ResourceContainer, ResourceContainer>, x: ResourceContainer,
                         t: nat, lambda: nat, node: ResourceContainer)
    requires lambda >= 1 && Walk(edges, x, t) == Some(node) && Walk(edges, x, t + lambda) == Some(node)
    ensures Reaches(edges, x, node) && OnCycle(edges, node) && node in CycleFrom(edges, x)
  {
    WalkConcat(edges, x, t, lambda);
    WalkPrefix(edges, x, t, t + lambda);
    assert Walk(edges, node, lambda) == Some(node);
  }

  /** The bound on the number of steps, from what the algorithm knows after `steps` of them. */
  lemma StepsAreBounded(edges: map<ResourceContainer, ResourceContainer>, x: ResourceContainer,
                        ends: bool, mu: nat, lam: nat, t: nat, lambda: nat, half: nat)
    requires StopsAt(edges, x, ends, mu, lam) && 1 <= lambda <= t + 1
    requires t == 0 || (t == 2 * half - 1 && (ends || half <= mu || half < lam))
    requires !ends && t >= mu ==> lambda <= lam
    requires Walk(edges, x, t + lambda - 1).Some?
    ensures t + lambda <= 3 * (mu + lam)
  {
    if ends && t + lambda - 1 >= mu + lam {
      WalkPrefix(edges, x, mu + lam, t + lambda - 1);
    }
  }

  /** Brent's algorithm. `steps` is the number of pointers read. */
  method FindCycle(container: ResourceContainer, ghost nodes: set<ResourceContainer>)
    returns (node: Option<ResourceContainer>, ghost steps: nat)
    requires container in nodes && ClosedGraph(nodes)
    ensures node.None? <==> exists k: nat :: Walk(Edges(nodes), container, k).None?
    ensures node.None? <==> CycleFrom(Edges(nodes), container) == {}
    ensures node.Some? ==>
              node.value in nodes && Reaches(Edges(nodes), container, node.value) && OnCycle(Edges(nodes), node.value)
    ensures steps <= 3 * |nodes|
  {
    ghost var edges := Edges(nodes);
    assert Closed(edges, nodes);
    ghost var ends, mu, lam := WalkEndsOrRepeats(edges, nodes, container);
    CycleIffEndless(edges, nodes, container);
    var power, lambda := 1, 1;
    var tortoise: ResourceContainer := container;
    var hare: ResourceContainer? := container.creationBlockedOn;
    ghost var t, half := 0, 1;
    steps := 1;
    while true
      invariant 1 <= lambda <= power && steps == t + lambda && power == t + 1
      invariant Walk(edges, container, t) == Some(tortoise)
      invariant Walk(edges, container, t + lambda) == (if hare == null then None else Some(hare))
      invariant tortoise in nodes && (hare != null ==> hare in nodes)
      invariant t == 0 || (t == 2 * half - 1 && (ends || half <= mu || half < lam))
      invariant !ends && t >= mu ==> lambda <= lam
      invariant Walk(edges, container, steps - 1).Some?
      decreases 3 * |nodes| - steps
    {
      StepsAreBounded(edges, container, ends, mu, lam, t, lambda, half);
      if hare == null {
        assert Walk(Edges(nodes), container, steps).None?;
        return None, steps;
      }
      if tortoise == hare {
        MeetingIsOnCycle(edges, container, t, lambda, tortoise);
        return Some(tortoise), steps;
      }
      if !ends && t >= mu {
        Periodic(edges, container, mu, lam, t);
      }
      if power == lambda {
        half := power;
        tortoise := hare;
        power := power * 2;
        lambda := 0;
        t := steps;
      }
      hare := hare.creationBlockedOn;
      lambda := lambda + 1;
      steps := steps + 1;
    }
  }

  /** The specs of the containers on the cycle, in order, for the error message. */
  method DescribeCycle(container: ResourceContainer, ghost nodes: set<ResourceContainer>,
                       ghost orbit: seq<ResourceContainer>)
    returns (chain: seq<string>)
    requires container in nodes && ClosedGraph(nodes)
    requires IsOrbit(Edges(nodes), orbit) && orbit[0] == container
    ensures |chain| == |orbit| && forall i :: 0 <= i < |orbit| ==> chain[i] == orbit[i].spec
  {
    chain := [];
    var node := container;
    ghost var i := 0;
    while true
      invariant 0 <= i < |orbit| && |chain| == i && node == orbit[i]
      invariant forall k :: 0 <= k < i ==> chain[k] == orbit[k].spec
      decreases |orbit| - i
    {
      assert node in Edges(nodes);
      chain := chain + [node.spec];
      node := node.creationBlockedOn;
      i := i + 1;
      assert i < |orbit| ==> node == orbit[i] && orbit[i] != orbit[0];
      if node == container {
        break;
      }
    }
  }

  /** Fails every container on the cycle through `container`, and removes the cycle's edges. */
  method KillCycle(container: ResourceContainer, ghost nodes: set<ResourceContainer>)
    returns (chain: seq<string>, ghost orbit: seq<ResourceContainer>)
    requires container in nodes && ClosedGraph(nodes)
    requires OnCycle(Edges(nodes), container)
    modifies nodes
    ensures IsOrbit(old(Edges(nodes)), orbit) && orbit[0] == container
    ensures |chain| == |orbit| && forall i :: 0 <= i < |orbit| ==> chain[i] == orbit[i].spec
    ensures ClosedGraph(nodes)
    ensures Edges(nodes) == old(Edges(nodes)) - old(CycleFrom(Edges(nodes), container))
    ensures forall c :: c in nodes ==>
              c.result == if c in old(CycleFrom(Edges(nodes), container)) then Failed(chain) else old(c.result)
  {
    ghost var edges := Edges(nodes);
    orbit := Orbit(edges, container);
    chain := DescribeCycle(container, nodes, orbit);
    FailOrbit(container, nodes, orbit, chain);
  }

  /** The second pass over the cycle: every container on it fails and loses its edge. */
  method FailOrbit(container: ResourceContainer, ghost nodes: set<ResourceContainer>,
                   ghost orbit: seq<ResourceContainer>,
                   chain: seq<string>)
    requires container in nodes && ClosedGraph(nodes)
    requires IsOrbit(Edges(nodes), orbit) && orbit[0] == container
    modifies nodes
    ensures forall c :: c in nodes ==>
              if c in orbit then c.creationBlockedOn == null && c.result == Failed(chain)
              else c.creationBlockedOn == old(c.creationBlockedOn) && c.result == old(c.result)
  {
    ghost var edges := Edges(nodes);
    var node := container;
    ghost var i := 0;
    while true
      invariant 0 <= i < |orbit| && node == orbit[i]
      invariant forall c :: c in nodes ==>
        if c in orbit[..i] then c.creationBlockedOn == null && c.result == Failed(chain)
        else c.creationBlockedOn == old(c.creationBlockedOn) && c.result == old(c.result)
      decreases |orbit| - i
    {
      assert node in edges && node !in orbit[..i];
      var next: ResourceContainer := node.creationBlockedOn;
      node.creationBlockedOn := null;
      node.result := Failed(chain);
      assert orbit[..i + 1] == orbit[..i] + [node];
      assert next == edges[node];
      node := next;
      i := i + 1;
      assert i < |orbit| ==> node == orbit[i] && orbit[i] != orbit[0];
      if node == container {
        break;
      }
    }
    assert orbit[..i] == orbit;
  }

  // ----- The critical sections of WaitForCompletion and CreateResource ------------------

  /** Whether the creation of one container waits for another's is recorded before waiting. */
  method BlockOn(trigger: ResourceContainer?, container: ResourceContainer, ghost nodes: set<ResourceContainer>)
    requires container in nodes && ClosedGraph(nodes)
    requires trigger != null ==> trigger in nodes && trigger.creationBlockedOn == null
    modifies if trigger == null then {} else {trigger}
    ensures ClosedGraph(nodes)
    ensures Edges(nodes) == if trigger == null then old(Edges(nodes)) else old(Edges(nodes))[trigger := container]
    ensures forall c :: c in nodes ==> c.result == old(c.result)
  {
    if trigger != null {
      trigger.creationBlockedOn := container;
    }
  }

  /** A waiter that has timed out while its container is not ready fails the cycle, if any, that
      the container leads to; the container itself need not be on it. */
  method CheckForDeadlock(container: ResourceContainer, ghost nodes: set<ResourceContainer>)
    returns (ghost chain: seq<string>)
    requires container in nodes && ClosedGraph(nodes)
    modifies nodes
    ensures ClosedGraph(nodes)
    ensures old(container.Ready()) ==> Edges(nodes) == old(Edges(nodes))
    ensures !old(container.Ready()) ==> Edges(nodes) == old(Edges(nodes)) - old(CycleFrom(Edges(nodes), container))
    ensures forall c :: c in nodes ==>
              c.result == if !old(container.Ready()) && c in old(CycleFrom(Edges(nodes), container)) then Failed(chain)
                          else old(c.result)
  {
    chain := [];
    if !container.Ready() {
      var cycleNode, steps := FindCycle(container, nodes);
      if cycleNode.Some? {
        SameCycle(Edges(nodes), container, cycleNode.value);
        ghost var orbit;
        chain, orbit := KillCycle(cycleNode.value, nodes);
      }
    }
  }

  /** The end of a wait, or of a creation: the trigger is no longer blocked. */
  method Unblock(trigger: ResourceContainer?, ghost nodes: set<ResourceContainer>)
    requires ClosedGraph(nodes) && (trigger != null ==> trigger in nodes)
    modifies if trigger == null then {} else {trigger}
    ensures ClosedGraph(nodes)
    ensures Edges(nodes) == if trigger == null then old(Edges(nodes)) else old(Edges(nodes)) - {trigger}
    ensures forall c :: c in nodes ==> c.result == old(c.result)
  {
    if trigger != null {
      trigger.creationBlockedOn := null;
    }
  }

  /** A creation has returned: its result is stored, even over an earlier one. */
  method FinishCreation(container: ResourceContainer, result: CreationResult, trigger: ResourceContainer?,
                        ghost nodes: set<ResourceContainer>)
    requires container in nodes && ClosedGraph(nodes) && !result.NotReady?
    requires trigger != null ==> trigger in nodes
    modifies {container} + if trigger == null then {} else {trigger}
    ensures ClosedGraph(nodes)
    ensures Edges(nodes) == if trigger == null then old(Edges(nodes)) else old(Edges(nodes)) - {trigger}
    ensures container.Ready()
    ensures forall c :: c in nodes ==> c.result == if c == container then result else old(c.result)
  {
    container.result := result;
    Unblock(trigger, nodes);
  }
}
