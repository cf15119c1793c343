/** Concurrent creation of context resources, as interleaved critical sections of
    tensorstore/context.cc: every schedule avoids deadlock.

    Containers are numbered in the order they are created. A container is *live* while the
    thread creating it has not stored its result. That thread issues one request at a time, on
    behalf of the container, for another container: it either creates it (and is blocked until
    that creation returns) or waits for it. It stops at the first request that fails. */
module Deadlock {
  import opened Results
  import opened Graph

  type Id = nat

  datatype Request =
    | Creating(target: Id)
    | Waiting(target: Id, checked: bool)  // checked: has looked for a deadlock after its timeout

  datatype Waiter = OnBehalfOf(container: Id) | Outside(thread: nat)

  datatype State = State(
    next: nat,                       // the number of containers created so far
    created: set<Id>,
    blocked: map<Id, Id>,            // creation_blocked_on_
    results: map<Id, bool>,          // the ready containers, and whether creation succeeded
    live: set<Id>,
    triggers: map<Id, Id>,           // the container, if any, on whose behalf a live one is created
    requests: map<Id, Request>,      // the outstanding request on behalf of a live container
    failed: set<Id>,                 // containers for which a request has failed
    outside: map<nat, Request>,      // waits by threads that are not creating any container
    killed: set<Id>)                 // every container that was ever on a killed cycle

  datatype Event =
    | Create(trigger: Option<Id>)
    | BeginWait(waiter: Waiter, target: Id)
    | TimedCheck(waiter: Waiter)
    | EndWait(waiter: Waiter)
    | Finish(container: Id, ok: bool)

  const INIT: State := State(0, {}, map[], map[], {}, map[], map[], {}, map[], {})

  // ----- The steps --------------------------------------------------------------------

  /** The thread creating `t` may issue a request: it has none, and none has failed. */
  predicate MayRequest(s: State, t: Id) {
    t in s.live && t !in s.requests && t !in s.failed
  }

  function RequestOf(s: State, w: Waiter): (r: Option<Request>) {
    match w
    case OnBehalfOf(t) => if t in s.requests then Some(s.requests[t]) else None
    case Outside(u) => if u in s.outside then Some(s.outside[u]) else None
  }

  predicate IsWaiting(s: State, w: Waiter) {
    RequestOf(s, w).Some? && RequestOf(s, w).value.Waiting?
  }

  ghost predicate Enabled(s: State, e: Event) {
    match e
    case Create(trigger) => trigger.Some? ==> MayRequest(s, trigger.value)
    case BeginWait(w, c) =>
      && c in s.created
      && (match w case OnBehalfOf(t) => MayRequest(s, t) case Outside(u) => u !in s.outside)
    case TimedCheck(w) =>
      && IsWaiting(s, w)
      && !RequestOf(s, w).value.checked
      && RequestOf(s, w).value.target !in s.results
    case EndWait(w) => IsWaiting(s, w) && RequestOf(s, w).value.target in s.results
    case Finish(c, ok) => c in s.live && c !in s.requests && (ok ==> c !in s.failed)
  }

  function SetRequest(s: State, w: Waiter, r: Request): State {
    match w
    case OnBehalfOf(t) => s.(requests := s.requests[t := r])
    case Outside(u) => s.(outside := s.outside[u := r])
  }

  /** The request on behalf of `t` has returned. */
  function Return(s: State, t: Id, ok: bool): State {
    s.(blocked := s.blocked - {t},
       requests := s.requests - {t},
       failed := if ok then s.failed else s.failed + {t})
  }

  function ReturnWait(s: State, w: Waiter, ok: bool): State {
    match w
    case OnBehalfOf(t) => Return(s, t, ok)
    case Outside(u) => s.(outside := s.outside - {u})
  }

  ghost function Kill(s: State, cycle: set<Id>): State {
    s.(blocked := s.blocked - cycle,
       results := map c | c in s.results.Keys + cycle :: c !in cycle && s.results[c],
       killed := s.killed + cycle)
  }

  ghost function Apply(s: State, e: Event): State
    requires Enabled(s, e)
  {
    match e
    case Create(trigger) =>
      var created := s.(next := s.next + 1, created := s.created + {s.next}, live := s.live + {s.next});
      if trigger.None? then created
      else created.(blocked := s.blocked[trigger.value := s.next],
                    triggers := s.triggers[s.next := trigger.value],
                    requests := s.requests[trigger.value := Creating(s.next)])
    case BeginWait(w, c) =>
      if c in s.results then ReturnWait(s, w, s.results[c])
      else
        var waiting := SetRequest(s, w, Waiting(c, false));
        if w.OnBehalfOf? then waiting.(blocked := s.blocked[w.container := c]) else waiting
    case TimedCheck(w) =>
      var c := RequestOf(s, w).value.target;
      Kill(SetRequest(s, w, Waiting(c, true)), CycleFrom(s.blocked, c))
    case EndWait(w) =>
      ReturnWait(s, w, s.results[RequestOf(s, w).value.target])
    case Finish(c, ok) =>
      var finished := s.(results := s.results[c := ok], live := s.live - {c}, triggers := s.triggers - {c});
      if c in s.triggers then Return(finished, s.triggers[c], ok) else finished
  }

  // ----- The invariant ------------------------------------------------------------------

  ghost predicate WellFormed(s: State) {
    && (forall c :: c in s.created ==> c < s.next && (c in s.live || c in s.results))
    && (forall c :: c in s.live || c in s.results ==> c in s.created)
    && (forall t :: t in s.requests ==> t in s.live && s.requests[t].target in s.created)
    && (forall u :: u in s.outside ==> s.outside[u].Waiting? && s.outside[u].target in s.created)
    && (forall c :: c in s.live && c in s.results ==> c in s.killed)
  }

  /** An edge stands for the outstanding request of its container; a request without an edge
      has had it removed together with a killed cycle. */
  ghost predicate EdgesAreRequests(s: State) {
    && (forall t :: t in s.blocked ==> t in s.requests && s.requests[t].target == s.blocked[t])
    && (forall t :: t in s.requests ==> t in s.blocked || (t in s.killed && s.requests[t].target in s.killed))
  }

  ghost predicate CreationsNest(s: State) {
    && (forall t :: t in s.requests && s.requests[t].Creating? ==>
          var c := s.requests[t].target;
          t < c && c in s.triggers && s.triggers[c] == t)
    && (forall c :: c in s.triggers ==>
          c in s.live && s.triggers[c] in s.requests && s.requests[s.triggers[c]] == Creating(c))
  }

  /** A killed container has failed for good, and the thread creating it is on its way out. */
  ghost predicate KilledFail(s: State) {
    && (forall c :: c in s.killed ==> c in s.results && !s.results[c] && c !in s.blocked)
    && (forall c :: c in s.killed && c in s.live ==> c in s.requests || c in s.failed)
  }

  ghost predicate Unchecked(s: State, t: Id) {
    t in s.requests && s.requests[t].Waiting? && !s.requests[t].checked
  }

  /** One of the first `k` nodes of the walk from `x` has not yet looked for a deadlock. */
  ghost predicate SomeUnchecked(s: State, x: Id, k: nat) {
    exists j: nat :: j < k && Walk(s.blocked, x, j).Some? && Unchecked(s, Walk(s.blocked, x, j).value)
  }

  /** Every cycle contains a waiter that will still look for it. */
  ghost predicate CyclesAreWatched(s: State) {
    forall x: Id, k: nat :: k > 0 && Walk(s.blocked, x, k) == Some(x) ==> SomeUnchecked(s, x, k)
  }

  ghost predicate Structured(s: State) {
    WellFormed(s) && EdgesAreRequests(s) && CreationsNest(s) && KilledFail(s)
  }

  ghost predicate Inv(s: State) {
    Structured(s) && CyclesAreWatched(s)
  }

  // ----- Walks when edges come and go -----------------------------------------------------

  ghost predicate Subgraph(small: map<Id, Id>, large: map<Id, Id>) {
    forall x :: x in small ==> x in large && large[x] == small[x]
  }

  lemma {:induction false} WalkInSubgraph(small: map<Id, Id>, large: map<Id, Id>, x: Id, k: nat)
    requires Subgraph(small, large) && Walk(small, x, k).Some?
    ensures Walk(large, x, k) == Walk(small, x, k)
  {
    if k > 0 {
      WalkPrefix(small, x, k - 1, k);
      WalkInSubgraph(small, large, x, k - 1);
    }
  }

  /** The node `t` is not among the first `k` of the walk. */
  ghost predicate Avoids(edges: map<Id, Id>, x: Id, k: nat, t: Id) {
    forall j: nat :: j < k ==> Walk(edges, x, j) != Some(t)
  }

  lemma {:induction false} WalkWithoutEdge(edges: map<Id, Id>, t: Id, c: Id, x: Id, k: nat)
    requires Avoids(edges[t := c], x, k, t)
    ensures Walk(edges, x, k) == Walk(edges[t := c], x, k)
  {
    if k > 0 {
      WalkWithoutEdge(edges, t, c, x, k - 1);
    }
  }

  /** Watching survives a step that removes edges, as long as every waiter that stops being
      unchecked is no longer on a cycle. */
  lemma WatchedWithFewerEdges(s: State, s': State)
    requires CyclesAreWatched(s) && Subgraph(s'.blocked, s.blocked)
    requires forall t :: Unchecked(s, t) && OnCycle(s'.blocked, t) ==> Unchecked(s', t)
    ensures CyclesAreWatched(s')
  {
    forall x: Id, k: nat | k > 0 && Walk(s'.blocked, x, k) == Some(x)
      ensures SomeUnchecked(s', x, k)
    {
      WalkInSubgraph(s'.blocked, s.blocked, x, k);
      var j: nat :| j < k && Walk(s.blocked, x, j).Some? && Unchecked(s, Walk(s.blocked, x, j).value);
      WalkPrefix(s'.blocked, x, j, k);
      WalkInSubgraph(s'.blocked, s.blocked, x, j);
      OrbitReturns(s'.blocked, x, k, j);
    }
  }

  /** Watching survives a new edge from `t`, if `t` is unchecked or the edge leads nowhere. */
  lemma WatchedWithNewEdge(s: State, s': State, t: Id, c: Id)
    requires CyclesAreWatched(s) && s'.blocked == s.blocked[t := c]
    requires forall u :: Unchecked(s, u) ==> Unchecked(s', u)
    requires Unchecked(s', t) || (c !in s.blocked && c != t)
    ensures CyclesAreWatched(s')
  {
    forall x: Id, k: nat | k > 0 && Walk(s'.blocked, x, k) == Some(x)
      ensures SomeUnchecked(s', x, k)
    {
      if Avoids(s'.blocked, x, k, t) {
        WalkWithoutEdge(s.blocked, t, c, x, k);
        var j: nat :| j < k && Walk(s.blocked, x, j).Some? && Unchecked(s, Walk(s.blocked, x, j).value);
        WalkWithoutEdge(s.blocked, t, c, x, j);
        assert Walk(s'.blocked, x, j).Some? && Unchecked(s', Walk(s'.blocked, x, j).value);
      } else {
        var j: nat :| j < k && Walk(s'.blocked, x, j) == Some(t);
        if !Unchecked(s', t) {
          OrbitReturns(s'.blocked, x, k, j);
          WalkLeadsNowhere(s'.blocked, t, c, k);
        }
      }
    }
  }

  lemma WalkLeadsNowhere(edges: map<Id, Id>, t: Id, c: Id, k: nat)
    requires t in edges && edges[t] == c && c !in edges && c != t && k > 0
    ensures Walk(edges, t, k) != Some(t)
  {
    assert Walk(edges, t, 0) == Some(t);
    assert Walk(edges, t, 1) == Some(c);
    if k > 1 && Walk(edges, t, k).Some? {
      WalkPrefix(edges, t, 1, k);
    }
  }

  // ----- Every step keeps the invariant ---------------------------------------------------

  lemma CreateKeepsStructure(s: State, trigger: Option<Id>)
    requires Structured(s) && Enabled(s, Create(trigger))
    ensures Structured(Apply(s, Create(trigger)))
  {
    CreateKeepsEdges(s, trigger);
    CreateKeepsNesting(s, trigger);
  }

  lemma CreateKeepsEdges(s: State, trigger: Option<Id>)
    requires Structured(s) && Enabled(s, Create(trigger))
    ensures var s' := Apply(s, Create(trigger)); WellFormed(s') && EdgesAreRequests(s')
  {
  }

  lemma CreateKeepsNesting(s: State, trigger: Option<Id>)
    requires Structured(s) && Enabled(s, Create(trigger))
    ensures var s' := Apply(s, Create(trigger)); CreationsNest(s') && KilledFail(s')
  {
  }

  lemma BeginWaitKeepsStructure(s: State, w: Waiter, c: Id)
    requires Structured(s) && Enabled(s, BeginWait(w, c))
    ensures Structured(Apply(s, BeginWait(w, c)))
  {
    if c in s.results {
      ReturnWaitKeepsStructure(s, w, s.results[c]);
    } else {
      match w
      case OnBehalfOf(t) => BlockKeepsStructure(s, t, c);
      case Outside(u) => OutsideKeepsStructure(s, s.outside[u := Waiting(c, false)]);
    }
  }

  lemma EndWaitKeepsStructure(s: State, w: Waiter)
    requires Structured(s) && Enabled(s, EndWait(w))
    ensures Structured(Apply(s, EndWait(w)))
  {
    ReturnWaitKeepsStructure(s, w, s.results[RequestOf(s, w).value.target]);
  }

  lemma OutsideKeepsStructure(s: State, outside: map<nat, Request>)
    requires Structured(s)
    requires forall u :: u in outside ==> outside[u].Waiting? && outside[u].target in s.created
    ensures Structured(s.(outside := outside))
  {
  }

  lemma BlockKeepsStructure(s: State, t: Id, c: Id)
    requires Structured(s) && MayRequest(s, t) && c in s.created
    ensures Structured(s.(requests := s.requests[t := Waiting(c, false)], blocked := s.blocked[t := c]))
  {
    BlockKeepsEdges(s, t, c);
    BlockKeepsNesting(s, t, c);
  }

  lemma BlockKeepsEdges(s: State, t: Id, c: Id)
    requires WellFormed(s) && EdgesAreRequests(s) && MayRequest(s, t) && c in s.created
    ensures var s' := s.(requests := s.requests[t := Waiting(c, false)], blocked := s.blocked[t := c]);
            WellFormed(s') && EdgesAreRequests(s')
  {
  }

  lemma BlockKeepsNesting(s: State, t: Id, c: Id)
    requires CreationsNest(s) && KilledFail(s) && MayRequest(s, t)
    ensures var s' := s.(requests := s.requests[t := Waiting(c, false)], blocked := s.blocked[t := c]);
            CreationsNest(s') && KilledFail(s')
  {
  }

  lemma ReturnKeepsStructure(s: State, t: Id, ok: bool)
    requires Structured(s) && t in s.live && (t in s.requests ==> s.requests[t].Waiting?)
    requires t in s.killed ==> !ok
    ensures Structured(Return(s, t, ok))
  {
  }

  lemma ReturnWaitKeepsStructure(s: State, w: Waiter, ok: bool)
    requires Structured(s)
    requires w.OnBehalfOf? ==>
               && w.container in s.live && (w.container in s.requests ==> s.requests[w.container].Waiting?)
               && (w.container in s.killed ==> !ok)
    ensures Structured(ReturnWait(s, w, ok))
  {
    match w
    case OnBehalfOf(t) => ReturnKeepsStructure(s, t, ok);
    case Outside(u) => OutsideKeepsStructure(s, s.outside - {u});
  }

  lemma FinishKeepsStructure(s: State, c: Id, ok: bool)
    requires Structured(s) && Enabled(s, Finish(c, ok))
    ensures Structured(Apply(s, Finish(c, ok)))
  {
    FinishKeepsEdges(s, c, ok);
    FinishKeepsNesting(s, c, ok);
    FinishKeepsFailure(s, c, ok);
  }

  lemma FinishKeepsEdges(s: State, c: Id, ok: bool)
    requires Structured(s) && Enabled(s, Finish(c, ok))
    ensures var s' := Apply(s, Finish(c, ok)); WellFormed(s') && EdgesAreRequests(s')
  {
  }

  lemma FinishKeepsNesting(s: State, c: Id, ok: bool)
    requires Structured(s) && Enabled(s, Finish(c, ok))
    ensures CreationsNest(Apply(s, Finish(c, ok)))
  {
    if c in s.triggers {
      forall d | d in s.triggers && d != c
        ensures s.triggers[d] != s.triggers[c]
      {
        assert s.requests[s.triggers[d]] == Creating(d);
      }
      var finished := s.(results := s.results[c := ok], live := s.live - {c}, triggers := s.triggers - {c});
      ReturnKeepsNesting(finished, s.triggers[c], c, ok);
    }
  }

  lemma ReturnKeepsNesting(s: State, t: Id, c: Id, ok: bool)
    requires c !in s.triggers && t in s.requests && s.requests[t] == Creating(c)
    requires forall u :: u in s.requests && s.requests[u].Creating? && u != t ==>
               var d := s.requests[u].target;
               u < d && d in s.triggers && s.triggers[d] == u
    requires forall d :: d in s.triggers ==>
               && d in s.live && s.triggers[d] != t
               && s.triggers[d] in s.requests && s.requests[s.triggers[d]] == Creating(d)
    ensures CreationsNest(Return(s, t, ok))
  {
  }

  lemma FinishKeepsFailure(s: State, c: Id, ok: bool)
    requires Structured(s) && Enabled(s, Finish(c, ok))
    ensures KilledFail(Apply(s, Finish(c, ok)))
  {
  }

  lemma TimedCheckKeepsStructure(s: State, w: Waiter)
    requires Structured(s) && Enabled(s, TimedCheck(w))
    ensures Structured(Apply(s, TimedCheck(w)))
  {
    var cycle := CycleFrom(s.blocked, RequestOf(s, w).value.target);
    forall k | k in cycle
      ensures k !in s.results && k in s.live && k in s.blocked && s.blocked[k] in cycle
    {
      KilledCycleIsNotReady(s, w, k);
    }
    KillKeepsStructure(s, w, cycle);
  }

  lemma KillKeepsStructure(s: State, w: Waiter, cycle: set<Id>)
    requires Structured(s) && Enabled(s, TimedCheck(w))
    requires forall k :: k in cycle ==> k !in s.results && k in s.live && k in s.blocked && s.blocked[k] in cycle
    ensures Structured(Kill(SetRequest(s, w, Waiting(RequestOf(s, w).value.target, true)), cycle))
  {
    var c := RequestOf(s, w).value.target;
    match w
    case OnBehalfOf(t) =>
      CheckKeepsStructure(s, t);
      RemoveCycleKeepsStructure(SetRequest(s, w, Waiting(c, true)), cycle);
    case Outside(u) =>
      OutsideKeepsStructure(s, s.outside[u := Waiting(c, true)]);
      RemoveCycleKeepsStructure(SetRequest(s, w, Waiting(c, true)), cycle);
  }

  lemma CheckKeepsStructure(s: State, t: Id)
    requires Structured(s) && t in s.requests && s.requests[t].Waiting?
    ensures Structured(s.(requests := s.requests[t := Waiting(s.requests[t].target, true)]))
  {
    CheckKeepsEdges(s, t);
  }

  lemma CheckKeepsEdges(s: State, t: Id)
    requires Structured(s) && t in s.requests && s.requests[t].Waiting?
    ensures var s' := s.(requests := s.requests[t := Waiting(s.requests[t].target, true)]);
            WellFormed(s') && EdgesAreRequests(s')
  {
  }

  lemma RemoveCycleKeepsStructure(s: State, cycle: set<Id>)
    requires Structured(s)
    requires forall k :: k in cycle ==> k !in s.results && k in s.live && k in s.blocked && s.blocked[k] in cycle
    ensures Structured(Kill(s, cycle))
  {
  }

  /** The killed cycle consists of containers that are not ready, each blocked on the next. */
  lemma KilledCycleIsNotReady(s: State, w: Waiter, k: Id)
    requires Structured(s) && Enabled(s, TimedCheck(w))
    requires k in CycleFrom(s.blocked, RequestOf(s, w).value.target)
    ensures k !in s.results && k in s.live && k in s.blocked
    ensures s.blocked[k] in CycleFrom(s.blocked, RequestOf(s, w).value.target)
  {
    CycleIsClosed(s.blocked, RequestOf(s, w).value.target, k);
  }

  lemma CycleIsClosed(edges: map<Id, Id>, x: Id, y: Id)
    requires y in CycleFrom(edges, x)
    ensures edges[y] in CycleFrom(edges, x)
  {
    var k: nat :| Walk(edges, x, k) == Some(y);
    var p: nat :| p > 0 && Walk(edges, y, p) == Some(y);
    assert Walk(edges, x, k + 1) == Some(edges[y]);
    assert Walk(edges, y, 0) == Some(y);
    assert Walk(edges, y, 1) == Some(edges[y]);
    OrbitReturns(edges, y, p, 1);
    WalkPrefix(edges, edges[y], 0, p);
  }

  lemma CycleNodesHaveEdges(edges: map<Id, Id>, t: Id)
    requires OnCycle(edges, t)
    ensures t in edges
  {
    var k: nat :| k > 0 && Walk(edges, t, k) == Some(t);
    WalkPrefix(edges, t, 0, k);
  }

  /** After the check, the edge of the waiter that made it is on no cycle. */
  lemma CheckedWaiterIsOffCycles(edges: map<Id, Id>, edges': map<Id, Id>, t: Id, c: Id)
    requires t in edges ==> edges[t] == c
    requires edges' == edges - CycleFrom(edges, c)
    ensures !OnCycle(edges', t)
  {
    if k: nat :| k > 0 && Walk(edges', t, k) == Some(t) {
      WalkPrefix(edges', t, 0, k);
      WalkInSubgraph(edges', edges, t, k);
      assert Walk(edges, t, 1) == Some(c) by { assert Walk(edges, t, 0) == Some(t); }
      WalkConcat(edges, t, 1, k - 1);
      assert Reaches(edges, c, t) && OnCycle(edges, t);
    }
  }

  lemma StepKeepsWatch(s: State, e: Event)
    requires Inv(s) && Enabled(s, e)
    ensures CyclesAreWatched(Apply(s, e))
  {
    var s' := Apply(s, e);
    match e
    case Create(Some(t)) => WatchedWithNewEdge(s, s', t, s.next);
    case Create(None) => WatchedWithFewerEdges(s, s');
    case BeginWait(w, c) => BeginWaitKeepsWatch(s, w, c);
    case TimedCheck(w) => CheckKeepsWatch(s, w);
    case EndWait(w) => ReturnWaitKeepsWatch(s, w, s.results[RequestOf(s, w).value.target]);
    case Finish(c, ok) => FinishKeepsWatch(s, c, ok);
  }

  lemma BeginWaitKeepsWatch(s: State, w: Waiter, c: Id)
    requires CyclesAreWatched(s) && Enabled(s, BeginWait(w, c))
    ensures CyclesAreWatched(Apply(s, BeginWait(w, c)))
  {
    var s' := Apply(s, BeginWait(w, c));
    if c in s.results {
      ReturnWaitKeepsWatch(s, w, s.results[c]);
    } else if w.OnBehalfOf? {
      WatchedWithNewEdge(s, s', w.container, c);
    } else {
      WatchedWithFewerEdges(s, s');
    }
  }

  lemma FinishKeepsWatch(s: State, c: Id, ok: bool)
    requires CyclesAreWatched(s) && Enabled(s, Finish(c, ok))
    ensures CyclesAreWatched(Apply(s, Finish(c, ok)))
  {
    var finished := s.(results := s.results[c := ok], live := s.live - {c}, triggers := s.triggers - {c});
    WatchedWithFewerEdges(s, finished);
    if c in s.triggers {
      ReturnKeepsWatch(finished, s.triggers[c], ok);
    }
  }

  lemma ReturnKeepsWatch(s: State, t: Id, ok: bool)
    requires CyclesAreWatched(s)
    ensures CyclesAreWatched(Return(s, t, ok))
  {
    var s' := Return(s, t, ok);
    forall u | OnCycle(s'.blocked, u)
      ensures u in s'.blocked
    {
      CycleNodesHaveEdges(s'.blocked, u);
    }
    WatchedWithFewerEdges(s, s');
  }

  lemma ReturnWaitKeepsWatch(s: State, w: Waiter, ok: bool)
    requires CyclesAreWatched(s)
    ensures CyclesAreWatched(ReturnWait(s, w, ok))
  {
    match w
    case OnBehalfOf(t) => ReturnKeepsWatch(s, t, ok);
    case Outside(u) => WatchedWithFewerEdges(s, ReturnWait(s, w, ok));
  }

  lemma CheckKeepsWatch(s: State, w: Waiter)
    requires Inv(s) && Enabled(s, TimedCheck(w))
    ensures CyclesAreWatched(Apply(s, TimedCheck(w)))
  {
    var s' := Apply(s, TimedCheck(w));
    var c := RequestOf(s, w).value.target;
    forall t | Unchecked(s, t) && OnCycle(s'.blocked, t)
      ensures Unchecked(s', t)
    {
      if w == OnBehalfOf(t) {
        CheckedWaiterIsOffCycles(s.blocked, s'.blocked, t, c);
      }
    }
    WatchedWithFewerEdges(s, s');
  }

  lemma StepKeepsInv(s: State, e: Event)
    requires Inv(s) && Enabled(s, e)
    ensures Inv(Apply(s, e))
  {
    StepKeepsWatch(s, e);
    match e
    case Create(trigger) => CreateKeepsStructure(s, trigger);
    case BeginWait(w, c) => BeginWaitKeepsStructure(s, w, c);
    case TimedCheck(w) => TimedCheckKeepsStructure(s, w);
    case EndWait(w) => EndWaitKeepsStructure(s, w);
    case Finish(c, ok) => FinishKeepsStructure(s, c, ok);
  }

  // ----- Runs -----------------------------------------------------------------------------

  ghost predicate IsRun(s: State, events: seq<Event>)
    decreases |events|
  {
    events != [] ==> Enabled(s, events[0]) && IsRun(Apply(s, events[0]), events[1..])
  }

  ghost function After(s: State, events: seq<Event>): State
    requires IsRun(s, events)
    decreases |events|
  {
    if events == [] then s else After(Apply(s, events[0]), events[1..])
  }

  lemma {:induction false} RunKeepsInv(s: State, events: seq<Event>)
    requires Inv(s) && IsRun(s, events)
    ensures Inv(After(s, events))
    decreases |events|
  {
    if events != [] {
      StepKeepsInv(s, events[0]);
      RunKeepsInv(Apply(s, events[0]), events[1..]);
    }
  }

  lemma InitSatisfiesInv()
    ensures Inv(INIT)
  {
    forall x: Id, k: nat | k > 0
      ensures Walk(INIT.blocked, x, k) != Some(x)
    {
      if Walk(INIT.blocked, x, k).Some? {
        WalkPrefix(INIT.blocked, x, 0, k);
      }
    }
  }

  /** In every reachable state, every cycle of blocked containers contains one whose thread has
      added its edge but not yet looked for a deadlock ... */
  lemma ReachableCyclesAreWatched(events: seq<Event>, x: Id)
    requires IsRun(INIT, events)
    ensures var s := After(INIT, events);
            OnCycle(s.blocked, x) ==> exists t :: t in CycleFrom(s.blocked, x) && Unchecked(s, t)
  {
    InitSatisfiesInv();
    RunKeepsInv(INIT, events);
    var s := After(INIT, events);
    if k: nat :| k > 0 && Walk(s.blocked, x, k) == Some(x) {
      var j: nat :| j < k && Walk(s.blocked, x, j).Some? && Unchecked(s, Walk(s.blocked, x, j).value);
      var t := Walk(s.blocked, x, j).value;
      CycleIsOrbit(s.blocked, x, k, t);
      assert Walk(s.blocked, x, j) == Some(t);
      assert t in CycleFrom(s.blocked, x);
    }
  }

  /** ... so once every waiter has looked, there is no cycle. */
  lemma AllCheckedIsAcyclic(events: seq<Event>)
    requires IsRun(INIT, events)
    requires forall t :: !Unchecked(After(INIT, events), t)
    ensures forall x :: !OnCycle(After(INIT, events).blocked, x)
  {
    forall x
      ensures !OnCycle(After(INIT, events).blocked, x)
    {
      ReachableCyclesAreWatched(events, x);
    }
  }

  /** A container that is ready stays ready, and one that was killed never succeeds. */
  lemma {:induction false} ReadyIsForGood(s: State, events: seq<Event>, c: Id)
    requires Inv(s) && IsRun(s, events) && c in s.results
    ensures c in After(s, events).results
    ensures c in s.killed ==> !After(s, events).results[c]
    decreases |events|
  {
    if events != [] {
      StepKeepsInv(s, events[0]);
      StepKeepsReady(s, events[0], c);
      ReadyIsForGood(Apply(s, events[0]), events[1..], c);
    }
  }

  lemma StepKeepsReady(s: State, e: Event, c: Id)
    requires Structured(s) && Enabled(s, e) && c in s.results
    ensures var s' := Apply(s, e);
            c in s'.results && s.killed <= s'.killed && (c in s.killed ==> !s.results[c])
  {
  }

  /** A request is made only on behalf of a container that is not blocked: the assertion that
      guards every new edge. */
  lemma NewEdgeReplacesNone(events: seq<Event>, t: Id)
    requires IsRun(INIT, events) && MayRequest(After(INIT, events), t)
    ensures t !in After(INIT, events).blocked
    ensures t !in After(INIT, events).results
  {
    InitSatisfiesInv();
    RunKeepsInv(INIT, events);
  }

  // ----- No schedule gets stuck -------------------------------------------------------------

  /** A step that completes something already begun, rather than beginning something new. */
  predicate Completes(e: Event) {
    e.TimedCheck? || e.EndWait? || e.Finish?
  }

  ghost predicate CanComplete(s: State) {
    exists e :: Completes(e) && Enabled(s, e)
  }

  /** Every creation has finished and every wait has ended. */
  predicate Quiescent(s: State) {
    s.live == {} && s.outside == map[]
  }

  /** A killed container that is still live is unwinding, or is being unwound into. */
  lemma {:induction false} KilledCanComplete(s: State, c: Id)
    requires Structured(s) && c in s.killed && c in s.live
    ensures CanComplete(s)
    decreases s.next - c
  {
    if c !in s.requests {
      assert Enabled(s, Finish(c, false));
    } else if s.requests[c].Waiting? {
      assert Enabled(s, EndWait(OnBehalfOf(c)));
    } else {
      KilledCanComplete(s, s.requests[c].target);
    }
  }

  /** A live container whose thread is not blocked can take a step. */
  lemma UnblockedCanComplete(s: State, y: Id)
    requires Structured(s) && y in s.live && y !in s.blocked
    ensures CanComplete(s)
  {
    if y in s.requests {
      KilledCanComplete(s, y);
    } else {
      assert Enabled(s, Finish(y, false));
    }
  }

  /** A thread waiting for a container that is ready, or that has not looked, can take a step. */
  lemma WaiterCanComplete(s: State, w: Waiter)
    requires IsWaiting(s, w)
    requires RequestOf(s, w).value.target in s.results || !RequestOf(s, w).value.checked
    ensures CanComplete(s)
  {
    if RequestOf(s, w).value.target in s.results {
      assert Enabled(s, EndWait(w));
    } else {
      assert Enabled(s, TimedCheck(w));
    }
  }

  /** Whatever a blocked container leads to, someone can take a step: follow the blocked
      containers to the last, which is not blocked. */
  lemma LiveCanComplete(s: State, x: Id)
    requires Inv(s) && x in s.live
    ensures CanComplete(s)
  {
    if t :| Unchecked(s, t) {
      WaiterCanComplete(s, OnBehalfOf(t));
    } else {
      assert Closed(s.blocked, s.created);
      var n := UnwatchedWalkEnds(s, x);
      var k := LastStep(s.blocked, x, n);
      ChainEndCanComplete(s, x, k);
    }
  }

  lemma UnwatchedWalkEnds(s: State, x: Id) returns (n: nat)
    requires CyclesAreWatched(s) && (forall t :: !Unchecked(s, t))
    requires x in s.created && Closed(s.blocked, s.created)
    ensures Walk(s.blocked, x, n).None?
  {
    var ends, mu, lam := WalkEndsOrRepeats(s.blocked, s.created, x);
    n := mu + lam;
    if !ends {
      WalkConcat(s.blocked, x, mu, lam);
      assert false;
    }
  }

  lemma {:induction false} LastStep(edges: map<Id, Id>, x: Id, n: nat) returns (k: nat)
    requires Walk(edges, x, n).None?
    ensures Walk(edges, x, k).Some? && Walk(edges, x, k).value !in edges
  {
    k := n - 1;
    if Walk(edges, x, k).None? {
      k := LastStep(edges, x, k);
    }
  }

  lemma ChainEndCanComplete(s: State, x: Id, k: nat)
    requires Structured(s) && x in s.live
    requires Walk(s.blocked, x, k).Some? && Walk(s.blocked, x, k).value !in s.blocked
    ensures CanComplete(s)
  {
    var y := Walk(s.blocked, x, k).value;
    if y in s.live {
      UnblockedCanComplete(s, y);
    } else {
      var z := Walk(s.blocked, x, k - 1).value;
      WaiterCanComplete(s, OnBehalfOf(z));
    }
  }

  lemma NotStuck(s: State)
    requires Inv(s)
    ensures Quiescent(s) || CanComplete(s)
  {
    if c :| c in s.live {
      LiveCanComplete(s, c);
    } else if u :| u in s.outside {
      WaiterCanComplete(s, Outside(u));
    } else {
      assert s.outside == map[];
    }
  }

  /** Freedom from deadlock: in every reachable state in which anything is unfinished, some
      thread can complete a step. */
  lemma NeverStuck(events: seq<Event>)
    requires IsRun(INIT, events)
    ensures Quiescent(After(INIT, events)) || CanComplete(After(INIT, events))
  {
    InitSatisfiesInv();
    RunKeepsInv(INIT, events);
    NotStuck(After(INIT, events));
  }

  // ----- Every schedule finishes -------------------------------------------------------------

  ghost function UncheckedInside(s: State): set<Id> {
    set t | t in s.requests && Unchecked(s, t)
  }

  ghost function UncheckedOutside(s: State): set<nat> {
    set u | u in s.outside && s.outside[u].Waiting? && !s.outside[u].checked
  }

  /** What is left to complete: creations, requests, and checks for a deadlock. */
  ghost function Unfinished(s: State): nat {
    |s.live| + |s.requests.Keys| + |s.outside.Keys| + |UncheckedInside(s)| + |UncheckedOutside(s)|
  }

  lemma Smaller<T>(small: set<T>, large: set<T>)
    requires small <= large
    ensures |small| <= |large|
    ensures small != large ==> |small| < |large|
  {
    assert large == small + (large - small);
    if small != large {
      var x :| x in large - small;
    }
  }

  lemma CompletingMakesProgress(s: State, e: Event)
    requires Inv(s) && Enabled(s, e) && Completes(e)
    ensures Unfinished(Apply(s, e)) < Unfinished(s)
  {
    var s' := Apply(s, e);
    UncheckedShrinks(s, e);
    Smaller(s'.live, s.live);
    Smaller(s'.requests.Keys, s.requests.Keys);
    Smaller(s'.outside.Keys, s.outside.Keys);
    Smaller(UncheckedInside(s'), UncheckedInside(s));
    Smaller(UncheckedOutside(s'), UncheckedOutside(s));
  }

  /** Nothing grows, and something shrinks. */
  lemma UncheckedShrinks(s: State, e: Event)
    requires Structured(s) && Enabled(s, e) && Completes(e)
    ensures var s' := Apply(s, e);
            && s'.live <= s.live && s'.requests.Keys <= s.requests.Keys && s'.outside.Keys <= s.outside.Keys
            && UncheckedInside(s') <= UncheckedInside(s) && UncheckedOutside(s') <= UncheckedOutside(s)
            && (s'.live != s.live || s'.requests.Keys != s.requests.Keys || s'.outside.Keys != s.outside.Keys
                || UncheckedInside(s') != UncheckedInside(s) || UncheckedOutside(s') != UncheckedOutside(s))
  {
    match e
    case TimedCheck(OnBehalfOf(t)) => assert t in UncheckedInside(s);
    case TimedCheck(Outside(u)) => assert u in UncheckedOutside(s);
    case EndWait(OnBehalfOf(t)) => assert t in s.requests.Keys;
    case EndWait(Outside(u)) => assert u in s.outside.Keys;
    case Finish(c, ok) => assert c in s.live;
  }

  /** Without new requests, every schedule completes everything within a bounded number of
      steps: it cannot run longer, and it cannot stop earlier. */
  lemma {:induction false} EveryScheduleFinishes(s: State, schedule: seq<Event>)
    requires Inv(s) && IsRun(s, schedule) && forall i :: 0 <= i < |schedule| ==> Completes(schedule[i])
    ensures |schedule| <= Unfinished(s)
    ensures !CanComplete(After(s, schedule)) ==> Quiescent(After(s, schedule))
    decreases |schedule|
  {
    if schedule == [] {
      NotStuck(s);
    } else {
      StepKeepsInv(s, schedule[0]);
      CompletingMakesProgress(s, schedule[0]);
      EveryScheduleFinishes(Apply(s, schedule[0]), schedule[1..]);
    }
  }

  /** When nothing is unfinished, every container created is ready, and none is blocked. */
  lemma QuiescentIsReady(events: seq<Event>)
    requires IsRun(INIT, events) && Quiescent(After(INIT, events))
    ensures var s := After(INIT, events); s.results.Keys == s.created && s.blocked == map[]
  {
    InitSatisfiesInv();
    RunKeepsInv(INIT, events);
    var s := After(INIT, events);
    assert forall t :: t !in s.blocked;
    assert s.blocked.Keys == {};
  }
}
