/** Concurrent requests for named resources: the containers of `Deadlock`, with the names of `Resolver`
    that they are created for (tensorstore/context.cc). Whatever the interleaving, a container that is
    ready holds what its name means: a cycle of blocked containers is a cycle of references. */
module ConcurrentResolver {
  import opened Results
  import opened Graph
  import Deadlock
  import opened Resolver

  type Id = Deadlock.Id

  /** What a container is created for. */
  datatype Name =
    | Declared(context: Context, key: Key)                     // by the spec of a context
    | Inline(context: Context, referent: Key, provider: Key)   // by a reference without a key
    | RootDefault(key: Key)                                    // by the root, for a provider
    | OwnDefault(key: Key)                                     // by the root, for an empty referent in it

  ghost predicate IsValid(name: Name) {
    match name
    case Declared(c, key) => c.Rooted() && key in c.spec
    case Inline(c, _, _) => c.Rooted()
    case RootDefault(_) => true
    case OwnDefault(_) => true
  }

  /** Only these are found again in `resources_`. */
  predicate IsStored(name: Name) {
    name.Declared? || name.RootDefault?
  }

  // ----- Names and their links ---------------------------------------------------------------------

  /** What the creation of a container does: store an outcome, or request another name first. */
  datatype Task = Store(result: Result<Resource>) | Request(name: Name)

  ghost function Sought(c: Context, referent: Key, provider: Key): Task
    requires c.Rooted()
  {
    match Search(c, referent, provider)
    case Go(found, key) => Request(Declared(found, key))
    case Stop(result) => if result.Ok? then Request(RootDefault(referent)) else Store(Err)
  }

  ghost function TaskOf(name: Name): Task {
    if !IsValid(name) then Store(Err)
    else match name
    case Declared(c, key) =>
      var provider := ParseResourceProvider(key);
      (match c.spec[key]
       case Direct => Store(Ok(Made(c, key)))
       case Reference(referent) =>
         if referent != "" then Sought(c, referent, provider)
         else if c.parent != null then Sought(c.parent, provider, provider)
         else Request(OwnDefault(key)))
    case Inline(c, referent, provider) => Sought(c, referent, provider)
    case RootDefault(key) => Store(Ok(Default(key)))
    case OwnDefault(key) => Store(Ok(Default(key)))
  }

  ghost function MeaningOfName(name: Name): Result<Resource> {
    if !IsValid(name) then Err
    else match name
    case Declared(c, key) => Meaning(c, key)
    case Inline(c, referent, provider) => MeaningOf(Search(c, referent, provider))
    case RootDefault(key) => Ok(Default(key))
    case OwnDefault(key) => Ok(Default(key))
  }

  lemma {:induction false} SearchStops(c: Context, referent: Key, provider: Key)
    requires c.Rooted() && Search(c, referent, provider).Stop?
    ensures Search(c, referent, provider).result == Ok(Default(referent)) || Search(c, referent, provider).result == Err
    decreases c.depth
  {
    if referent !in c.spec && c.parent != null {
      SearchStops(c.parent, referent, provider);
    }
  }

  /** What is sought has the meaning that the search through the specs gives it. */
  lemma SoughtMeaning(c: Context, referent: Key, provider: Key)
    requires c.Rooted()
    ensures match Sought(c, referent, provider)
      case Store(result) => result == MeaningOf(Search(c, referent, provider))
      case Request(name) =>
        && IsValid(name) && (name.Declared? || name.RootDefault?)
        && MeaningOfName(name) == MeaningOf(Search(c, referent, provider))
        && (name.Declared? ==> Search(c, referent, provider) == Go(name.context, name.key))
  {
    if Search(c, referent, provider).Stop? {
      SearchStops(c, referent, provider);
    }
  }

  /** A name means what its task yields; and only names without an end can lead to one another. */
  lemma TaskMeaning(name: Name)
    requires IsValid(name)
    ensures match TaskOf(name)
      case Store(result) => result == MeaningOfName(name)
      case Request(other) =>
        && IsValid(other) && !other.Inline? && MeaningOfName(other) == MeaningOfName(name)
        && (name.Declared? && other.Declared? ==> Follow(name.context, name.key) == Go(other.context, other.key))
  {
    match name
    case Declared(c, key) =>
      MeaningFollows(c, key);
      var provider := ParseResourceProvider(key);
      if c.spec[key].Reference? {
        if c.spec[key].referent != "" {
          SoughtMeaning(c, c.spec[key].referent, provider);
        } else if c.parent != null {
          SoughtMeaning(c.parent, provider, provider);
        }
      }
    case Inline(c, referent, provider) => SoughtMeaning(c, referent, provider);
    case RootDefault(_) =>
    case OwnDefault(_) =>
  }

  // ----- States and steps -----------------------------------------------------------------------------

  /** The tasks and meanings of names, as far as the steps are concerned. */
  datatype Model = Model(task: Name -> Task, meaning: Name -> Result<Resource>)

  ghost const SPECS: Model := Model(TaskOf, MeaningOfName)

  /** A request by a thread that is not creating a resource: a wait of that thread for a container, or
      without a thread the creation of a container. The answer is what it returned. */
  datatype Asked = Asked(thread: Option<nat>, name: Name, container: Id, answer: Option<Result<Resource>>)

  datatype State = State(
    model: Model,                        // fixed by the specs
    base: Deadlock.State,
    names: map<Id, Name>,                // what each container was created for
    stored: map<Name, Id>,               // resources_, over all contexts
    values: map<Id, Result<Resource>>,   // result_ of the ready containers
    received: map<Id, Result<Resource>>, // what the request on behalf of a container returned
    asked: seq<Asked>)                   // history: the requests from outside any creation

  /** The events of `Deadlock`, with names and results. */
  datatype Event =
    | Make(trigger: Option<Id>, name: Name)
    | Wait(waiter: Deadlock.Waiter, target: Id)
    | Check(waiter: Deadlock.Waiter)
    | Wake(waiter: Deadlock.Waiter)
    | Complete(container: Id)

  ghost const INIT: State := State(SPECS, Deadlock.INIT, map[], map[], map[], map[], [])

  /** The creation of `t` still has to request `name`. */
  ghost predicate Needs(s: State, t: Id, name: Name) {
    t in s.names && t !in s.received && s.model.task(s.names[t]) == Request(name)
  }

  /** The result with which the creation of a container returns. */
  ghost function ResultOf(s: State, c: Id): Option<Result<Resource>> {
    if c !in s.names then None
    else match s.model.task(s.names[c])
      case Store(result) => Some(result)
      case Request(_) => if c in s.received then Some(s.received[c]) else None
  }

  ghost function BaseEvent(s: State, e: Event): Deadlock.Event {
    match e
    case Make(trigger, _) => Deadlock.Create(trigger)
    case Wait(w, c) => Deadlock.BeginWait(w, c)
    case Check(w) => Deadlock.TimedCheck(w)
    case Wake(w) => Deadlock.EndWait(w)
    case Complete(c) =>
      var result := ResultOf(s, c);
      Deadlock.Finish(c, result.Some? && result.value.Ok?)
  }

  /** A stored name is created once, and waited for afterwards; requests on behalf of a container are
      for the name that its own name leads to. */
  ghost predicate Enabled(s: State, e: Event) {
    && Deadlock.Enabled(s.base, BaseEvent(s, e))
    && match e
       case Make(trigger, name) =>
         && IsValid(name) && name !in s.stored
         && (if trigger.Some? then Needs(s, trigger.value, name) else name.Declared? || name.Inline?)
       case Wait(w, c) =>
         && c in s.names && IsStored(s.names[c])
         && (w.OnBehalfOf? ==> Needs(s, w.container, s.names[c]))
       case Check(_) => true
       case Wake(_) => true
       case Complete(c) => ResultOf(s, c).Some?
  }

  ghost function ValueOf(s: State, c: Id): Result<Resource> {
    if c in s.values then s.values[c] else Err
  }

  /** The request on behalf of the waiter returns what is stored in `c`. */
  ghost function Receive(s: State, w: Deadlock.Waiter, c: Id): map<Id, Result<Resource>> {
    if w.OnBehalfOf? then s.received[w.container := ValueOf(s, c)] else s.received
  }

  /** The requests from outside that are answered by the step, and the one that it begins. */
  ghost function Ask(s: State, e: Event): seq<Asked>
    requires Enabled(s, e)
  {
    match e
    case Make(None, name) => s.asked + [Asked(None, name, s.base.next, None)]
    case Wait(Outside(u), c) =>
      s.asked + [Asked(Some(u), s.names[c], c, if c in s.base.results then Some(ValueOf(s, c)) else None)]
    case Wake(Outside(u)) => Answer(s.asked, Some(u), s.base.outside[u].target, ValueOf(s, s.base.outside[u].target))
    case Complete(c) => Answer(s.asked, None, c, ResultOf(s, c).value)
    case _ => s.asked
  }

  /** The open requests of a thread, or the open creations, for a container return `value`. */
  ghost function Answer(asked: seq<Asked>, thread: Option<nat>, c: Id, value: Result<Resource>): seq<Asked> {
    seq(|asked|, i requires 0 <= i < |asked| =>
      if asked[i].thread == thread && asked[i].container == c && asked[i].answer.None?
      then asked[i].(answer := Some(value))
      else asked[i])
  }

  ghost function Apply(s: State, e: Event): State
    requires Enabled(s, e)
  {
    var s' := s.(base := Deadlock.Apply(s.base, BaseEvent(s, e)), asked := Ask(s, e));
    match e
    case Make(_, name) =>
      s'.(names := s.names[s.base.next := name],
          stored := if IsStored(name) then s.stored[name := s.base.next] else s.stored)
    case Wait(w, c) => if c in s.base.results then s'.(received := Receive(s, w, c)) else s'
    case Check(w) =>
      var cycle := CycleFrom(s.base.blocked, Deadlock.RequestOf(s.base, w).value.target);
      s'.(values := map c | c in s.values.Keys + cycle :: if c in cycle then Err else s.values[c])
    case Wake(w) => s'.(received := Receive(s, w, Deadlock.RequestOf(s.base, w).value.target))
    case Complete(c) =>
      var result := ResultOf(s, c).value;
      s'.(values := s.values[c := result],
          received := if c in s.base.triggers then s.received[s.base.triggers[c] := result] else s.received)
  }

  // ----- The invariant ----------------------------------------------------------------------------------

  /** An outstanding request follows the link of the name it is made for. */
  ghost predicate RequestFollows(s: State, t: Id) {
    t in s.base.requests ==>
      && t in s.names && s.base.requests[t].target in s.names && t !in s.received
      && s.model.task(s.names[t]) == Request(s.names[s.base.requests[t].target])
  }

  /** What a request returned is what the name means that it was made for. */
  ghost predicate ReceivedIsRight(s: State, t: Id) {
    && (t in s.received ==>
          && t in s.names && s.model.task(s.names[t]).Request? && s.received[t] == s.model.meaning(s.names[t]))
    && (t in s.base.failed <==> t in s.received && s.received[t].Err?)
  }

  /** What is stored in a ready container is what its name means. */
  ghost predicate ValueIsRight(s: State, c: Id) {
    && (c in s.values <==> c in s.base.results)
    && (c in s.values ==>
          c in s.names && s.values[c] == s.model.meaning(s.names[c]) && (s.values[c].Ok? <==> s.base.results[c]))
  }

  /** Each container has a name, and only one container is found again under it. */
  ghost predicate NameIsRight(s: State, c: Id) {
    && (c in s.names <==> c in s.base.created)
    && (c in s.names && IsStored(s.names[c]) ==> s.names[c] in s.stored && s.stored[s.names[c]] == c)
  }

  ghost predicate RightAt(s: State, c: Id) {
    NameIsRight(s, c) && RequestFollows(s, c) && ReceivedIsRight(s, c) && ValueIsRight(s, c)
  }

  ghost predicate StoredAt(s: State, name: Name) {
    name in s.stored ==> IsStored(name) && s.stored[name] in s.names && s.names[s.stored[name]] == name
  }

  /** A request from outside is still outstanding, or its container is ready and what it returned is what
      the requested name means. */
  ghost predicate AskedIsRight(s: State, asked: Asked) {
    && asked.container in s.names && s.names[asked.container] == asked.name
    && match asked.answer
       case Some(value) => asked.container in s.base.results && value == s.model.meaning(asked.name)
       case None =>
         match asked.thread
         case Some(u) => u in s.base.outside && s.base.outside[u].target == asked.container
         case None => asked.container in s.base.live
  }

  ghost predicate Right(s: State) {
    && (forall c :: RightAt(s, c))
    && (forall name :: name in s.stored ==> StoredAt(s, name))
    && (forall i :: 0 <= i < |s.asked| ==> AskedIsRight(s, s.asked[i]))
  }

  ghost predicate Inv(s: State) {
    s.model == SPECS && Deadlock.Inv(s.base) && Right(s)
  }

  // ----- The names of the containers mean what their tasks yield ---------------------------------------

  ghost predicate StoreAgrees(s: State, c: Id) {
    c in s.names && s.model.task(s.names[c]).Store? ==> s.model.meaning(s.names[c]) == s.model.task(s.names[c]).result
  }

  ghost predicate LinkAgrees(s: State, c: Id, d: Id) {
    c in s.names && d in s.names && s.model.task(s.names[c]) == Request(s.names[d]) ==>
      s.model.meaning(s.names[c]) == s.model.meaning(s.names[d])
  }

  ghost predicate Agrees(s: State) {
    (forall c :: StoreAgrees(s, c)) && (forall c, d :: LinkAgrees(s, c, d))
  }

  lemma SpecsAgree(s: State)
    requires s.model == SPECS
    ensures Agrees(s)
  {
    forall c
      ensures StoreAgrees(s, c)
    {
      if c in s.names && IsValid(s.names[c]) {
        TaskMeaning(s.names[c]);
      }
    }
    forall c, d
      ensures LinkAgrees(s, c, d)
    {
      if c in s.names && IsValid(s.names[c]) {
        TaskMeaning(s.names[c]);
      }
    }
  }

  // ----- A cycle of containers is a cycle of names ------------------------------------------------------

  /** The edges between containers stand for requests, which follow names. */
  ghost predicate EdgesFollow(s: State) {
    s.model == SPECS && Deadlock.EdgesAreRequests(s.base) && forall t :: RequestFollows(s, t)
  }

  lemma NextOnCycle(s: State, t: Id)
    requires EdgesFollow(s) && OnCycle(s.base.blocked, t)
    ensures t in s.base.blocked && t in s.names
    ensures var next := s.base.blocked[t];
            && OnCycle(s.base.blocked, next) && next in s.base.blocked && next in s.names
            && TaskOf(s.names[t]) == Request(s.names[next]) && TaskOf(s.names[next]).Request?
  {
    Deadlock.CycleNodesHaveEdges(s.base.blocked, t);
    assert Walk(s.base.blocked, t, 0) == Some(t);
    assert t in CycleFrom(s.base.blocked, t);
    Deadlock.CycleIsClosed(s.base.blocked, t, t);
    assert RequestFollows(s, t) && RequestFollows(s, s.base.blocked[t]);
  }

  lemma NextIsDeclared(s: State, t: Id) returns (next: Id)
    requires EdgesFollow(s) && OnCycle(s.base.blocked, t)
    ensures t in s.names && next in s.names && OnCycle(s.base.blocked, next) && s.names[next].Declared?
    ensures IsValid(s.names[t]) && IsValid(s.names[next])
    ensures MeaningOfName(s.names[t]) == MeaningOfName(s.names[next])
    ensures s.names[t].Declared? ==>
              Follow(s.names[t].context, s.names[t].key) == Go(s.names[next].context, s.names[next].key)
  {
    NextOnCycle(s, t);
    next := s.base.blocked[t];
    DefaultsStore(s.names[t]);
    TaskMeaning(s.names[t]);
    DefaultsStore(s.names[next]);
  }

  lemma DefaultsStore(name: Name)
    requires TaskOf(name).Request?
    ensures IsValid(name) && (name.Declared? || name.Inline?)
  {
  }

  lemma RequestIsValid(name: Name)
    requires TaskOf(name).Request?
    ensures IsValid(TaskOf(name).name) && (IsStored(TaskOf(name).name) || TaskOf(name).name.OwnDefault?)
  {
    DefaultsStore(name);
    TaskMeaning(name);
  }

  /** On a cycle every name leads to a declared one, so following declared names never ends. */
  lemma {:induction false} NoRunOnCycle(s: State, t: Id, n: nat)
    requires EdgesFollow(s) && OnCycle(s.base.blocked, t) && t in s.names && s.names[t].Declared?
    ensures IsValid(s.names[t]) && Run(s.names[t].context, s.names[t].key, n).None?
    decreases n
  {
    var next := NextIsDeclared(s, t);
    if n > 0 {
      NoRunOnCycle(s, next, n - 1);
    }
  }

  lemma DeclaredOnCycle(s: State, t: Id)
    requires EdgesFollow(s) && OnCycle(s.base.blocked, t) && t in s.names && s.names[t].Declared?
    ensures IsValid(s.names[t]) && MeaningOfName(s.names[t]) == Err
  {
    var next := NextIsDeclared(s, t);
    forall n: nat
      ensures Run(s.names[t].context, s.names[t].key, n).None?
    {
      NoRunOnCycle(s, t, n);
    }
  }

  /** So the names on a cycle mean an error. */
  lemma NamesOnCycleMeanError(s: State, t: Id)
    requires EdgesFollow(s) && OnCycle(s.base.blocked, t)
    ensures t in s.names && MeaningOfName(s.names[t]) == Err
  {
    var next := NextIsDeclared(s, t);
    DeclaredOnCycle(s, next);
  }

  // ----- Every step keeps the invariant -------------------------------------------------------------------

  /** The container that is created next is in none of the maps. */
  lemma NextIsNew(s: State)
    requires Deadlock.WellFormed(s.base) && Right(s)
    ensures var n := s.base.next;
            && n !in s.names && n !in s.base.created && n !in s.base.requests && n !in s.received
            && n !in s.base.failed && n !in s.base.results && n !in s.values
  {
    assert RightAt(s, s.base.next);
  }

  lemma MakeKeepsRightAt(s: State, trigger: Option<Id>, name: Name, c: Id)
    requires Deadlock.WellFormed(s.base) && Right(s) && Enabled(s, Make(trigger, name))
    ensures RightAt(Apply(s, Make(trigger, name)), c)
  {
    NextIsNew(s);
    assert RightAt(s, c);
  }

  lemma MakeKeepsStored(s: State, trigger: Option<Id>, name: Name)
    requires Deadlock.WellFormed(s.base) && Right(s) && Enabled(s, Make(trigger, name))
    ensures var s' := Apply(s, Make(trigger, name)); forall n :: n in s'.stored ==> StoredAt(s', n)
  {
    NextIsNew(s);
    var s' := Apply(s, Make(trigger, name));
    forall n | n in s'.stored
      ensures StoredAt(s', n)
    {
      assert n != name ==> StoredAt(s, n);
    }
  }

  lemma WaitKeepsRightAt(s: State, w: Deadlock.Waiter, target: Id, c: Id)
    requires Right(s) && Agrees(s) && Enabled(s, Wait(w, target))
    ensures RightAt(Apply(s, Wait(w, target)), c)
  {
    assert RightAt(s, c) && RightAt(s, target) && LinkAgrees(s, c, target);
  }

  lemma WakeKeepsRightAt(s: State, w: Deadlock.Waiter, c: Id)
    requires Right(s) && Agrees(s) && Enabled(s, Wake(w))
    ensures RightAt(Apply(s, Wake(w)), c)
  {
    var target := Deadlock.RequestOf(s.base, w).value.target;
    assert RightAt(s, c) && RightAt(s, target) && LinkAgrees(s, c, target);
  }

  lemma CheckKeepsRightAt(s: State, w: Deadlock.Waiter, c: Id)
    requires Right(s) && Enabled(s, Check(w))
    requires c in CycleFrom(s.base.blocked, Deadlock.RequestOf(s.base, w).value.target) ==>
               c in s.names && s.model.meaning(s.names[c]) == Err
    ensures RightAt(Apply(s, Check(w)), c)
  {
    assert RightAt(s, c);
  }

  /** A creation returns what its name means. */
  lemma ResultIsRight(s: State, c: Id)
    requires Right(s) && Agrees(s) && ResultOf(s, c).Some?
    ensures c in s.names && ResultOf(s, c).value == s.model.meaning(s.names[c])
  {
    assert RightAt(s, c) && StoreAgrees(s, c);
  }

  lemma CompleteKeepsRightAt(s: State, done: Id, c: Id)
    requires Deadlock.CreationsNest(s.base) && Right(s) && Agrees(s) && Enabled(s, Complete(done))
    ensures RightAt(Apply(s, Complete(done)), c)
  {
    ResultIsRight(s, done);
    assert RightAt(s, c) && RightAt(s, done) && LinkAgrees(s, c, done);
  }

  lemma StepKeepsRightAt(s: State, e: Event, c: Id)
    requires Inv(s) && Enabled(s, e)
    ensures RightAt(Apply(s, e), c)
  {
    SpecsAgree(s);
    match e
    case Make(trigger, name) => MakeKeepsRightAt(s, trigger, name, c);
    case Wait(w, target) => WaitKeepsRightAt(s, w, target, c);
    case Check(w) =>
      if c in CycleFrom(s.base.blocked, Deadlock.RequestOf(s.base, w).value.target) {
        assert forall t :: RightAt(s, t) ==> RequestFollows(s, t);
        NamesOnCycleMeanError(s, c);
      }
      CheckKeepsRightAt(s, w, c);
    case Wake(w) => WakeKeepsRightAt(s, w, c);
    case Complete(done) => CompleteKeepsRightAt(s, done, c);
  }

  /** The request that the step begins is right. */
  lemma NewAskedIsRight(s: State, e: Event)
    requires Deadlock.WellFormed(s.base) && Right(s) && Enabled(s, e) && |Ask(s, e)| > |s.asked|
    ensures AskedIsRight(Apply(s, e), Ask(s, e)[|s.asked|])
  {
    match e
    case Make(None, _) =>
    case Wait(Outside(u), c) => assert RightAt(s, c);
  }

  lemma MakeKeepsAsked(s: State, trigger: Option<Id>, name: Name, asked: Asked)
    requires Deadlock.WellFormed(s.base) && Right(s) && Enabled(s, Make(trigger, name)) && AskedIsRight(s, asked)
    ensures AskedIsRight(Apply(s, Make(trigger, name)), asked)
  {
    NextIsNew(s);
  }

  lemma WaitKeepsAsked(s: State, w: Deadlock.Waiter, c: Id, asked: Asked)
    requires Enabled(s, Wait(w, c)) && AskedIsRight(s, asked)
    ensures AskedIsRight(Apply(s, Wait(w, c)), asked)
  {
  }

  lemma CheckKeepsAsked(s: State, w: Deadlock.Waiter, asked: Asked)
    requires Enabled(s, Check(w)) && AskedIsRight(s, asked)
    ensures AskedIsRight(Apply(s, Check(w)), asked)
  {
  }

  /** The open requests of a thread that wakes up are answered, and the others stay as they are. */
  lemma WakeKeepsAsked(s: State, w: Deadlock.Waiter, i: nat)
    requires Right(s) && Enabled(s, Wake(w)) && i < |s.asked| && AskedIsRight(s, s.asked[i])
    ensures i < |Ask(s, Wake(w))| && AskedIsRight(Apply(s, Wake(w)), Ask(s, Wake(w))[i])
  {
    assert RightAt(s, Deadlock.RequestOf(s.base, w).value.target);
  }

  lemma CompleteKeepsAsked(s: State, c: Id, i: nat)
    requires Enabled(s, Complete(c)) && i < |s.asked| && AskedIsRight(s, s.asked[i])
    requires c in s.names && ResultOf(s, c).value == s.model.meaning(s.names[c])
    ensures i < |Ask(s, Complete(c))| && AskedIsRight(Apply(s, Complete(c)), Ask(s, Complete(c))[i])
  {
  }

  lemma StepKeepsAskedAt(s: State, e: Event, i: nat)
    requires Inv(s) && Enabled(s, e) && i < |Ask(s, e)|
    ensures AskedIsRight(Apply(s, e), Ask(s, e)[i])
  {
    if i >= |s.asked| {
      NewAskedIsRight(s, e);
      return;
    }
    assert AskedIsRight(s, s.asked[i]);
    match e
    case Make(trigger, name) => MakeKeepsAsked(s, trigger, name, s.asked[i]);
    case Wait(w, c) => WaitKeepsAsked(s, w, c, s.asked[i]);
    case Check(w) => CheckKeepsAsked(s, w, s.asked[i]);
    case Wake(w) => WakeKeepsAsked(s, w, i);
    case Complete(c) =>
      SpecsAgree(s);
      ResultIsRight(s, c);
      CompleteKeepsAsked(s, c, i);
  }

  lemma StepKeepsInv(s: State, e: Event)
    requires Inv(s) && Enabled(s, e)
    ensures Inv(Apply(s, e))
  {
    Deadlock.StepKeepsInv(s.base, BaseEvent(s, e));
    var s' := Apply(s, e);
    forall c
      ensures RightAt(s', c)
    {
      StepKeepsRightAt(s, e, c);
    }
    forall i | 0 <= i < |s'.asked|
      ensures AskedIsRight(s', s'.asked[i])
    {
      StepKeepsAskedAt(s, e, i);
    }
    forall name | name in s'.stored
      ensures StoredAt(s', name)
    {
      if e.Make? {
        MakeKeepsStored(s, e.trigger, e.name);
      } else {
        assert StoredAt(s, name);
      }
    }
  }

  // ----- Runs -------------------------------------------------------------------------------------------

  ghost predicate IsRun(s: State, events: seq<Event>)
    decreases |events|
  {
    events != [] ==> Enabled(s, events[0]) && IsRun(Apply(s, events[0]), events[1..])
  }

  ghost function After(s: State, events: seq<Event>): State
    requires IsRun(s, events)
    decreases |events|
  {
    if events == [] then s else After(Apply(s, events[0]), events[1..])
  }

  lemma {:induction false} RunKeepsInv(s: State, events: seq<Event>)
    requires Inv(s) && IsRun(s, events)
    ensures Inv(After(s, events))
    decreases |events|
  {
    if events != [] {
      StepKeepsInv(s, events[0]);
      RunKeepsInv(Apply(s, events[0]), events[1..]);
    }
  }

  lemma ReachableInv(events: seq<Event>)
    requires IsRun(INIT, events)
    ensures Inv(After(INIT, events))
  {
    Deadlock.InitSatisfiesInv();
    RunKeepsInv(INIT, events);
  }

  /** Whatever the interleaving, a ready container holds what its name means: the result of a request
      does not depend on what else was requested, in which order, or by which threads. */
  lemma ReadyHoldsMeaning(events: seq<Event>, c: Id)
    requires IsRun(INIT, events) && c in After(INIT, events).base.results
    ensures var s := After(INIT, events);
            c in s.names && c in s.values && s.values[c] == MeaningOfName(s.names[c])
  {
    ReachableInv(events);
    assert RightAt(After(INIT, events), c);
  }

  /** What a request returns to the creation that made it is what the requested name means. */
  lemma ReceivedIsMeaning(events: seq<Event>, t: Id)
    requires IsRun(INIT, events) && t in After(INIT, events).received
    ensures var s := After(INIT, events);
            && t in s.names && TaskOf(s.names[t]).Request?
            && s.received[t] == MeaningOfName(TaskOf(s.names[t]).name)
  {
    ReachableInv(events);
    var s := After(INIT, events);
    assert RightAt(s, t);
    DefaultsStore(s.names[t]);
    TaskMeaning(s.names[t]);
  }

  predicate Asks(e: Event) {
    (e.Make? && e.trigger.None?) || (e.Wait? && e.waiter.Outside?)
  }

  /** The requests that a run makes from outside, in order. */
  function AskedBy(events: seq<Event>): seq<Event> {
    if events == [] then [] else (if Asks(events[0]) then [events[0]] else []) + AskedBy(events[1..])
  }

  predicate Records(asked: Asked, e: Event) {
    match e
    case Make(None, name) => asked.thread == None && asked.name == name
    case Wait(Outside(u), c) => asked.thread == Some(u) && asked.container == c
    case _ => false
  }

  /** The same request, answered or not. */
  predicate SameRequest(a: Asked, b: Asked) {
    a.thread == b.thread && a.name == b.name && a.container == b.container
  }

  /** The later history holds the earlier one and then the requests begun since. */
  ghost predicate Extends(earlier: seq<Asked>, begun: seq<Event>, later: seq<Asked>) {
    && |later| == |earlier| + |begun|
    && (forall i :: 0 <= i < |earlier| ==> SameRequest(earlier[i], later[i]))
    && (forall i :: |earlier| <= i < |later| ==> Records(later[i], begun[i - |earlier|]))
  }

  lemma StepExtendsHistory(s: State, e: Event)
    requires Enabled(s, e)
    ensures Extends(s.asked, if Asks(e) then [e] else [], Ask(s, e))
  {
  }

  lemma ExtendsIsTransitive(a: seq<Asked>, begun: seq<Event>, b: seq<Asked>, begunNext: seq<Event>, c: seq<Asked>)
    requires Extends(a, begun, b) && Extends(b, begunNext, c)
    ensures Extends(a, begun + begunNext, c)
  {
    forall i | |a| <= i < |c|
      ensures Records(c[i], (begun + begunNext)[i - |a|])
    {
      if i < |b| {
        assert SameRequest(b[i], c[i]) && Records(b[i], begun[i - |a|]);
      }
    }
  }

  /** The history holds exactly the requests of the run. */
  lemma {:induction false} HistoryIsComplete(s: State, events: seq<Event>)
    requires IsRun(s, events)
    ensures Extends(s.asked, AskedBy(events), After(s, events).asked)
    decreases |events|
  {
    if events != [] {
      var s' := Apply(s, events[0]);
      StepExtendsHistory(s, events[0]);
      HistoryIsComplete(s', events[1..]);
      var begun := if Asks(events[0]) then [events[0]] else [];
      ExtendsIsTransitive(s.asked, begun, s'.asked, AskedBy(events[1..]), After(s, events).asked);
    }
  }

  /** Over every run, each request from outside is still outstanding, or its container is ready and it
      returned what the requested name means. */
  lemma AskedIsAnswered(events: seq<Event>, i: nat)
    requires IsRun(INIT, events) && i < |AskedBy(events)|
    ensures i < |After(INIT, events).asked| && Records(After(INIT, events).asked[i], AskedBy(events)[i])
    ensures var s := After(INIT, events);
            var a := s.asked[i];
            && a.container in s.names && s.names[a.container] == a.name
            && match a.answer
               case Some(value) => a.container in s.base.results && value == MeaningOfName(a.name)
               case None =>
                 match a.thread
                 case Some(u) => u in s.base.outside && s.base.outside[u].target == a.container
                 case None => a.container in s.base.live
  {
    ReachableInv(events);
    HistoryIsComplete(INIT, events);
    assert AskedIsRight(After(INIT, events), After(INIT, events).asked[i]);
  }

  /** When nothing is unfinished, all of them have been answered. */
  lemma QuiescentIsAnswered(events: seq<Event>, i: nat)
    requires IsRun(INIT, events) && i < |After(INIT, events).asked|
    requires Deadlock.Quiescent(After(INIT, events).base)
    ensures After(INIT, events).asked[i].answer == Some(MeaningOfName(After(INIT, events).asked[i].name))
  {
    ReachableInv(events);
    assert AskedIsRight(After(INIT, events), After(INIT, events).asked[i]);
  }

  /** The deadlock check only ever kills containers whose names mean an error. */
  lemma KilledMeansError(events: seq<Event>, c: Id)
    requires IsRun(INIT, events) && c in After(INIT, events).base.killed
    ensures var s := After(INIT, events);
            c in s.names && MeaningOfName(s.names[c]) == Err
  {
    ReachableInv(events);
    assert RightAt(After(INIT, events), c);
  }

  /** A declared name, or a default of the root, has at most one container. */
  lemma OneContainerPerName(events: seq<Event>, c: Id, d: Id)
    requires IsRun(INIT, events)
    requires var s := After(INIT, events);
             c in s.names && d in s.names && s.names[c] == s.names[d] && IsStored(s.names[c])
    ensures c == d
  {
    ReachableInv(events);
    assert RightAt(After(INIT, events), c) && RightAt(After(INIT, events), d);
  }

  // ----- No schedule gets stuck -----------------------------------------------------------------------

  /** A step towards the end of something already begun: anything but a request from outside. */
  predicate Proceeds(e: Event) {
    !(e.Make? && e.trigger.None?) && !(e.Wait? && e.waiter.Outside?)
  }

  /** What a live container does that has no outstanding request: it returns, or requests the name
      that its own name leads to. */
  lemma NextOf(s: State, c: Id) returns (e: Event)
    requires Inv(s) && c in s.base.live && c !in s.base.requests
    ensures Proceeds(e) && Enabled(s, e)
  {
    assert RightAt(s, c) && c in s.names;
    if ResultOf(s, c).Some? {
      return Complete(c);
    }
    var name := s.model.task(s.names[c]).name;
    RequestIsValid(s.names[c]);
    if name !in s.stored {
      return Make(Some(c), name);
    }
    assert StoredAt(s, name);
    assert RightAt(s, s.stored[name]);
    return Wait(Deadlock.OnBehalfOf(c), s.stored[name]);
  }

  /** Freedom from deadlock, with the requests that the specs call for: in every reachable state in
      which anything is unfinished, some thread can take a step of what it has begun. */
  lemma NeverStuck(events: seq<Event>) returns (e: Event)
    requires IsRun(INIT, events) && !Deadlock.Quiescent(After(INIT, events).base)
    ensures Proceeds(e) && Enabled(After(INIT, events), e)
  {
    ReachableInv(events);
    var s := After(INIT, events);
    Deadlock.NotStuck(s.base);
    var step :| Deadlock.Completes(step) && Deadlock.Enabled(s.base, step);
    match step
    case TimedCheck(w) => e := Check(w);
    case EndWait(w) => e := Wake(w);
    case Finish(c, _) => e := NextOf(s, c);
  }
}
