/** The life of one batch, as interleaved atomic steps of tensorstore/batch.cc and
    tensorstore/batch.h: references are copied and dropped, entries are added, and the thread
    that drops the last reference submits the entries, one nesting depth after another.

    A handle is a counted reference to the batch. Handles made before the submission may add
    entries of any depth. A handle made while an entry is being submitted belongs to that
    entry's operation and, by the nesting rule, only adds entries of smaller depth. */
module BatchProtocol {
  import opened Results

  datatype Entry = Entry(id: nat, key: nat, depth: nat)

  /** Where a thread is inside `SubmitBatch`. */
  datatype Phase =
    | Entering                                            // the count dropped to 0 or 1
    | LoopHead                                            // about to look at the depth tree, unlocked
    | Level(depth: nat, queue: seq<Entry>, current: Option<Entry>)
    | Restoring                                           // its own reference was the only one

  datatype State = State(
    count: nat,                      // reference_count_
    handles: map<nat, Option<nat>>,  // each with the depth of the entry it was made for
    threads: map<nat, Phase>,        // the threads inside SubmitBatch
    table: set<Entry>,               // entries_
    levels: map<nat, seq<Entry>>,    // nesting_depths_ and the lists that hang off it
    deletions: nat,
    // history
    inserted: set<Entry>,
    submitted: seq<Entry>,
    started: seq<nat>,               // the depths of the levels removed from the tree
    entered: bool,                   // some thread has set the submitted bit
    nextId: nat)

  datatype Event =
    | Copy(handle: nat)
    | Insert(handle: nat, key: nat, depth: nat)
    | Drop(handle: nat)
    | Enter(thread: nat)
    | TakeLevel(thread: nat)
    | BeginSubmit(thread: nat)
    | InsertInSubmit(thread: nat, key: nat, depth: nat)
    | AcquireInSubmit(thread: nat)
    | EndSubmit(thread: nat)
    | Release(thread: nat)
    | Restore(thread: nat)

  /** A new batch: one handle, not submitted. */
  const INIT: State := State(2, map[0 := None], map[], {}, map[], 0, {}, [], [], false, 1)

  /** The entry with a key, if the hash table holds one. */
  predicate HasKey(table: set<Entry>, key: nat) {
    exists e :: e in table && e.key == key
  }

  /** The nesting rule: operations of an entry only access entries of smaller depth. */
  predicate Nested(bound: Option<nat>, depth: nat) {
    bound.Some? ==> depth < bound.value
  }

  /** Entries of one depth form a list; a new one goes after the first. */
  function InsertIntoDepthTree<E>(levels: map<nat, seq<E>>, depth: nat, e: E): map<nat, seq<E>> {
    if depth !in levels || levels[depth] == [] then levels[depth := [e]]
    else levels[depth := [levels[depth][0], e] + levels[depth][1..]]
  }

  function GetEntry(s: State, key: nat, depth: nat): State {
    if HasKey(s.table, key) then s
    else
      var e := Entry(s.nextId, key, depth);
      s.(table := s.table + {e},
         levels := InsertIntoDepthTree(s.levels, depth, e),
         inserted := s.inserted + {e},
         nextId := s.nextId + 1)
  }

  ghost predicate Deepest(levels: map<nat, seq<Entry>>, d: nat) {
    d in levels && forall other :: other in levels ==> other <= d
  }

  ghost predicate Enabled(s: State, e: Event) {
    match e
    case Copy(h) => h in s.handles
    case Insert(h, key, depth) =>
      h in s.handles && Nested(s.handles[h], depth)
    case Drop(h) => h in s.handles
    case Enter(t) => t in s.threads && s.threads[t].Entering?
    case TakeLevel(t) => t in s.threads && s.threads[t].LoopHead?
    case BeginSubmit(t) =>
      t in s.threads && s.threads[t].Level? && s.threads[t].current.None? && s.threads[t].queue != []
    case InsertInSubmit(t, key, depth) =>
      && t in s.threads && s.threads[t].Level? && s.threads[t].current.Some?
      && Nested(Some(s.threads[t].current.value.depth), depth)
    case AcquireInSubmit(t) => t in s.threads && s.threads[t].Level? && s.threads[t].current.Some?
    case EndSubmit(t) => t in s.threads && s.threads[t].Level? && s.threads[t].current.Some?
    case Release(t) =>
      t in s.threads && s.threads[t].Level? && s.threads[t].current.None? && s.threads[t].queue == []
    case Restore(t) => t in s.threads && s.threads[t].Restoring?
  }

  function AddHandle(s: State, bound: Option<nat>): State {
    s.(count := s.count + 2, handles := s.handles[s.nextId := bound], nextId := s.nextId + 1)
  }

  /** `fetch_sub(2)`: the count wraps below zero, which a reachable state never does. */
  function Minus2(count: nat): nat {
    if count >= 2 then count - 2 else count + 0xffff_ffff_ffff_fffe
  }

  /** Removes the level of depth `d` from the tree, and its entries from the table. */
  function TakeDeepest(s: State, t: nat, d: nat): State
    requires d in s.levels
  {
    s.(levels := s.levels - {d},
       table := s.table - (set x | x in s.levels[d]),
       started := s.started + [d],
       threads := s.threads[t := Level(d, s.levels[d], None)])
  }

  ghost function Apply(s: State, e: Event): State
    requires Enabled(s, e)
  {
    match e
    case Copy(h) => AddHandle(s, s.handles[h])
    case Insert(h, key, depth) => GetEntry(s, key, depth)
    case Drop(h) =>
      var dropped := s.(count := Minus2(s.count), handles := s.handles - {h});
      if s.count <= 3 then dropped.(threads := s.threads[h := Entering]) else dropped
    case Enter(t) => s.(count := 3, entered := true, threads := s.threads[t := LoopHead])
    case TakeLevel(t) =>
      if s.levels == map[] then s.(threads := s.threads - {t}, deletions := s.deletions + 1)
      else if d :| Deepest(s.levels, d) then TakeDeepest(s, t, d)
      else s
    case BeginSubmit(t) =>
      var Level(d, queue, _) := s.threads[t];
      s.(submitted := s.submitted + [queue[0]],
         threads := s.threads[t := Level(d, queue[1..], Some(queue[0]))])
    case InsertInSubmit(t, key, depth) => GetEntry(s, key, depth)
    case AcquireInSubmit(t) => AddHandle(s, Some(s.threads[t].current.value.depth))
    case EndSubmit(t) =>
      var Level(d, queue, _) := s.threads[t];
      s.(threads := s.threads[t := Level(d, queue, None)])
    case Release(t) =>
      var released := s.(count := Minus2(s.count));
      if s.count == 3 then released.(threads := s.threads[t := Restoring])
      else released.(threads := s.threads - {t})
    case Restore(t) => s.(count := 3, threads := s.threads[t := LoopHead])
  }

  // ----- The invariant --------------------------------------------------------------------

  function Bit(s: State): nat {
    if s.entered then 1 else 0
  }

  /** The reference that a thread inside `SubmitBatch` holds itself. */
  function OwnReference(p: Phase): nat {
    if p.LoopHead? || p.Level? then 1 else 0
  }

  /** The count is twice the number of references plus the submitted bit; one thread at most is
      submitting; and except while it submits a level, nobody else holds a reference. */
  ghost predicate Counted(s: State) {
    && (forall t, u :: t in s.threads && u in s.threads ==> t == u)
    && (forall t :: t in s.threads ==>
          && s.deletions == 0
          && s.count == 2 * (|s.handles| + OwnReference(s.threads[t])) + Bit(s)
          && (!s.threads[t].Level? ==> s.handles == map[])
          && (!s.threads[t].Entering? ==> s.entered))
    && (s.threads == map[] && s.deletions == 0 ==> s.handles != map[] && s.count == 2 * |s.handles| + Bit(s))
    && s.deletions <= 1
    && (s.deletions == 1 ==> s.handles == map[] && s.levels == map[] && s.threads == map[] && s.entered)
    && (forall h :: h in s.handles ==> h < s.nextId)
  }

  ghost predicate NoDuplicates<T>(list: seq<T>) {
    forall i, j :: 0 <= i < j < |list| ==> list[i] != list[j]
  }

  /** The hash table and the lists in the depth tree hold the same entries. */
  ghost predicate TableMatchesLevels(table: set<Entry>, levels: map<nat, seq<Entry>>) {
    && (forall e :: e in table ==> e.depth in levels && e in levels[e.depth])
    && (forall d :: d in levels ==>
          levels[d] != [] && NoDuplicates(levels[d]) && forall e :: e in levels[d] ==> e in table && e.depth == d)
  }

  ghost predicate InQueue(s: State, t: nat, e: Entry) {
    t in s.threads && s.threads[t].Level? && e in s.threads[t].queue
  }

  /** Every entry is in exactly one place: the table, the level being submitted, or the past. */
  ghost predicate Accounted(s: State) {
    && (forall e :: e in s.inserted ==> e.id < s.nextId)
    && (forall e :: e in s.table ==> e in s.inserted && e !in s.submitted)
    && (forall e :: e in s.submitted ==> e in s.inserted)
    && (forall t, e :: InQueue(s, t, e) ==> e in s.inserted && e !in s.table && e !in s.submitted)
    && (forall e :: e in s.inserted ==> e in s.table || e in s.submitted || exists t :: InQueue(s, t, e))
    && NoDuplicates(s.submitted)
    && (forall t :: t in s.threads && s.threads[t].Level? ==> NoDuplicates(s.threads[t].queue))
  }

  ghost predicate StrictlyDecreasing(depths: seq<nat>) {
    forall i, j :: 0 <= i < j < |depths| ==> depths[i] > depths[j]
  }

  ghost predicate DepthsDescend(submitted: seq<Entry>) {
    forall i, j :: 0 <= i < j < |submitted| ==> submitted[i].depth >= submitted[j].depth
  }

  /** Once a level has started, all that is left lies below it, and every handle belongs to one
      of its entries. */
  ghost predicate Descending(s: State) {
    && StrictlyDecreasing(s.started)
    && DepthsDescend(s.submitted)
    && (s.started == [] ==> s.submitted == [] && forall t :: t in s.threads ==> !s.threads[t].Level?)
    && (s.started != [] ==>
          var last := s.started[|s.started| - 1];
          && (forall h :: h in s.handles ==> s.handles[h] == Some(last))
          && (forall e :: e in s.table ==> e.depth < last)
          && (forall e :: e in s.submitted ==> e.depth >= last)
          && (forall t :: t in s.threads && s.threads[t].Level? ==>
                && s.threads[t].depth == last
                && (forall e :: e in s.threads[t].queue ==> e.depth == last)
                && (s.threads[t].current.Some? ==> s.threads[t].current.value.depth == last)))
  }

  ghost predicate Inv(s: State) {
    Counted(s) && TableMatchesLevels(s.table, s.levels) && Accounted(s) && Descending(s)
  }

  lemma InitSatisfiesInv()
    ensures Inv(INIT)
  {
  }

  // ----- Every step keeps the invariant -----------------------------------------------------

  lemma {:induction false} DeepestExists(levels: map<nat, seq<Entry>>) returns (d: nat)
    requires levels != map[]
    ensures Deepest(levels, d)
    decreases |levels|
  {
    d :| d in levels;
    var rest := levels - {d};
    assert levels.Keys == rest.Keys + {d};
    assert forall other :: other in levels ==> other == d || other in rest;
    if rest == map[] {
      assert forall other :: other in levels ==> other == d;
    } else {
      assert |rest.Keys| < |levels.Keys|;
      var m := DeepestExists(rest);
      if m > d {
        d := m;
      }
    }
  }

  lemma SizeAfterRemoval(handles: map<nat, Option<nat>>, h: nat)
    requires h in handles
    ensures |handles - {h}| == |handles| - 1
    ensures |handles| == 1 ==> handles - {h} == map[]
  {
    assert (handles - {h}).Keys == handles.Keys - {h};
    if |handles| == 1 {
      assert |(handles - {h}).Keys| == 0;
      assert (handles - {h}).Keys == {};
    }
  }

  lemma StepKeepsCount(s: State, e: Event)
    requires Inv(s) && Enabled(s, e)
    ensures Counted(Apply(s, e))
  {
    match e
    case Copy(h) => AddHandleKeepsCount(s, s.handles[h]);
    case AcquireInSubmit(t) => AddHandleKeepsCount(s, Some(s.threads[t].current.value.depth));
    case Drop(h) => DropKeepsCount(s, h);
    case TakeLevel(t) => TakeLevelKeepsCount(s, t);
    case Insert(h, key, depth) => GetEntryKeepsCount(s, key, depth);
    case InsertInSubmit(t, key, depth) => GetEntryKeepsCount(s, key, depth);
    case _ => ThreadStepKeepsCount(s, e);
  }

  /** A thread inside `SubmitBatch` is the only one. */
  lemma OnlyThread(s: State, t: nat)
    requires Counted(s) && t in s.threads
    ensures s.threads == map[t := s.threads[t]]
  {
  }

  lemma AddHandleKeepsCount(s: State, bound: Option<nat>)
    requires Counted(s) && s.deletions == 0
    requires forall t :: t in s.threads ==> s.threads[t].Level?
    ensures Counted(AddHandle(s, bound))
  {
    var s' := AddHandle(s, bound);
    assert s.nextId !in s.handles;
    assert s'.handles.Keys == s.handles.Keys + {s.nextId};
    assert |s'.handles| == |s'.handles.Keys| == |s.handles| + 1;
  }

  lemma GetEntryKeepsCount(s: State, key: nat, depth: nat)
    requires Counted(s) && s.deletions == 0
    ensures Counted(GetEntry(s, key, depth))
  {
  }

  lemma DropKeepsCount(s: State, h: nat)
    requires Counted(s) && h in s.handles
    ensures Counted(Apply(s, Drop(h)))
    ensures s.count <= 3 ==> s.threads == map[]
  {
    SizeAfterRemoval(s.handles, h);
    assert s.handles != map[];
    var s' := Apply(s, Drop(h));
    if s.count <= 3 {
      assert s.threads == map[] by {
        if t :| t in s.threads {
          assert false;
        }
      }
    } else if s.threads == map[] {
      assert |s'.handles| >= 1;
    }
  }

  lemma TakeLevelKeepsCount(s: State, t: nat)
    requires Counted(s) && Enabled(s, TakeLevel(t))
    ensures Counted(Apply(s, TakeLevel(t)))
  {
    assert s.threads - {t} == map[];
    if s.levels != map[] {
      var d := DeepestExists(s.levels);
    }
  }

  lemma ThreadStepKeepsCount(s: State, e: Event)
    requires Counted(s) && Enabled(s, e)
    requires e.Enter? || e.BeginSubmit? || e.EndSubmit? || e.Release? || e.Restore?
    ensures Counted(Apply(s, e))
  {
    OnlyThread(s, e.thread);
    assert |s.handles| == 0 ==> s.handles == map[] by {
      if h :| h in s.handles {
        SizeAfterRemoval(s.handles, h);
      }
    }
  }

  lemma StepKeepsTable(s: State, e: Event)
    requires Inv(s) && Enabled(s, e)
    ensures var s' := Apply(s, e); TableMatchesLevels(s'.table, s'.levels)
  {
    match e
    case Insert(_, key, depth) => InsertKeepsTable(s.table, s.levels, Entry(s.nextId, key, depth));
    case InsertInSubmit(_, key, depth) => InsertKeepsTable(s.table, s.levels, Entry(s.nextId, key, depth));
    case TakeLevel(t) =>
    case _ =>
  }

  lemma InsertKeepsTable(table: set<Entry>, levels: map<nat, seq<Entry>>, e: Entry)
    requires TableMatchesLevels(table, levels) && e !in table
    ensures TableMatchesLevels(table + {e}, InsertIntoDepthTree(levels, e.depth, e))
  {
    var d, levels' := e.depth, InsertIntoDepthTree(levels, e.depth, e);
    if d in levels {
      var old', new' := levels[d], levels'[d];
      assert old' == [old'[0]] + old'[1..];
      assert forall x :: x in new' <==> x == e || x in old';
      assert NoDuplicates(new');
    }
  }

  lemma StepKeepsAccount(s: State, e: Event)
    requires Inv(s) && Enabled(s, e)
    ensures Accounted(Apply(s, e))
  {
    match e
    case Insert(_, key, depth) => GetEntryKeepsAccount(s, key, depth);
    case InsertInSubmit(_, key, depth) => GetEntryKeepsAccount(s, key, depth);
    case TakeLevel(t) => TakeLevelKeepsAccount(s, t);
    case BeginSubmit(t) => BeginSubmitKeepsAccount(s, t);
    case Drop(h) => DropKeepsAccount(s, h);
    case Copy(h) => SameQueuesKeepAccount(s, Apply(s, e));
    case AcquireInSubmit(t) => SameQueuesKeepAccount(s, Apply(s, e));
    case _ => ThreadStepKeepsAccount(s, e);
  }

  lemma DropKeepsAccount(s: State, h: nat)
    requires Inv(s) && h in s.handles
    ensures Accounted(Apply(s, Drop(h)))
  {
    DropKeepsCount(s, h);
    SameQueuesKeepAccount(s, Apply(s, Drop(h)));
  }

  lemma ThreadStepKeepsAccount(s: State, e: Event)
    requires Inv(s) && Enabled(s, e)
    requires e.Enter? || e.EndSubmit? || e.Release? || e.Restore?
    ensures Accounted(Apply(s, e))
  {
    OnlyThread(s, e.thread);
    SameQueuesKeepAccount(s, Apply(s, e));
  }

  lemma SameQueuesKeepAccount(s: State, s': State)
    requires Accounted(s)
    requires s'.table == s.table && s'.inserted == s.inserted && s'.submitted == s.submitted && s'.nextId >= s.nextId
    requires forall t, e :: InQueue(s, t, e) <==> InQueue(s', t, e)
    requires forall t :: t in s'.threads && s'.threads[t].Level? ==>
               || s'.threads[t].queue == []
               || (t in s.threads && s.threads[t].Level? && s'.threads[t].queue == s.threads[t].queue)
    ensures Accounted(s')
  {
  }

  lemma GetEntryKeepsAccount(s: State, key: nat, depth: nat)
    requires Accounted(s)
    ensures Accounted(GetEntry(s, key, depth))
  {
    var s' := GetEntry(s, key, depth);
    forall t, e
      ensures InQueue(s, t, e) <==> InQueue(s', t, e)
    {
    }
  }

  lemma TakeLevelKeepsAccount(s: State, t: nat)
    requires Inv(s) && Enabled(s, TakeLevel(t))
    ensures Accounted(Apply(s, TakeLevel(t)))
  {
    var s' := Apply(s, TakeLevel(t));
    if s.levels == map[] {
      assert forall u, e :: !InQueue(s, u, e);
      SameQueuesKeepAccount(s, s');
    } else {
      var _ := DeepestExists(s.levels);
      var list := s'.threads[t].queue;
      forall e | e in s'.inserted
        ensures e in s'.table || e in s'.submitted || InQueue(s', t, e)
      {
        assert e in s.table || e in s.submitted;
      }
    }
  }

  lemma BeginSubmitKeepsAccount(s: State, t: nat)
    requires Inv(s) && Enabled(s, BeginSubmit(t))
    ensures Accounted(Apply(s, BeginSubmit(t)))
  {
    OnlyThread(s, t);
    var queue := s.threads[t].queue;
    SplitQueue(queue);
    var s' := Apply(s, BeginSubmit(t));
    assert s'.submitted == s.submitted + [queue[0]] && s'.threads[t].queue == queue[1..];
    forall u, e
      ensures InQueue(s, u, e) <==> u == t && e in queue
      ensures InQueue(s', u, e) <==> u == t && e in queue[1..]
    {
    }
    assert InQueue(s, t, queue[0]);
  }

  lemma SplitQueue(queue: seq<Entry>)
    requires queue != [] && NoDuplicates(queue)
    ensures queue[0] !in queue[1..] && NoDuplicates(queue[1..])
    ensures forall e :: e in queue <==> e == queue[0] || e in queue[1..]
  {
    assert queue == [queue[0]] + queue[1..];
  }

  lemma StepKeepsDescent(s: State, e: Event)
    requires Inv(s) && Enabled(s, e)
    ensures Descending(Apply(s, e))
  {
    match e
    case Insert(h, key, depth) => GetEntryKeepsDescent(s, key, depth);
    case InsertInSubmit(t, key, depth) => GetEntryKeepsDescent(s, key, depth);
    case TakeLevel(t) => TakeLevelKeepsDescent(s, t);
    case Copy(h) => AddHandleKeepsDescent(s, s.handles[h]);
    case AcquireInSubmit(t) => AddHandleKeepsDescent(s, Some(s.threads[t].current.value.depth));
    case Drop(h) => DropKeepsDescent(s, h);
    case BeginSubmit(t) => BeginSubmitKeepsDescent(s, t);
    case _ => ThreadStepKeepsDescent(s, e);
  }

  lemma DropKeepsDescent(s: State, h: nat)
    requires Inv(s) && h in s.handles
    ensures Descending(Apply(s, Drop(h)))
  {
    DropKeepsCount(s, h);
    FewerHandlesKeepDescent(s, Apply(s, Drop(h)));
  }

  lemma ThreadStepKeepsDescent(s: State, e: Event)
    requires Inv(s) && Enabled(s, e)
    requires e.Enter? || e.EndSubmit? || e.Release? || e.Restore?
    ensures Descending(Apply(s, e))
  {
    OnlyThread(s, e.thread);
    FewerHandlesKeepDescent(s, Apply(s, e));
  }

  lemma AddHandleKeepsDescent(s: State, bound: Option<nat>)
    requires Descending(s) && (s.started != [] ==> bound == Some(s.started[|s.started| - 1]))
    ensures Descending(AddHandle(s, bound))
  {
  }

  lemma FewerHandlesKeepDescent(s: State, s': State)
    requires Descending(s)
    requires s'.table == s.table && s'.submitted == s.submitted && s'.started == s.started
    requires forall h :: h in s'.handles ==> h in s.handles && s'.handles[h] == s.handles[h]
    requires forall t :: t in s'.threads && s'.threads[t].Level? ==>
               t in s.threads && s.threads[t].Level?
               && (s'.threads[t] == s.threads[t] || s'.threads[t] == s.threads[t].(current := None))
    ensures Descending(s')
  {
  }

  lemma GetEntryKeepsDescent(s: State, key: nat, depth: nat)
    requires Descending(s)
    requires s.started != [] ==> depth < s.started[|s.started| - 1]
    ensures Descending(GetEntry(s, key, depth))
  {
  }

  lemma BeginSubmitKeepsDescent(s: State, t: nat)
    requires Inv(s) && Enabled(s, BeginSubmit(t))
    ensures Descending(Apply(s, BeginSubmit(t)))
  {
    OnlyThread(s, t);
    var queue := s.threads[t].queue;
    SplitQueue(queue);
    assert queue[0].depth == s.started[|s.started| - 1];
  }

  lemma TakeLevelKeepsDescent(s: State, t: nat)
    requires Inv(s) && Enabled(s, TakeLevel(t))
    ensures Descending(Apply(s, TakeLevel(t)))
  {
    OnlyThread(s, t);
    if s.levels == map[] {
      FewerHandlesKeepDescent(s, Apply(s, TakeLevel(t)));
    } else {
      var _ := DeepestExists(s.levels);
      var s' := Apply(s, TakeLevel(t));
      var d := s'.threads[t].depth;
      DeepestIsBelow(s, d);
      assert s'.handles == map[] && s'.threads == map[t := Level(d, s.levels[d], None)];
      assert s'.started == s.started + [d] && s'.submitted == s.submitted;
      assert s'.table == s.table - (set x | x in s.levels[d]);
    }
  }

  lemma DeepestIsBelow(s: State, d: nat)
    requires TableMatchesLevels(s.table, s.levels) && Descending(s) && Deepest(s.levels, d)
    ensures StrictlyDecreasing(s.started + [d])
    ensures forall e :: e in s.table ==> e in s.levels[d] || e.depth < d
    ensures forall e :: e in s.submitted ==> e.depth >= d
  {
    assert s.levels[d][0] in s.levels[d];
    assert s.started != [] ==> d < s.started[|s.started| - 1];
  }

  lemma StepKeepsInv(s: State, e: Event)
    requires Inv(s) && Enabled(s, e)
    ensures Inv(Apply(s, e))
  {
    StepKeepsCount(s, e);
    StepKeepsTable(s, e);
    StepKeepsAccount(s, e);
    StepKeepsDescent(s, e);
  }

  // ----- What holds over whole runs -----------------------------------------------------------

  ghost predicate IsRun(s: State, events: seq<Event>)
    decreases |events|
  {
    events != [] ==> Enabled(s, events[0]) && IsRun(Apply(s, events[0]), events[1..])
  }

  ghost function After(s: State, events: seq<Event>): State
    requires IsRun(s, events)
    decreases |events|
  {
    if events == [] then s else After(Apply(s, events[0]), events[1..])
  }

  lemma {:induction false} RunKeepsInv(s: State, events: seq<Event>)
    requires Inv(s) && IsRun(s, events)
    ensures Inv(After(s, events))
    decreases |events|
  {
    if events != [] {
      StepKeepsInv(s, events[0]);
      RunKeepsInv(Apply(s, events[0]), events[1..]);
    }
  }

  lemma ReachableInv(events: seq<Event>)
    requires IsRun(INIT, events)
    ensures Inv(After(INIT, events))
  {
    InitSatisfiesInv();
    RunKeepsInv(INIT, events);
  }

  /** In every reachable state the reference count is twice the number of references, counting the
      one a submitting thread holds itself, plus the submitted bit. */
  lemma ReferenceCount(events: seq<Event>)
    requires IsRun(INIT, events) && After(INIT, events).deletions == 0
    ensures var s := After(INIT, events);
            && (forall t, u :: t in s.threads && u in s.threads ==> t == u)
            && (s.threads == map[] ==> s.handles != map[] && s.count == 2 * |s.handles| + Bit(s))
            && (forall t :: t in s.threads ==> s.count == 2 * (|s.handles| + OwnReference(s.threads[t])) + Bit(s))
  {
    ReachableInv(events);
  }

  /** `SubmitBatch` is entered with no reference left, and no decrement is made from a count
      below two. */
  lemma CountNeverUnderflows(events: seq<Event>, e: Event)
    requires IsRun(INIT, events) && Enabled(After(INIT, events), e)
    ensures var s := After(INIT, events);
            && (e.Enter? ==> s.count <= 1)
            && (e.Drop? || e.Release? ==> s.count >= 2)
  {
    ReachableInv(events);
    var s := After(INIT, events);
    match e
    case Drop(h) => SizeAfterRemoval(s.handles, h);
    case _ =>
  }

  /** The depth tree and the hash table are read without the mutex only by the one thread that
      exists, while nobody holds a handle: in particular no operation of a deeper level. */
  lemma LevelStartsAlone(events: seq<Event>, t: nat)
    requires IsRun(INIT, events) && Enabled(After(INIT, events), TakeLevel(t))
    ensures var s := After(INIT, events); s.handles == map[] && s.threads == map[t := LoopHead]
  {
    ReachableInv(events);
  }

  /** A submitted batch is never deferred again, however the run goes on. */
  lemma {:induction false} SubmittedForGood(s: State, events: seq<Event>)
    requires Inv(s) && IsRun(s, events) && s.count % 2 == 1
    ensures After(s, events).count % 2 == 1
    decreases |events|
  {
    if events != [] {
      StepKeepsInv(s, events[0]);
      StepKeepsSubmitted(s, events[0]);
      SubmittedForGood(Apply(s, events[0]), events[1..]);
    }
  }

  lemma DecrementIsFromTwo(s: State, e: Event)
    requires Counted(s) && Enabled(s, e) && (e.Drop? || e.Release?)
    ensures s.count >= 2
  {
    if e.Drop? {
      SizeAfterRemoval(s.handles, e.handle);
    }
  }

  lemma StepKeepsSubmitted(s: State, e: Event)
    requires Inv(s) && Enabled(s, e) && s.count % 2 == 1
    ensures Apply(s, e).count % 2 == 1
  {
    match e
    case Drop(h) => DecrementIsFromTwo(s, e);
    case Release(t) => DecrementIsFromTwo(s, e);
    case TakeLevel(t) => TakingLevelKeepsCount(s, t);
    case _ => OtherStepKeepsSubmitted(s, e);
  }

  lemma OtherStepKeepsSubmitted(s: State, e: Event)
    requires Enabled(s, e) && s.count % 2 == 1 && !e.Drop? && !e.Release? && !e.TakeLevel?
    ensures Apply(s, e).count % 2 == 1
  {
  }

  lemma TakingLevelKeepsCount(s: State, t: nat)
    requires Enabled(s, TakeLevel(t))
    ensures Apply(s, TakeLevel(t)).count == s.count
  {
  }

  /** Entries are submitted at most once, deepest first; each level removed from the tree is
      strictly shallower than the one before. */
  lemma SubmissionOrder(events: seq<Event>)
    requires IsRun(INIT, events)
    ensures var s := After(INIT, events);
            && NoDuplicates(s.submitted) && DepthsDescend(s.submitted) && StrictlyDecreasing(s.started)
            && (forall e :: e in s.submitted ==> e in s.inserted && e !in s.table)
  {
    ReachableInv(events);
  }

  /** So the number of levels is bounded by the depth of the first. */
  lemma {:induction false} DescentIsBounded(depths: seq<nat>)
    requires StrictlyDecreasing(depths)
    ensures depths != [] ==> |depths| <= depths[0] + 1
  {
    if |depths| > 1 {
      DescentIsBounded(depths[1..]);
    }
  }

  /** The hash table and the depth tree hold the same entries in every reachable state. */
  lemma TableAndTreeAgree(events: seq<Event>, e: Entry)
    requires IsRun(INIT, events)
    ensures var s := After(INIT, events);
            e in s.table <==> e.depth in s.levels && e in s.levels[e.depth]
  {
    ReachableInv(events);
  }

  /** The batch is deleted at most once; then no handle, thread, or entry is left, and every
      entry ever inserted has been submitted, exactly once. */
  lemma DeletedMeansDone(events: seq<Event>)
    requires IsRun(INIT, events)
    ensures var s := After(INIT, events);
            && s.deletions <= 1
            && (s.deletions == 1 ==>
                  && s.handles == map[] && s.threads == map[] && s.table == {} && s.levels == map[]
                  && (forall e :: e in s.inserted <==> e in s.submitted)
                  && NoDuplicates(s.submitted))
  {
    ReachableInv(events);
    var s := After(INIT, events);
    if s.deletions == 1 {
      assert forall e :: e !in s.table;
      assert forall t, e :: !InQueue(s, t, e);
    }
  }

  // ----- What a request for an entry does ---------------------------------------------------------

  predicate IsRequest(e: Event) {
    e.Insert? || e.InsertInSubmit?
  }

  /** An entry with the key is found, and nothing changes; or there is none, and exactly one is added, with
      that key and that depth, second in the list of its depth. */
  ghost predicate FindsOrInserts(s: State, s': State, key: nat, depth: nat) {
    if exists x :: x in s.table && x.key == key then s' == s
    else exists x :: Inserts(s, s', x) && x.key == key && x.depth == depth
  }

  ghost predicate Inserts(s: State, s': State, x: Entry) {
    && s' == s.(inserted := s'.inserted, table := s'.table, levels := s'.levels, nextId := s'.nextId)
    && x !in s.inserted && s'.inserted == s.inserted + {x}
    && x !in s.table && s'.table == s.table + {x}
    && s'.levels.Keys == s.levels.Keys + {x.depth}
    && (forall d :: d in s.levels && d != x.depth ==> s'.levels[d] == s.levels[d])
    && (if x.depth in s.levels
        then s.levels[x.depth] != [] &&
             s'.levels[x.depth] == [s.levels[x.depth][0], x] + s.levels[x.depth][1..]
        else s'.levels[x.depth] == [x])
  }

  lemma GetEntryFindsOrInserts(s: State, key: nat, depth: nat)
    requires TableMatchesLevels(s.table, s.levels) && Accounted(s)
    ensures FindsOrInserts(s, GetEntry(s, key, depth), key, depth)
  {
    if !HasKey(s.table, key) {
      assert Inserts(s, GetEntry(s, key, depth), Entry(s.nextId, key, depth));
    }
  }

  lemma StepFindsOrInserts(s: State, e: Event)
    requires Inv(s) && Enabled(s, e) && IsRequest(e)
    ensures FindsOrInserts(s, Apply(s, e), e.key, e.depth)
  {
    GetEntryFindsOrInserts(s, e.key, e.depth);
  }

  /** In every reachable state. */
  lemma RequestFindsOrInserts(events: seq<Event>, e: Event)
    requires IsRun(INIT, events) && Enabled(After(INIT, events), e) && IsRequest(e)
    ensures FindsOrInserts(After(INIT, events), Apply(After(INIT, events), e), e.key, e.depth)
  {
    ReachableInv(events);
    StepFindsOrInserts(After(INIT, events), e);
  }

  lemma {:induction false} RunSplits(s: State, events: seq<Event>, i: nat)
    requires IsRun(s, events) && i <= |events|
    ensures IsRun(s, events[..i]) && IsRun(After(s, events[..i]), events[i..])
    ensures After(After(s, events[..i]), events[i..]) == After(s, events)
    decreases |events|
  {
    if i == 0 {
      assert events[..0] == [] && events[0..] == events;
    } else {
      RunSplits(Apply(s, events[0]), events[1..], i - 1);
      assert events[..i][1..] == events[1..][..i - 1] && events[1..][i - 1..] == events[i..];
    }
  }

  lemma StepKeepsInserted(s: State, e: Event)
    requires Enabled(s, e)
    ensures s.inserted <= Apply(s, e).inserted
  {
  }

  lemma {:induction false} InsertedForGood(s: State, events: seq<Event>)
    requires IsRun(s, events)
    ensures s.inserted <= After(s, events).inserted
    decreases |events|
  {
    if events != [] {
      StepKeepsInserted(s, events[0]);
      InsertedForGood(Apply(s, events[0]), events[1..]);
    }
  }

  /** The entry that a request is answered with, before the request: it has the key, it is still to be
      submitted, and if it is not there yet it gets the requested depth. */
  ghost predicate Answers(s: State, x: Entry, key: nat, depth: nat) {
    && x.key == key && x !in s.submitted
    && (if exists y :: y in s.table && y.key == key then x in s.table else x !in s.inserted && x.depth == depth)
  }

  lemma StepAnswers(s: State, e: Event) returns (x: Entry)
    requires Inv(s) && Enabled(s, e) && IsRequest(e)
    ensures Answers(s, x, e.key, e.depth) && x in Apply(s, e).inserted
  {
    StepFindsOrInserts(s, e);
    if HasKey(s.table, e.key) {
      x :| x in s.table && x.key == e.key;
    } else {
      x :| Inserts(s, Apply(s, e), x) && x.key == e.key && x.depth == e.depth;
    }
  }

  /** When the batch is deleted, every request of the run has been answered with an entry that was
      submitted after the request. */
  lemma RequestIsSubmitted(events: seq<Event>, i: nat) returns (x: Entry)
    requires IsRun(INIT, events) && After(INIT, events).deletions == 1
    requires i < |events| && IsRequest(events[i])
    ensures IsRun(INIT, events[..i]) && Answers(After(INIT, events[..i]), x, events[i].key, events[i].depth)
    ensures x in After(INIT, events).submitted
  {
    RunSplits(INIT, events, i);
    ReachableInv(events[..i]);
    var s, e := After(INIT, events[..i]), events[i];
    assert events[i..][0] == e;
    x := StepAnswers(s, e);
    InsertedForGood(Apply(s, e), events[i..][1..]);
    DeletedMeansDone(events);
  }

  // ----- What happens to handles ---------------------------------------------------------------------

  predicate AddsReference(e: Event) {
    e.Copy? || e.AcquireInSubmit?
  }

  /** Copying a handle, and acquiring one while an entry is being submitted, adds exactly one, with the
      bound of the original, or that of the entry; dropping removes exactly one. No other step changes
      the handles. */
  lemma StepChangesHandles(s: State, e: Event) returns (h: nat)
    requires Counted(s) && Enabled(s, e)
    ensures AddsReference(e) ==> h !in s.handles
    ensures match e
      case Copy(original) => Apply(s, e).handles == s.handles[h := s.handles[original]]
      case AcquireInSubmit(t) => Apply(s, e).handles == s.handles[h := Some(s.threads[t].current.value.depth)]
      case Drop(dropped) => Apply(s, e).handles == s.handles - {dropped}
      case _ => Apply(s, e).handles == s.handles
  {
    h := s.nextId;
    match e
    case TakeLevel(t) => TakingLevelKeepsHandles(s, t);
    case _ =>
  }

  lemma TakingLevelKeepsHandles(s: State, t: nat)
    requires Enabled(s, TakeLevel(t))
    ensures Apply(s, TakeLevel(t)).handles == s.handles
  {
  }

  lemma StepCountsHandles(s: State, e: Event)
    requires Counted(s) && Enabled(s, e)
    ensures |Apply(s, e).handles| ==
            |s.handles| + (if AddsReference(e) then 1 else 0) - (if e.Drop? then 1 else 0)
  {
    var h := StepChangesHandles(s, e);
    var handles := Apply(s, e).handles;
    if AddsReference(e) {
      assert handles.Keys == s.handles.Keys + {h};
      assert |handles| == |handles.Keys| == |s.handles| + 1;
    } else if e.Drop? {
      SizeAfterRemoval(s.handles, e.handle);
    }
  }

  function Added(events: seq<Event>): nat {
    if events == [] then 0 else (if AddsReference(events[0]) then 1 else 0) + Added(events[1..])
  }

  function Dropped(events: seq<Event>): nat {
    if events == [] then 0 else (if events[0].Drop? then 1 else 0) + Dropped(events[1..])
  }

  /** So over any run the references that exist are those there were and those added, less those dropped. */
  lemma {:induction false} HandlesAreCounted(s: State, events: seq<Event>)
    requires Inv(s) && IsRun(s, events)
    ensures |After(s, events).handles| == |s.handles| + Added(events) - Dropped(events)
    decreases |events|
  {
    if events != [] {
      StepKeepsInv(s, events[0]);
      StepCountsHandles(s, events[0]);
      HandlesAreCounted(Apply(s, events[0]), events[1..]);
    }
  }

  // ----- What the submit loop takes, and in which order ---------------------------------------------

  /** The level of depth `d` is taken as a whole, and with it exactly the entries of that depth. */
  ghost predicate TakesLevel(s: State, s': State, t: nat, d: nat) {
    && d in s.levels && s'.threads == map[t := Level(d, s.levels[d], None)]
    && s'.levels == s.levels - {d}
    && (forall x :: x in s'.table <==> x in s.table && x.depth != d)
    && s'.submitted == s.submitted && s'.started == s.started + [d] && s'.inserted == s.inserted
  }

  lemma TakeLevelTakesDeepest(events: seq<Event>, t: nat) returns (d: nat)
    requires IsRun(INIT, events) && Enabled(After(INIT, events), TakeLevel(t))
    requires After(INIT, events).table != {}
    ensures var s := After(INIT, events);
            && (forall x :: x in s.table ==> x.depth <= d)
            && TakesLevel(s, Apply(s, TakeLevel(t)), t, d)
  {
    ReachableInv(events);
    d := TakenDepth(After(INIT, events), t);
    TakingDeepest(After(INIT, events), t, d);
  }

  lemma TakenDepth(s: State, t: nat) returns (d: nat)
    requires TableMatchesLevels(s.table, s.levels) && s.table != {} && Enabled(s, TakeLevel(t))
    ensures Deepest(s.levels, d) && Apply(s, TakeLevel(t)) == TakeDeepest(s, t, d)
  {
    var x :| x in s.table;
    assert x.depth in s.levels;
    var _ := DeepestExists(s.levels);
    d := Apply(s, TakeLevel(t)).threads[t].depth;
  }

  lemma TakingDeepest(s: State, t: nat, d: nat)
    requires TableMatchesLevels(s.table, s.levels) && Deepest(s.levels, d) && s.threads == map[t := LoopHead]
    ensures TakesLevel(s, TakeDeepest(s, t, d), t, d)
    ensures forall x :: x in s.table ==> x.depth <= d
  {
  }

  ghost predicate InLevel(s: State, t: nat) {
    t in s.threads && s.threads[t].Level?
  }

  lemma StepKeepsLevelOrder(s: State, t: nat, e: Event)
    requires Inv(s) && Enabled(s, e) && InLevel(s, t) && !e.Release?
    ensures var s' := Apply(s, e);
            InLevel(s', t) && s'.submitted + s'.threads[t].queue == s.submitted + s.threads[t].queue
  {
    OnlyThread(s, t);
    match e
    case Drop(h) => DropKeepsCount(s, h);
    case BeginSubmit(u) =>
      assert s.threads[t].queue == [s.threads[t].queue[0]] + s.threads[t].queue[1..];
    case _ => OtherStepKeepsLevel(s, t, e);
  }

  lemma OtherStepKeepsLevel(s: State, t: nat, e: Event)
    requires Enabled(s, e) && InLevel(s, t) && s.threads == map[t := s.threads[t]]
    requires !e.Release? && !e.Drop? && !e.BeginSubmit?
    ensures var s' := Apply(s, e);
            InLevel(s', t) && s'.submitted == s.submitted && s'.threads[t].queue == s.threads[t].queue
  {
  }

  /** Until its thread leaves the level, what has been submitted and what is left of the level is the list
      of the level, in its order, after what was submitted before. */
  lemma {:induction false} LevelIsSubmittedInOrder(s: State, t: nat, events: seq<Event>)
    requires Inv(s) && IsRun(s, events) && InLevel(s, t) && forall i :: 0 <= i < |events| ==> !events[i].Release?
    ensures var s' := After(s, events);
            InLevel(s', t) && s'.submitted + s'.threads[t].queue == s.submitted + s.threads[t].queue
    decreases |events|
  {
    if events != [] {
      StepKeepsInv(s, events[0]);
      StepKeepsLevelOrder(s, t, events[0]);
      LevelIsSubmittedInOrder(Apply(s, events[0]), t, events[1..]);
    }
  }

  // ----- Every schedule ends with the deletion ---------------------------------------------------

  /** A step that uses up handles and entries, rather than adding any. */
  predicate Drains(e: Event) {
    !e.Copy? && !e.Insert? && !e.InsertInSubmit? && !e.AcquireInSubmit?
  }

  function PhaseWork(p: Phase): nat {
    match p
    case Entering => 2
    case LoopHead => 1
    case Level(_, queue, current) => 3 + 2 * |queue| + (if current.Some? then 1 else 0)
    case Restoring => 2
  }

  ghost function ThreadWork(threads: map<nat, Phase>): nat {
    if t :| t in threads then PhaseWork(threads[t]) else 0
  }

  ghost function Work(s: State): nat {
    3 * |s.handles| + 6 * |s.table| + ThreadWork(s.threads)
  }

  lemma WorkOfThread(s: State, t: nat, p: Phase)
    requires s.threads == map[t := p]
    ensures ThreadWork(s.threads) == PhaseWork(p)
  {
    assert t in s.threads;
  }

  lemma {:induction false} RemovedFromTable(table: set<Entry>, list: seq<Entry>)
    requires NoDuplicates(list) && forall e :: e in list ==> e in table
    ensures |table - (set x | x in list)| == |table| - |list|
  {
    if list == [] {
      assert table - (set x | x in list) == table;
    } else {
      SplitQueue(list);
      RemovedFromTable(table - {list[0]}, list[1..]);
      assert table - (set x | x in list) == table - {list[0]} - (set x | x in list[1..]);
    }
  }

  lemma DrainingMakesProgress(s: State, e: Event)
    requires Inv(s) && Enabled(s, e) && Drains(e)
    ensures Work(Apply(s, e)) < Work(s)
  {
    match e
    case Drop(h) => DroppingMakesProgress(s, h);
    case TakeLevel(t) => TakingLevelMakesProgress(s, t);
    case _ => ThreadMakesProgress(s, e);
  }

  lemma DroppingMakesProgress(s: State, h: nat)
    requires Counted(s) && h in s.handles
    ensures Work(Apply(s, Drop(h))) < Work(s)
  {
    DropKeepsCount(s, h);
    SizeAfterRemoval(s.handles, h);
    if s.count <= 3 {
      WorkOfThread(Apply(s, Drop(h)), h, Entering);
    }
  }

  lemma ThreadMakesProgress(s: State, e: Event)
    requires Counted(s) && Enabled(s, e) && Drains(e) && !e.Drop? && !e.TakeLevel?
    ensures Work(Apply(s, e)) < Work(s)
  {
    var s' := Apply(s, e);
    OnlyThread(s, e.thread);
    WorkOfThread(s, e.thread, s.threads[e.thread]);
    if e.thread in s'.threads {
      WorkOfThread(s', e.thread, s'.threads[e.thread]);
    }
  }

  lemma TakingLevelMakesProgress(s: State, t: nat)
    requires Inv(s) && Enabled(s, TakeLevel(t))
    ensures Work(Apply(s, TakeLevel(t))) < Work(s)
  {
    OnlyThread(s, t);
    WorkOfThread(s, t, LoopHead);
    if s.levels != map[] {
      var _ := DeepestExists(s.levels);
      var d := Apply(s, TakeLevel(t)).threads[t].depth;
      assert Apply(s, TakeLevel(t)) == TakeDeepest(s, t, d);
      TakeDeepestMakesProgress(s, t, d);
    }
  }

  lemma TakeDeepestMakesProgress(s: State, t: nat, d: nat)
    requires s.threads == map[t := LoopHead] && TableMatchesLevels(s.table, s.levels) && d in s.levels
    ensures Work(TakeDeepest(s, t, d)) < Work(s)
  {
    WorkOfThread(s, t, LoopHead);
    LevelIsFromTable(s.table, s.levels, d);
    RemovedFromTable(s.table, s.levels[d]);
    WorkOfThread(TakeDeepest(s, t, d), t, Level(d, s.levels[d], None));
  }

  lemma LevelIsFromTable(table: set<Entry>, levels: map<nat, seq<Entry>>, d: nat)
    requires TableMatchesLevels(table, levels) && d in levels
    ensures levels[d] != [] && NoDuplicates(levels[d]) && forall e :: e in levels[d] ==> e in table
  {
  }

  ghost predicate CanDrain(s: State) {
    exists e :: Drains(e) && Enabled(s, e)
  }

  lemma UndeletedCanDrain(s: State)
    requires Inv(s) && s.deletions == 0
    ensures CanDrain(s)
  {
    if t :| t in s.threads {
      var e := match s.threads[t]
        case Entering => Enter(t)
        case LoopHead => TakeLevel(t)
        case Level(_, queue, current) =>
          if current.Some? then EndSubmit(t) else if queue != [] then BeginSubmit(t) else Release(t)
        case Restoring => Restore(t);
      assert Drains(e) && Enabled(s, e);
    } else {
      assert s.threads == map[] && s.handles != map[];
      var h :| h in s.handles;
      assert Drains(Drop(h)) && Enabled(s, Drop(h));
    }
  }

  /** Once nothing is added any more, every schedule deletes the batch, with every entry
      submitted, within a bounded number of steps: it cannot run longer, or stop earlier. */
  lemma {:induction false} EveryDrainDeletes(s: State, schedule: seq<Event>)
    requires Inv(s) && IsRun(s, schedule) && forall i :: 0 <= i < |schedule| ==> Drains(schedule[i])
    ensures |schedule| <= Work(s)
    ensures !CanDrain(After(s, schedule)) ==> After(s, schedule).deletions == 1
    decreases |schedule|
  {
    if schedule == [] {
      if s.deletions == 0 {
        UndeletedCanDrain(s);
      }
    } else {
      StepKeepsInv(s, schedule[0]);
      DrainingMakesProgress(s, schedule[0]);
      EveryDrainDeletes(Apply(s, schedule[0]), schedule[1..]);
    }
  }
}
