/** The entries of a batch in memory: a hash table, and a tree of nesting depths from each of
    which a linked list of the entries of that depth hangs (tensorstore/batch_impl.h and
    tensorstore/batch.cc). The lists are those of `BatchProtocol`. */
module BatchImpl {
  import opened Results
  import opened BatchProtocol

  class Node {
    const key: nat
    const nestingDepth: nat
    var nextAtSameDepth: Node?

    constructor (key: nat, nestingDepth: nat)
      ensures this.key == key && this.nestingDepth == nestingDepth && nextAtSameDepth == null
    {
      this.key, this.nestingDepth, nextAtSameDepth := key, nestingDepth, null;
    }
  }

  /** `list` is the chain of nodes that starts at its first element. */
  ghost predicate IsChain(list: seq<Node>)
    reads list
  {
    && list != []
    && NoDuplicates(list)
    && (forall i :: 0 <= i < |list| - 1 ==> list[i].nextAtSameDepth == list[i + 1])
    && list[|list| - 1].nextAtSameDepth == null
  }

  ghost predicate DistinctKeys(nodes: set<Node>) {
    forall e, f :: e in nodes && f in nodes && e.key == f.key ==> e == f
  }

  /** A chain hangs off every depth in the tree, and the chains hold exactly the given nodes. */
  ghost predicate LevelsHold(lists: map<nat, seq<Node>>, depths: map<nat, Node>, nodes: set<Node>)
    reads nodes
  {
    && lists.Keys == depths.Keys
    && (forall d :: d in lists ==>
          && (forall e :: e in lists[d] ==> e in nodes && e.nestingDepth == d)
          && IsChain(lists[d]) && lists[d][0] == depths[d])
    && (forall e :: e in nodes ==> e.nestingDepth in lists && e in lists[e.nestingDepth])
  }

  lemma RemovingLevel(lists: map<nat, seq<Node>>, depths: map<nat, Node>, nodes: set<Node>, d: nat)
    requires LevelsHold(lists, depths, nodes) && d in lists
    ensures LevelsHold(lists - {d}, depths - {d}, nodes - (set e | e in lists[d]))
  {
  }

  lemma AddingLevel(lists: map<nat, seq<Node>>, depths: map<nat, Node>, nodes: set<Node>, entry: Node)
    requires LevelsHold(lists, depths, nodes) && entry.nestingDepth !in lists && entry.nextAtSameDepth == null
    ensures var d := entry.nestingDepth; LevelsHold(lists[d := [entry]], depths[d := entry], nodes + {entry})
  {
    assert IsChain([entry]);
  }

  /** Makes `entry` a chain of its own; it is in no other chain, so those stay as they are. */
  method LinkAlone(entry: Node, ghost lists: map<nat, seq<Node>>, ghost depths: map<nat, Node>, ghost nodes: set<Node>)
    requires LevelsHold(lists, depths, nodes) && entry !in nodes && entry.nestingDepth !in lists
    modifies entry
    ensures var d := entry.nestingDepth; LevelsHold(lists[d := [entry]], depths[d := entry], nodes + {entry})
  {
    assert forall k :: k in lists ==> entry !in lists[k];
    entry.nextAtSameDepth := null;
    assert forall k :: k in lists ==> IsChain(lists[k]);
    AddingLevel(lists, depths, nodes, entry);
  }

  /** Links `entry` second into the chain of its depth; the other chains share no node with that one. */
  method LinkIntoLevel(first: Node, entry: Node, ghost lists: map<nat, seq<Node>>, ghost depths: map<nat, Node>,
                       ghost nodes: set<Node>)
    requires LevelsHold(lists, depths, nodes) && entry !in nodes
    requires entry.nestingDepth in depths && depths[entry.nestingDepth] == first
    modifies first, entry
    ensures LevelsHold(InsertIntoDepthTree(lists, entry.nestingDepth, entry), depths, nodes + {entry})
  {
    ghost var d := entry.nestingDepth;
    ghost var list := lists[d];
    assert forall k :: k in lists && k != d ==> entry !in lists[k] && first !in lists[k];
    LinkSecond(first, entry, list);
    assert forall k :: k in lists && k != d ==> IsChain(lists[k]);
    ReplacingLevel(lists, depths, nodes, entry, [first, entry] + list[1..]);
  }

  lemma ReplacingLevel(lists: map<nat, seq<Node>>, depths: map<nat, Node>, nodes: set<Node>, entry: Node,
                       list: seq<Node>)
    requires lists.Keys == depths.Keys && entry.nestingDepth in lists
    requires forall d :: d in lists ==> forall e :: e in lists[d] ==> e in nodes && e.nestingDepth == d
    requires forall d :: d in lists && d != entry.nestingDepth ==> IsChain(lists[d]) && lists[d][0] == depths[d]
    requires forall e :: e in nodes ==> e.nestingDepth in lists && e in lists[e.nestingDepth]
    requires IsChain(list) && list[0] == depths[entry.nestingDepth]
    requires forall e :: e in list <==> e == entry || e in lists[entry.nestingDepth]
    ensures LevelsHold(lists[entry.nestingDepth := list], depths, nodes + {entry})
  {
  }

  lemma DistinctWithNewKey(nodes: set<Node>, entry: Node)
    requires DistinctKeys(nodes) && forall e :: e in nodes ==> e.key != entry.key
    ensures DistinctKeys(nodes + {entry})
  {
  }

  // ----- The state of the protocol that the nodes represent -----------------------------------------

  /** Each node stands for an entry with its key and depth, in the table and in the lists. */
  ghost predicate Represents(ids: map<Node, Entry>, nodes: set<Node>, lists: map<nat, seq<Node>>, s: State) {
    && ids.Keys == nodes
    && (forall e :: e in nodes ==> ids[e].key == e.key && ids[e].depth == e.nestingDepth)
    && (forall e :: e in nodes ==> ids[e] in s.table)
    && (forall x :: x in s.table ==> exists e: Node :: e in nodes && ids[e] == x)
    && lists.Keys == s.levels.Keys
    && (forall d :: d in lists ==> IsImage(ids, lists[d], s.levels[d]))
  }

  ghost predicate IsImage(ids: map<Node, Entry>, list: seq<Node>, image: seq<Entry>) {
    |image| == |list| && forall i :: 0 <= i < |list| ==> list[i] in ids && image[i] == ids[list[i]]
  }

  lemma NoKeyRepresented(ids: map<Node, Entry>, nodes: set<Node>, lists: map<nat, seq<Node>>, s: State, key: nat)
    requires Represents(ids, nodes, lists, s)
    ensures HasKey(s.table, key) <==> exists e :: e in nodes && e.key == key
  {
    if e :| e in nodes && e.key == key {
      assert ids[e] in s.table;
    }
  }

  /** Linking in a new node is the insertion of the protocol. */
  lemma InsertionRepresents(ids: map<Node, Entry>, nodes: set<Node>, lists: map<nat, seq<Node>>, s: State,
                            entry: Node, id: Entry)
    requires Represents(ids, nodes, lists, s) && entry !in nodes && (forall e :: e in nodes ==> e.key != entry.key)
    requires id == Entry(s.nextId, entry.key, entry.nestingDepth)
    ensures Represents(ids[entry := id], nodes + {entry}, InsertIntoDepthTree(lists, entry.nestingDepth, entry),
                       BatchProtocol.GetEntry(s, entry.key, entry.nestingDepth))
  {
    NoKeyRepresented(ids, nodes, lists, s, entry.key);
    var ids' := ids[entry := id];
    var s' := BatchProtocol.GetEntry(s, entry.key, entry.nestingDepth);
    var lists' := InsertIntoDepthTree(lists, entry.nestingDepth, entry);
    assert s'.table == s.table + {id};
    forall x | x in s'.table
      ensures exists e: Node :: e in nodes + {entry} && ids'[e] == x
    {
      if x != id {
        var e: Node :| e in nodes && ids[e] == x;
        assert ids'[e] == x;
      } else {
        assert ids'[entry] == x;
      }
    }
    forall d | d in lists'
      ensures IsImage(ids', lists'[d], s'.levels[d])
    {
      assert d in lists ==> IsImage(ids, lists[d], s.levels[d]);
    }
  }

  /** Unlinking a level is the removal of the protocol. */
  lemma RemovalRepresents(ids: map<Node, Entry>, nodes: set<Node>, lists: map<nat, seq<Node>>, s: State, t: nat, d: nat)
    requires Represents(ids, nodes, lists, s) && DistinctKeys(nodes) && d in lists
    requires forall k :: k in lists ==> forall e :: e in lists[k] ==> e in nodes && e.nestingDepth == k
    ensures var level := set e | e in lists[d];
            Represents(ids - level, nodes - level, lists - {d}, TakeDeepest(s, t, d))
  {
    var level := set e | e in lists[d];
    var ids', s' := ids - level, TakeDeepest(s, t, d);
    assert IsImage(ids, lists[d], s.levels[d]);
    assert forall e :: e in lists[d] ==> ids[e] in s.levels[d];
    forall x | x in s'.table
      ensures exists e: Node :: e in nodes - level && ids'[e] == x
    {
      var e: Node :| e in nodes && ids[e] == x;
      assert ids'[e] == x;
    }
    RemainingLists(ids, lists, s, d);
  }

  lemma RemainingLists(ids: map<Node, Entry>, lists: map<nat, seq<Node>>, s: State, d: nat)
    requires lists.Keys == s.levels.Keys && d in lists && forall k :: k in lists ==> IsImage(ids, lists[k], s.levels[k])
    requires forall k :: k in lists ==> forall e :: e in lists[k] ==> e.nestingDepth == k
    ensures forall k :: k in lists && k != d ==> IsImage(ids - (set e | e in lists[d]), lists[k], s.levels[k])
  {
    forall k | k in lists && k != d
      ensures IsImage(ids - (set e | e in lists[d]), lists[k], s.levels[k])
    {
      forall i | 0 <= i < |lists[k]|
        ensures lists[k][i] !in lists[d]
      {
        assert lists[k][i] in lists[k];
      }
    }
  }

  lemma LevelRepresents(nodes: set<Node>, lists: map<nat, seq<Node>>, d: nat, rest: set<Node>,
                        restLists: map<nat, seq<Node>>)
    requires DistinctKeys(nodes) && d in lists && forall k :: k in lists ==> k <= d
    requires forall k :: k in lists ==> forall e :: e in lists[k] ==> e in nodes && e.nestingDepth == k
    requires rest == nodes - (set e | e in lists[d]) && restLists == lists - {d}
    ensures forall ids, s, t :: Represents(ids, nodes, lists, s) && Enabled(s, TakeLevel(t)) ==>
              && IsImage(ids, lists[d], s.levels[d])
              && exists ids' :: Represents(ids', rest, restLists, Apply(s, TakeLevel(t)))
  {
    forall ids, s, t | Represents(ids, nodes, lists, s) && Enabled(s, TakeLevel(t))
      ensures IsImage(ids, lists[d], s.levels[d])
      ensures exists ids' :: Represents(ids', rest, restLists, Apply(s, TakeLevel(t)))
    {
      assert Deepest(s.levels, d);
      assert Apply(s, TakeLevel(t)) == TakeDeepest(s, t, d);
      RemovalRepresents(ids, nodes, lists, s, t, d);
    }
  }

  class Impl {
    var entries: set<Node>
    var nestingDepths: map<nat, Node>
    ghost var lists: map<nat, seq<Node>>

    ghost predicate Valid()
      reads this, entries
    {
      LevelsHold(lists, nestingDepths, entries) && DistinctKeys(entries)
    }

    constructor ()
      ensures Valid() && entries == {} && lists == map[]
    {
      entries, nestingDepths, lists := {}, map[], map[];
    }

    /** The entry with the given key, which is created and linked in if there is none. */
    method GetEntry(key: nat, nestingDepth: nat) returns (entry: Node, inserted: bool)
      requires Valid()
      modifies this, entries
      ensures Valid() && entry in entries && entry.key == key
      ensures inserted <==> forall e :: e in old(entries) ==> e.key != key
      ensures !inserted ==> entries == old(entries) && lists == old(lists)
      ensures inserted ==>
                && fresh(entry) && entry.nestingDepth == nestingDepth
                && entries == old(entries) + {entry}
                && lists == InsertIntoDepthTree(old(lists), nestingDepth, entry)
      ensures forall ids, s :: Represents(ids, old(entries), old(lists), s) ==>
                exists ids' :: Represents(ids', entries, lists, BatchProtocol.GetEntry(s, key, nestingDepth))
    {
      if e :| e in entries && e.key == key {
        forall ids, s | Represents(ids, entries, lists, s)
          ensures BatchProtocol.GetEntry(s, key, nestingDepth) == s
        {
          NoKeyRepresented(ids, entries, lists, s, key);
        }
        return e, false;
      }
      entry := new Node(key, nestingDepth);
      inserted := true;
      InsertNode(entry);
      forall ids, s | Represents(ids, old(entries), old(lists), s)
        ensures exists ids' :: Represents(ids', entries, lists, BatchProtocol.GetEntry(s, key, nestingDepth))
      {
        InsertionRepresents(ids, old(entries), old(lists), s, entry, Entry(s.nextId, key, nestingDepth));
      }
    }

    /** Inserts a new entry into the hash table and the tree. */
    method InsertNode(entry: Node)
      requires Valid() && entry !in entries
      requires forall e :: e in entries ==> e.key != entry.key
      modifies this, entry, entries
      ensures Valid()
      ensures entries == old(entries) + {entry}
      ensures lists == InsertIntoDepthTree(old(lists), entry.nestingDepth, entry)
    {
      DistinctWithNewKey(entries, entry);
      InsertIntoTree(entry);
      InsertIntoTable(entry);
    }

    method InsertIntoTable(entry: Node)
      requires LevelsHold(lists, nestingDepths, entries + {entry}) && DistinctKeys(entries + {entry})
      modifies this`entries
      ensures Valid() && entries == old(entries) + {entry}
    {
      entries := entries + {entry};
    }

    /** `InsertIntoDepthTree`: a new depth gets a list of its own; otherwise the entry goes second. */
    method InsertIntoTree(entry: Node)
      requires LevelsHold(lists, nestingDepths, entries) && entry !in entries
      modifies this`lists, this`nestingDepths, entry, entries
      ensures LevelsHold(lists, nestingDepths, entries + {entry})
      ensures lists == InsertIntoDepthTree(old(lists), entry.nestingDepth, entry)
    {
      if entry.nestingDepth !in nestingDepths {
        AddLevel(entry);
      } else {
        assert nestingDepths[entry.nestingDepth] == lists[entry.nestingDepth][0];
        AddToLevel(entry);
      }
    }

    method AddLevel(entry: Node)
      requires LevelsHold(lists, nestingDepths, entries) && entry !in entries && entry.nestingDepth !in nestingDepths
      modifies this`lists, this`nestingDepths, entry
      ensures LevelsHold(lists, nestingDepths, entries + {entry})
      ensures lists == InsertIntoDepthTree(old(lists), entry.nestingDepth, entry)
    {
      LinkAlone(entry, lists, nestingDepths, entries);
      nestingDepths := nestingDepths[entry.nestingDepth := entry];
      lists := lists[entry.nestingDepth := [entry]];
    }

    method AddToLevel(entry: Node)
      requires LevelsHold(lists, nestingDepths, entries) && entry !in entries && entry.nestingDepth in nestingDepths
      modifies this`lists, entry, nestingDepths[entry.nestingDepth]
      ensures LevelsHold(lists, nestingDepths, entries + {entry})
      ensures lists == InsertIntoDepthTree(old(lists), entry.nestingDepth, entry)
    {
      var d := entry.nestingDepth;
      LinkIntoLevel(nestingDepths[d], entry, lists, nestingDepths, entries);
      lists := InsertIntoDepthTree(lists, d, entry);
    }

    /** Removes the deepest level from the tree, and its entries from the hash table. */
    method TakeDeepestLevel() returns (start: Option<Node>, ghost depth: nat)
      requires Valid()
      modifies this
      ensures Valid()
      ensures start.None? <==> old(lists) == map[]
      ensures start.None? ==> lists == map[] && entries == {} == old(entries)
      ensures start.Some? ==>
                && depth in old(lists) && (forall d :: d in old(lists) ==> d <= depth)
                && start.value == old(lists)[depth][0]
                && lists == old(lists) - {depth}
                && entries == old(entries) - (set e | e in old(lists)[depth])
      ensures start.Some? ==>
                forall ids, s, t :: Represents(ids, old(entries), old(lists), s) && Enabled(s, TakeLevel(t)) ==>
                  && IsImage(ids, old(lists)[depth], s.levels[depth])
                  && exists ids' :: Represents(ids', entries, lists, Apply(s, TakeLevel(t)))
    {
      if nestingDepths == map[] {
        assert entries == {};
        return None, 0;
      }
      depth := Greatest(nestingDepths.Keys);
      var deepest :| deepest in nestingDepths && forall d :: d in nestingDepths ==> d <= deepest;
      var node := RemoveLevel(deepest);
      LevelRepresents(old(entries), old(lists), deepest, entries, lists);
      return Some(node), deepest;
    }

    method RemoveLevel(d: nat) returns (node: Node)
      requires Valid() && d in nestingDepths
      modifies this
      ensures Valid() && node == old(lists)[d][0]
      ensures lists == old(lists) - {d} && entries == old(entries) - (set e | e in old(lists)[d])
    {
      RemovingLevel(lists, nestingDepths, entries, d);
      node := nestingDepths[d];
      EraseChain(node, lists[d]);
      nestingDepths := nestingDepths - {d};
      lists := lists - {d};
    }

    /** Erases the nodes of a chain from the hash table. */
    method EraseChain(start: Node, ghost list: seq<Node>)
      requires IsChain(list) && list[0] == start && forall e :: e in list ==> e in entries
      modifies this`entries
      ensures entries == old(entries) - (set e | e in list)
    {
      var node: Node? := start;
      ghost var i := 0;
      while node != null
        invariant 0 <= i <= |list| && (if i < |list| then node == list[i] else node == null)
        invariant entries == old(entries) - (set e | e in list[..i])
        decreases |list| - i
      {
        entries := entries - {node};
        assert list[..i + 1] == list[..i] + [node];
        node := node.nextAtSameDepth;
        i := i + 1;
      }
      assert list[..i] == list;
    }
  }

  /** The greatest element of a nonempty finite set. */
  lemma {:induction false} Greatest(depths: set<nat>) returns (d: nat)
    requires depths != {}
    ensures d in depths && forall other :: other in depths ==> other <= d
  {
    d :| d in depths;
    assert forall other :: other in depths ==> other == d || other in depths - {d};
    if depths - {d} != {} {
      var m := Greatest(depths - {d});
      if m > d {
        d := m;
      }
    }
  }

  /** Visits a chain in order, to submit each entry. A submitted entry destroys itself, so its
      link is read before and lost after. */
  method SubmitChain(start: Node, ghost list: seq<Node>) returns (order: seq<Node>)
    requires IsChain(list) && list[0] == start
    modifies list
    ensures order == list
  {
    order := [];
    var node: Node? := start;
    ghost var i := 0;
    while node != null
      invariant 0 <= i <= |list| && (if i < |list| then node == list[i] else node == null)
      invariant order == list[..i]
      invariant forall k :: i <= k < |list| ==> list[k].nextAtSameDepth == old(list[k].nextAtSameDepth)
      decreases |list| - i
    {
      var next := node.nextAtSameDepth;
      order := order + [node];
      node.nextAtSameDepth := null;
      node := next;
      i := i + 1;
    }
  }

  /** Links `entry` after the first node of a chain. */
  method LinkSecond(first: Node, entry: Node, ghost list: seq<Node>)
    requires IsChain(list) && list[0] == first && entry !in list
    modifies first, entry
    ensures IsChain([first, entry] + list[1..])
    ensures forall e :: e in [first, entry] + list[1..] <==> e == entry || e in list
  {
    SecondIsDistinct(list, entry);
    entry.nextAtSameDepth := first.nextAtSameDepth;
    first.nextAtSameDepth := entry;
  }

  lemma SecondIsDistinct(list: seq<Node>, entry: Node)
    requires list != [] && NoDuplicates(list) && entry !in list
    ensures var longer := [list[0], entry] + list[1..];
            && NoDuplicates(longer)
            && (forall e :: e in longer <==> e == entry || e in list)
            && (forall i :: 2 <= i < |longer| ==> longer[i] == list[i - 1] && longer[i] != list[0])
            && longer[|longer| - 1] == if |list| == 1 then entry else list[|list| - 1]
  {
    assert list == [list[0]] + list[1..];
  }
}
