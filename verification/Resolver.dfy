/** Looking up named resources in a tree of contexts: what a name means, and the memoised lookup
    that creates resources on demand (tensorstore/context.cc, tensorstore/context_impl.h). */
module Resolver {
  import opened Results

  type Key = string

  /** The part of a key before the first `#`. */
  function ParseResourceProvider(key: Key): (r: Key)
    ensures '#' !in r
    ensures '#' !in key ==> r == key
    ensures r <= key && (|r| < |key| ==> key[|r|] == '#')
  {
    if key == "" || key[0] == '#' then ""
    else
      assert key == [key[0]] + key[1..];
      [key[0]] + ParseResourceProvider(key[1..])
  }

  /** A resource spec that is created directly, or a reference to another resource: by key, or with an
      empty referent (JSON `null`) to the default key in the parent. */
  datatype Spec = Direct | Reference(referent: Key)

  /** The identity of a resource: what a context made from its own spec, or a default of the root. */
  datatype Resource = Made(creator: Context, key: Key) | Default(key: Key)

  /** A container in `resources_`; until its result is set it marks a resource under creation. */
  datatype Container = Creating | Ready(result: Result<Resource>)

  class Context {
    const parent: Context?
    const spec: map<Key, Spec>
    ghost const depth: nat
    var resources: map<Key, Container>

    constructor (spec: map<Key, Spec>, parent: Context?)
      requires parent != null ==> parent.Rooted()
      requires WellFormed(spec)
      ensures this.spec == spec && this.parent == parent && Rooted() && resources == map[]
    {
      this.spec := spec;
      this.parent := parent;
      this.depth := if parent == null then 0 else parent.depth + 1;
      this.resources := map[];
    }

    /** Parents lead to a root, and each reference names a resource of its own provider, as parsing
        guarantees. */
    ghost predicate Rooted()
      decreases depth
    {
      && WellFormed(spec)
      && (parent != null ==> parent.depth < depth && parent.Rooted())
    }
  }

  ghost predicate WellFormed(spec: map<Key, Spec>) {
    forall k :: k in spec && spec[k].Reference? && spec[k].referent != "" ==>
      ParseResourceProvider(spec[k].referent) == ParseResourceProvider(k)
  }

  // ----- What a name means ------------------------------------------------------------------------

  /** Where a declared name leads: to an outcome, or on to another declared name. */
  datatype Link = Stop(result: Result<Resource>) | Go(context: Context, key: Key)

  ghost function Search(c: Context, referent: Key, provider: Key): (r: Link)
    requires c.Rooted()
    ensures r.Go? ==> r.context.Rooted() && r.key == referent && referent in r.context.spec
    decreases c.depth
  {
    if referent in c.spec then Go(c, referent)
    else if c.parent != null then Search(c.parent, referent, provider)
    else if referent == provider then Stop(Ok(Default(referent)))
    else Stop(Err)
  }

  ghost function Follow(c: Context, key: Key): (r: Link)
    requires c.Rooted() && key in c.spec
    ensures r.Go? ==> r.context.Rooted() && r.key in r.context.spec
  {
    var provider := ParseResourceProvider(key);
    match c.spec[key]
    case Direct => Stop(Ok(Made(c, key)))
    case Reference(referent) =>
      if referent != "" then Search(c, referent, provider)
      else if c.parent != null then Search(c.parent, provider, provider)
      else Stop(Ok(Default(key)))
  }

  /** The outcome of following at most `n` links. */
  ghost function Run(c: Context, key: Key, n: nat): Option<Result<Resource>>
    requires c.Rooted() && key in c.spec
    decreases n
  {
    match Follow(c, key)
    case Stop(result) => Some(result)
    case Go(next, nextKey) => if n == 0 then None else Run(next, nextKey, n - 1)
  }

  /** The meaning of a declared name, from the specs alone: the outcome at the end of its links, or an
      error if they never end. */
  ghost function Meaning(c: Context, key: Key): Result<Resource>
    requires c.Rooted() && key in c.spec
  {
    if exists n: nat :: Run(c, key, n).Some? then
      var n: nat :| Run(c, key, n).Some?;
      Run(c, key, n).value
    else
      Err
  }

  ghost function MeaningOf(link: Link): Result<Resource>
    requires link.Go? ==> link.context.Rooted() && link.key in link.context.spec
  {
    match link
    case Stop(result) => result
    case Go(c, key) => Meaning(c, key)
  }

  lemma {:induction false} RunIsStable(c: Context, key: Key, m: nat, n: nat)
    requires c.Rooted() && key in c.spec && m <= n && Run(c, key, m).Some?
    ensures Run(c, key, n) == Run(c, key, m)
    decreases m
  {
    match Follow(c, key)
    case Stop(_) =>
    case Go(next, nextKey) => RunIsStable(next, nextKey, m - 1, n - 1);
  }

  lemma RunGivesMeaning(c: Context, key: Key, n: nat)
    requires c.Rooted() && key in c.spec && Run(c, key, n).Some?
    ensures Meaning(c, key) == Run(c, key, n).value
  {
    var m: nat :| Run(c, key, m).Some? && Meaning(c, key) == Run(c, key, m).value;
    if m <= n {
      RunIsStable(c, key, m, n);
    } else {
      RunIsStable(c, key, n, m);
    }
  }

  /** A name means what its link means. */
  lemma MeaningFollows(c: Context, key: Key)
    requires c.Rooted() && key in c.spec
    ensures Meaning(c, key) == MeaningOf(Follow(c, key))
  {
    match Follow(c, key)
    case Stop(result) =>
      RunGivesMeaning(c, key, 0);
    case Go(next, nextKey) =>
      if n: nat :| Run(next, nextKey, n).Some? {
        assert Run(c, key, n + 1) == Run(next, nextKey, n);
        RunGivesMeaning(next, nextKey, n);
        RunGivesMeaning(c, key, n + 1);
      } else {
        forall n: nat
          ensures Run(c, key, n).None?
        {
          assert n > 0 ==> Run(c, key, n) == Run(next, nextKey, n - 1);
        }
      }
  }

  // ----- Nearest declarations -----------------------------------------------------------------------

  ghost function Ancestor(c: Context, n: nat): (r: Context?)
    requires c.Rooted()
    ensures r != null ==> r.Rooted()
    decreases n
  {
    if n == 0 then c
    else if c.parent == null then null
    else Ancestor(c.parent, n - 1)
  }

  ghost predicate Declares(c: Context, n: nat, key: Key)
    requires c.Rooted()
  {
    Ancestor(c, n) != null && key in Ancestor(c, n).spec
  }

  /** A reference leads to the nearest enclosing context that declares its referent; if none does, to
      the default of the root if the referent is the provider itself, and else nowhere. */
  lemma {:induction false} SearchFindsNearest(c: Context, referent: Key, provider: Key)
    requires c.Rooted()
    ensures match Search(c, referent, provider)
      case Go(found, key) =>
        key == referent && exists n: nat ::
          Declares(c, n, referent) && found == Ancestor(c, n) && forall m: nat :: m < n ==> !Declares(c, m, referent)
      case Stop(result) =>
        && (forall n: nat :: !Declares(c, n, referent))
        && result == if referent == provider then Ok(Default(referent)) else Err
    decreases c.depth
  {
    if referent in c.spec {
      assert Declares(c, 0, referent);
    } else {
      assert !Declares(c, 0, referent);
      if c.parent != null {
        SearchFindsNearest(c.parent, referent, provider);
        assert forall n: nat :: n > 0 ==> Declares(c, n, referent) == Declares(c.parent, n - 1, referent);
        match Search(c, referent, provider)
        case Go(found, _) =>
          var n: nat :| Declares(c.parent, n, referent) && found == Ancestor(c.parent, n) &&
                        forall m: nat :: m < n ==> !Declares(c.parent, m, referent);
          assert Declares(c, n + 1, referent) && found == Ancestor(c, n + 1);
        case Stop(_) =>
      }
    }
  }

  // ----- What each kind of spec means ---------------------------------------------------------------

  /** The `n`-th enclosing context declares the key, and none before it from the `start`-th on does. */
  ghost predicate IsNearest(c: Context, start: nat, n: nat, key: Key)
    requires c.Rooted()
  {
    start <= n && Declares(c, n, key) && forall m: nat :: start <= m < n ==> !Declares(c, m, key)
  }

  ghost predicate NoneDeclares(c: Context, start: nat, key: Key)
    requires c.Rooted()
  {
    forall n: nat :: start <= n ==> !Declares(c, n, key)
  }

  lemma {:induction false} SearchFrom(c: Context, n: nat, referent: Key, provider: Key)
    requires c.Rooted() && IsNearest(c, 0, n, referent)
    ensures Search(c, referent, provider) == Go(Ancestor(c, n), referent)
    decreases n
  {
    if n > 0 {
      assert !Declares(c, 0, referent);
      assert c.parent != null;
      ShiftNearest(c, 0, n, referent);
      SearchFrom(c.parent, n - 1, referent, provider);
    }
  }

  lemma ShiftNearest(c: Context, start: nat, n: nat, key: Key)
    requires c.Rooted() && c.parent != null && IsNearest(c, start, n, key) && 0 < n
    ensures IsNearest(c.parent, if start == 0 then 0 else start - 1, n - 1, key)
  {
    assert forall m: nat :: Declares(c.parent, m, key) == Declares(c, m + 1, key);
  }

  /** A resource that is declared directly is made by the context that declares it, under its own key. */
  lemma DirectMeansMade(c: Context, key: Key)
    requires c.Rooted() && key in c.spec && c.spec[key] == Direct
    ensures Meaning(c, key) == Ok(Made(c, key))
  {
    MeaningFollows(c, key);
  }

  /** An empty referent in the root means a default under the key itself. */
  lemma NullInRootMeansDefault(c: Context, key: Key)
    requires c.Rooted() && key in c.spec && c.spec[key] == Reference("") && c.parent == null
    ensures Meaning(c, key) == Ok(Default(key))
  {
    MeaningFollows(c, key);
  }

  /** An empty referent below the root means what the provider means in the nearest proper ancestor that
      declares it ... */
  lemma NullMeansNearest(c: Context, key: Key, n: nat)
    requires c.Rooted() && key in c.spec && c.spec[key] == Reference("") && c.parent != null
    requires IsNearest(c, 1, n, ParseResourceProvider(key))
    ensures Meaning(c, key) == Meaning(Ancestor(c, n), ParseResourceProvider(key))
  {
    MeaningFollows(c, key);
    ShiftNearest(c, 1, n, ParseResourceProvider(key));
    SearchFrom(c.parent, n - 1, ParseResourceProvider(key), ParseResourceProvider(key));
  }

  /** ... and else the default of the root for the provider. */
  lemma NullMeansDefault(c: Context, key: Key)
    requires c.Rooted() && key in c.spec && c.spec[key] == Reference("") && c.parent != null
    requires NoneDeclares(c, 1, ParseResourceProvider(key))
    ensures Meaning(c, key) == Ok(Default(ParseResourceProvider(key)))
  {
    MeaningFollows(c, key);
    var provider := ParseResourceProvider(key);
    assert forall n: nat :: Declares(c.parent, n, provider) == Declares(c, n + 1, provider);
    SearchFindsNearest(c.parent, provider, provider);
  }

  /** A nonempty referent is sought from the context itself upwards ... */
  lemma ReferenceMeansNearest(c: Context, key: Key, n: nat)
    requires c.Rooted() && key in c.spec && c.spec[key].Reference? && c.spec[key].referent != ""
    requires IsNearest(c, 0, n, c.spec[key].referent)
    ensures Meaning(c, key) == Meaning(Ancestor(c, n), c.spec[key].referent)
  {
    MeaningFollows(c, key);
    SearchFrom(c, n, c.spec[key].referent, ParseResourceProvider(key));
  }

  /** ... and if nothing declares it, it is the default of the root if it is a provider, and else an error. */
  lemma ReferenceMeansDefault(c: Context, key: Key)
    requires c.Rooted() && key in c.spec && c.spec[key].Reference? && c.spec[key].referent != ""
    requires NoneDeclares(c, 0, c.spec[key].referent)
    ensures var referent := c.spec[key].referent;
            Meaning(c, key) == if '#' !in referent then Ok(Default(referent)) else Err
  {
    MeaningFollows(c, key);
    SearchFindsNearest(c, c.spec[key].referent, ParseResourceProvider(key));
  }

  // ----- Links that form a cycle ------------------------------------------------------------------

  datatype Node = Node(context: Context, key: Key)

  ghost predicate Declared(node: Node) {
    node.context.Rooted() && node.key in node.context.spec
  }

  /** Each node of the path leads to the next, and the last one leads to `last`. */
  ghost predicate IsPath(path: seq<Node>, last: Link) {
    && (forall i :: 0 <= i < |path| ==> Declared(path[i]))
    && (forall i :: 0 <= i < |path| - 1 ==>
          Follow(path[i].context, path[i].key) == Go(path[i + 1].context, path[i + 1].key))
    && (path != [] ==> Follow(path[|path| - 1].context, path[|path| - 1].key) == last)
  }

  lemma {:induction false} CycleNeverStops(path: seq<Node>, start: nat, i: nat, n: nat)
    requires start <= i < |path| && IsPath(path, Go(path[start].context, path[start].key))
    ensures Run(path[i].context, path[i].key, n).None?
    decreases n
  {
    var next := if i + 1 < |path| then i + 1 else start;
    assert Follow(path[i].context, path[i].key) == Go(path[next].context, path[next].key);
    if n > 0 {
      CycleNeverStops(path, start, next, n - 1);
    }
  }

  /** A path that leads back into itself has no outcome. */
  lemma CycleMeansError(path: seq<Node>, start: nat)
    requires start < |path| && IsPath(path, Go(path[start].context, path[start].key))
    ensures Meaning(path[start].context, path[start].key) == Err
  {
    forall n: nat
      ensures Run(path[start].context, path[start].key, n).None?
    {
      CycleNeverStops(path, start, start, n);
    }
  }

  /** The spec of `node` refers to `next`: the nearest declaration of what it names. */
  ghost predicate RefersTo(node: Node, next: Node) {
    Declared(node) &&
    var c, provider := node.context, ParseResourceProvider(node.key);
    match c.spec[node.key]
    case Direct => false
    case Reference(referent) =>
      && next.key == (if referent == "" then provider else referent)
      && exists n: nat :: IsNearest(c, if referent == "" then 1 else 0, n, next.key) && next.context == Ancestor(c, n)
  }

  lemma ReferringIsFollowing(node: Node, next: Node)
    requires RefersTo(node, next)
    ensures Declared(node) && Follow(node.context, node.key) == Go(next.context, next.key)
  {
    var c, key := node.context, node.key;
    var referent, provider := c.spec[key].referent, ParseResourceProvider(key);
    if referent != "" {
      var n: nat :| IsNearest(c, 0, n, next.key) && next.context == Ancestor(c, n);
      SearchFrom(c, n, referent, provider);
    } else {
      var n: nat :| IsNearest(c, 1, n, next.key) && next.context == Ancestor(c, n);
      assert c.parent != null;
      ShiftNearest(c, 1, n, provider);
      SearchFrom(c.parent, n - 1, provider, provider);
    }
  }

  ghost predicate IsCircle(circle: seq<Node>) {
    && circle != []
    && (forall j :: 0 <= j < |circle| - 1 ==> RefersTo(circle[j], circle[j + 1]))
    && RefersTo(circle[|circle| - 1], circle[0])
  }

  /** Specs that refer to one another in a circle mean errors. */
  lemma ReferenceCycleMeansError(circle: seq<Node>)
    requires IsCircle(circle)
    ensures Declared(circle[0]) && Meaning(circle[0].context, circle[0].key) == Err
  {
    forall j | 0 <= j < |circle| - 1
      ensures Declared(circle[j])
      ensures Follow(circle[j].context, circle[j].key) == Go(circle[j + 1].context, circle[j + 1].key)
    {
      ReferringIsFollowing(circle[j], circle[j + 1]);
    }
    ReferringIsFollowing(circle[|circle| - 1], circle[0]);
    CycleMeansError(circle, 0);
  }

  /** A name that refers to itself is an error, whatever the parent declares; only an empty referent
      reaches the parent's resource of that name. */
  lemma SelfReferenceMeansError(c: Context, key: Key)
    requires c.Rooted() && key in c.spec && key != "" && c.spec[key] == Reference(key)
    ensures Meaning(c, key) == Err
  {
    CycleMeansError([Node(c, key)], 0);
  }

  // ----- The memoised lookup ------------------------------------------------------------------------

  /** The contexts that share a root. */
  ghost predicate Family(all: set<Context>) {
    forall c :: c in all ==> c.Rooted() && (c.parent != null ==> c.parent in all)
  }

  ghost predicate IsRight(c: Context, key: Key, container: Container, path: seq<Node>)
    requires c.Rooted()
  {
    if key !in c.spec then c.parent == null && '#' !in key && container == Ready(Ok(Default(key)))
    else if container == Creating then Node(c, key) in path
    else container.result == Meaning(c, key)
  }

  /** Everything that is stored means what the specs say: the keys are declared ones or the root's
      defaults, and exactly the names on the path are under creation. */
  ghost predicate Memo(all: set<Context>, path: seq<Node>)
    requires Family(all)
    reads all
  {
    forall c, key :: c in all && key in c.resources ==> IsRight(c, key, c.resources[key], path)
  }

  /** Entries are only added, and what is added is not left under creation. */
  ghost predicate OnlyAdds(before: map<Key, Container>, after: map<Key, Container>) {
    && (forall key :: key in before ==> key in after && after[key] == before[key])
    && (forall key :: key in after && after[key] == Creating ==> key in before)
  }

  twostate predicate Grows(all: set<Context>)
    reads all
  {
    forall c :: c in all ==> OnlyAdds(old(c.resources), c.resources)
  }

  /** A container that was under creation in between is filled in at the end. */
  lemma FilledIn(before: map<Key, Container>, inner: map<Key, Container>, key: Key, container: Container)
    requires key !in before && container != Creating && OnlyAdds(before[key := Creating], inner)
    ensures OnlyAdds(before, inner[key := container])
  {
    forall k | k in before
      ensures k in inner && inner[k] == before[k]
    {
      assert k in before[key := Creating];
    }
  }

  /** The declared names that have not been requested yet. */
  ghost function Pending(all: set<Context>): set<Node>
    reads all
  {
    set c, key | c in all && key in c.spec && key !in c.resources :: Node(c, key)
  }

  /** Inserts the container of a resource under creation. */
  method Begin(c: Context, key: Key, ghost all: set<Context>, ghost path: seq<Node>)
    requires Family(all) && c in all && key in c.spec && key !in c.resources && Memo(all, path)
    modifies c
    ensures c.resources == old(c.resources)[key := Creating]
    ensures Memo(all, path + [Node(c, key)]) && |Pending(all)| < |old(Pending(all))|
  {
    ghost var pending := Pending(all);
    c.resources := c.resources[key := Creating];
    assert Pending(all) == pending - {Node(c, key)};
    assert Node(c, key) in path + [Node(c, key)];
  }

  /** Stores the result of a resource that was under creation. */
  method Finish(c: Context, key: Key, result: Result<Resource>, ghost all: set<Context>, ghost path: seq<Node>)
    requires Family(all) && c in all && key in c.spec && result == Meaning(c, key) && Memo(all, path + [Node(c, key)])
    modifies c
    ensures c.resources == old(c.resources)[key := Ready(result)]
    ensures Memo(all, path)
  {
    c.resources := c.resources[key := Ready(result)];
    forall d, k | d in all && k in d.resources
      ensures IsRight(d, k, d.resources[k], path)
    {
      if d != c || k != key {
        assert IsRight(d, k, old(d.resources[k]), path + [Node(c, key)]);
      }
    }
  }

  /** `CreateResource` on a spec of the context. */
  method CreateResource(c: Context, key: Key, ghost all: set<Context>, ghost path: seq<Node>)
    returns (result: Result<Resource>)
    requires Family(all) && c in all && key in c.spec && key !in c.resources
    requires IsPath(path, Go(c, key)) && Memo(all, path)
    modifies all
    ensures Memo(all, path) && Grows(all)
    ensures result == Meaning(c, key) && key in c.resources
    decreases |Pending(all)|, 1, 0
  {
    Begin(c, key, all, path);
    result := CreateFromSpec(c, key, all, path + [Node(c, key)]);
    FilledIn(old(c.resources), c.resources, key, Ready(result));
    Finish(c, key, result, all, path);
  }

  /** What the spec itself does: create the resource, or resolve the reference. */
  method CreateFromSpec(c: Context, key: Key, ghost all: set<Context>, ghost path: seq<Node>)
    returns (result: Result<Resource>)
    requires Family(all) && c in all && key in c.spec && key in c.resources
    requires path != [] && path[|path| - 1] == Node(c, key)
    requires IsPath(path, Follow(c, key)) && Memo(all, path)
    modifies all
    ensures Memo(all, path) && Grows(all)
    ensures result == Meaning(c, key)
    decreases |Pending(all)|, 4, 0
  {
    MeaningFollows(c, key);
    match c.spec[key]
    case Direct =>
      result := Ok(Made(c, key));
    case Reference(referent) =>
      result := CreateReference(c, key, referent, all, path);
  }

  /** `ResourceReference::CreateResource`. */
  method CreateReference(c: Context, key: Key, referent: Key, ghost all: set<Context>, ghost path: seq<Node>)
    returns (result: Result<Resource>)
    requires Family(all) && c in all && key in c.spec && c.spec[key] == Reference(referent)
    requires key in c.resources && path != [] && path[|path| - 1] == Node(c, key)
    requires IsPath(path, Follow(c, key)) && Memo(all, path)
    modifies all
    ensures Memo(all, path) && Grows(all)
    ensures result == MeaningOf(Follow(c, key))
    decreases |Pending(all)|, 3, 0
  {
    var provider := ParseResourceProvider(key);
    if referent != "" {
      result := Lookup(c, referent, provider, all, path);
    } else if c.parent != null {
      result := Lookup(c.parent, provider, provider, all, path);
    } else {
      result := CreateDefault(c, key);
    }
  }

  /** Creates a default resource of the root; a container that is already stored under its key stays. */
  method CreateDefault(c: Context, key: Key) returns (result: Result<Resource>)
    modifies c
    ensures result == Ok(Default(key))
    ensures c.resources == if key in old(c.resources) then old(c.resources) else old(c.resources)[key := Ready(result)]
  {
    result := Ok(Default(key));
    if key !in c.resources {
      c.resources := c.resources[key := Ready(result)];
    }
  }

  /** Walks up from `c` to the nearest context that has stored or declares the referent. */
  method Lookup(start: Context, referent: Key, provider: Key, ghost all: set<Context>, ghost path: seq<Node>)
    returns (result: Result<Resource>)
    requires Family(all) && start in all && ParseResourceProvider(referent) == provider
    requires IsPath(path, Search(start, referent, provider)) && Memo(all, path)
    modifies all
    ensures Memo(all, path) && Grows(all)
    ensures result == MeaningOf(Search(start, referent, provider))
    decreases |Pending(all)|, 2, 0
  {
    var c := start;
    while true
      invariant c in all && Search(c, referent, provider) == Search(start, referent, provider)
      invariant forall d :: d in all ==> d.resources == old(d.resources)
      decreases c.depth
    {
      if referent in c.resources {
        result := WaitForCompletion(c, referent, all, path);
        return;
      }
      if referent in c.spec {
        result := CreateResource(c, referent, all, path);
        return;
      }
      if c.parent == null {
        if referent != provider {
          return Err;
        }
        result := CreateDefault(c, provider);
        return;
      }
      c := c.parent;
    }
  }

  /** A resource that is still under creation is on the path of the caller itself: the wait closes a
      cycle, which the deadlock check turns into an error. */
  method WaitForCompletion(c: Context, key: Key, ghost all: set<Context>, ghost path: seq<Node>)
    returns (result: Result<Resource>)
    requires Family(all) && c in all && key in c.resources && Memo(all, path)
    requires key in c.spec ==> IsPath(path, Go(c, key))
    ensures result == if key in c.spec then Meaning(c, key) else Ok(Default(key))
  {
    match c.resources[key]
    case Creating =>
      ghost var i :| 0 <= i < |path| && path[i] == Node(c, key);
      CycleMeansError(path, i);
      result := Err;
    case Ready(stored) =>
      result := stored;
  }

  /** A request for a declared name: whatever was requested before, the result is what the name means. */
  method GetOrCreateResource(c: Context, key: Key, ghost all: set<Context>) returns (result: Result<Resource>)
    requires Family(all) && c in all && key in c.spec && Memo(all, [])
    modifies all
    ensures Memo(all, []) && Grows(all)
    ensures result == Meaning(c, key) && key in c.resources
  {
    if key in c.resources {
      result := WaitForCompletion(c, key, all, []);
    } else {
      result := CreateResource(c, key, all, []);
    }
  }

  /** A name that its own context defines as a reference to itself, below one that defines it. */
  method SelfReferenceExample() returns (parent: Context, child: Context)
    ensures parent.Rooted() && "a" in parent.spec && Meaning(parent, "a") == Ok(Made(parent, "a"))
    ensures child.Rooted() && child.parent == parent && "a" in child.spec && Meaning(child, "a") == Err
  {
    parent := new Context(map["a" := Direct], null);
    child := new Context(map["a" := Reference("a")], parent);
    MeaningFollows(parent, "a");
    SelfReferenceMeansError(child, "a");
  }
}
