/** The identifiers that a context spec builder gives to shared resources when it is destroyed
    (tensorstore/context.cc, tensorstore/context_impl.h). */
module BuilderKeys {
  import Resolver

  type Key = string

  // ----- Candidate keys ---------------------------------------------------------------------------

  function Digit(d: nat): char
    requires d < 10
  {
    '0' + d as char
  }

  function Decimal(n: nat): (r: string)
    ensures r != []
  {
    if n < 10 then [Digit(n)] else Decimal(n / 10) + [Digit(n % 10)]
  }

  lemma {:induction false} DecimalIsInjective(m: nat, n: nat)
    requires Decimal(m) == Decimal(n)
    ensures m == n
  {
    var a, b := Decimal(m), Decimal(n);
    assert a[|a| - 1] == Digit(m % 10) && b[|b| - 1] == Digit(n % 10);
    if m >= 10 && n >= 10 {
      assert a[..|a| - 1] == Decimal(m / 10) && b[..|b| - 1] == Decimal(n / 10);
      DecimalIsInjective(m / 10, n / 10);
    }
  }

  /** `<provider>#<i>`. */
  function Candidate(provider: Key, i: nat): Key {
    provider + "#" + Decimal(i)
  }

  lemma CandidatesDiffer(provider: Key, i: nat, j: nat)
    requires Candidate(provider, i) == Candidate(provider, j)
    ensures i == j
  {
    var a, b, n := Candidate(provider, i), Candidate(provider, j), |provider| + 1;
    assert a[n..] == Decimal(i) && b[n..] == Decimal(j);
    DecimalIsInjective(i, j);
  }

  /** `s` is how `n` is written: decimal digits, the first of which is not 0 unless it is the only one. */
  ghost predicate IsNumeral(s: string, n: nat) {
    && s != [] && (forall i :: 0 <= i < |s| ==> '0' <= s[i] <= '9')
    && (|s| > 1 ==> s[0] != '0')
    && ReadDigits(s) == n
  }

  ghost function ReadDigits(s: string): int {
    if s == [] then 0
    else 10 * ReadDigits(s[..|s| - 1]) + (s[|s| - 1] as int - '0' as int)
  }

  lemma {:induction false} DecimalIsNumeral(n: nat)
    ensures IsNumeral(Decimal(n), n) && (n > 0 ==> Decimal(n)[0] != '0')
  {
    var s := Decimal(n);
    if n >= 10 {
      DecimalIsNumeral(n / 10);
      assert s[..|s| - 1] == Decimal(n / 10);
    } else {
      assert s[..|s| - 1] == [];
    }
  }

  lemma {:induction false} NumeralIsDecimal(s: string, n: nat)
    requires IsNumeral(s, n)
    ensures s == Decimal(n) && (s[0] != '0' ==> n > 0)
    decreases |s|
  {
    var front, last := s[..|s| - 1], s[|s| - 1] as int - '0' as int;
    assert s == front + [s[|s| - 1]] && Digit(last) == s[|s| - 1];
    if front != [] {
      assert front[0] == s[0];
      var m := ReadDigits(front);
      DigitsAreNotNegative(front);
      NumeralIsDecimal(front, m);
      assert n / 10 == m && n % 10 == last;
    } else {
      assert ReadDigits(front) == 0;
    }
  }

  lemma {:induction false} DigitsAreNotNegative(s: string)
    requires forall i :: 0 <= i < |s| ==> '0' <= s[i] <= '9'
    ensures ReadDigits(s) >= 0
  {
    if s != [] {
      DigitsAreNotNegative(s[..|s| - 1]);
    }
  }

  /** A key that the builder makes up: the provider, a number sign, and a number. */
  ghost predicate IsMadeUp(key: Key, provider: Key, n: nat) {
    provider < key && key[|provider|] == '#' && IsNumeral(key[|provider| + 1..], n)
  }

  /** The candidates are exactly these keys, and are read back as keys of their provider. */
  lemma CandidateIsMadeUp(provider: Key, n: nat, key: Key)
    ensures key == Candidate(provider, n) <==> IsMadeUp(key, provider, n)
    ensures '#' !in provider && key == Candidate(provider, n) ==> Resolver.ParseResourceProvider(key) == provider
  {
    var candidate := Candidate(provider, n);
    assert candidate[|provider| + 1..] == Decimal(n);
    DecimalIsNumeral(n);
    if IsMadeUp(key, provider, n) {
      NumeralIsDecimal(key[|provider| + 1..], n);
      assert key == key[..|provider|] + [key[|provider|]] + key[|provider| + 1..];
    }
    if '#' !in provider {
      ProviderIsParsed(candidate, provider);
    }
  }

  lemma ProviderIsParsed(key: Key, provider: Key)
    requires provider < key && key[|provider|] == '#' && '#' !in provider
    ensures Resolver.ParseResourceProvider(key) == provider
  {
    var parsed := Resolver.ParseResourceProvider(key);
    assert parsed <= key && |parsed| >= |provider|;
    assert parsed[..|provider|] == provider;
  }

  /** Pigeonhole: a set that contains the first `n` candidates has at least `n` elements. */
  lemma {:induction false} CandidatesAreMany(used: set<Key>, provider: Key, n: nat)
    requires forall i: nat :: i < n ==> Candidate(provider, i) in used
    ensures n <= |used|
    decreases n
  {
    if n > 0 {
      var last := Candidate(provider, n - 1);
      forall i: nat | i < n - 1
        ensures Candidate(provider, i) in used - {last}
      {
        if Candidate(provider, i) == last {
          CandidatesDiffer(provider, i, n - 1);
        }
      }
      CandidatesAreMany(used - {last}, provider, n - 1);
    }
  }

  /** The first unused candidate from `i` on. */
  function FirstUnused(used: set<Key>, provider: Key, i: nat := 0): (r: nat)
    requires forall j: nat :: j < i ==> Candidate(provider, j) in used
    ensures i <= r <= |used| && Candidate(provider, r) !in used
    ensures forall j: nat :: j < r ==> Candidate(provider, j) in used
    decreases |used| - i
  {
    CandidatesAreMany(used, provider, i);
    if Candidate(provider, i) !in used then i
    else
      CandidatesAreMany(used, provider, i + 1);
      FirstUnused(used, provider, i + 1)
  }

  // ----- Assigning keys in order --------------------------------------------------------------------

  /** A registered resource: its own key, empty if it has none, and its order of registration. */
  datatype Entry = Entry(key: Key, provider: Key, shared: bool, id: nat)

  /** `ids` counts the uses of every identifier. */
  type Ids = map<Key, nat>

  predicate Covers(ids: Ids, entries: seq<Entry>) {
    forall i :: 0 <= i < |entries| && entries[i].key != "" ==> entries[i].key in ids
  }

  predicate KeepsOwnKey(ids: Ids, entry: Entry)
    requires entry.key != "" ==> entry.key in ids
  {
    entry.key != "" && ids[entry.key] == 1
  }

  function KeyFor(ids: Ids, entry: Entry): Key
    requires entry.key != "" ==> entry.key in ids
  {
    if KeepsOwnKey(ids, entry) then entry.key else Candidate(entry.provider, FirstUnused(ids.Keys, entry.provider))
  }

  function Reserve(ids: Ids, entry: Entry): Ids
    requires entry.key != "" ==> entry.key in ids
  {
    if KeepsOwnKey(ids, entry) then ids else ids[KeyFor(ids, entry) := 1]
  }

  ghost function Assign(ids: Ids, entries: seq<Entry>): (keys: seq<Key>)
    requires Covers(ids, entries)
    ensures |keys| == |entries|
    decreases entries
  {
    if entries == [] then []
    else [KeyFor(ids, entries[0])] + Assign(Reserve(ids, entries[0]), entries[1..])
  }

  /** Two entries with the same key make its count exceed one. */
  ghost predicate SharedKeysAreCounted(ids: Ids, entries: seq<Entry>)
    requires Covers(ids, entries)
  {
    forall i, j :: 0 <= i < j < |entries| && entries[i].key != "" && entries[i].key == entries[j].key ==>
      ids[entries[i].key] != 1
  }

  /** Every key is the entry's own, if nothing else uses it, and else was not used at all. */
  lemma {:induction false} AssignedKeysAreUnused(ids: Ids, entries: seq<Entry>, i: nat)
    requires Covers(ids, entries) && i < |entries|
    ensures var key := Assign(ids, entries)[i];
            if KeepsOwnKey(ids, entries[i]) then key == entries[i].key
            else key !in ids && exists n: nat :: key == Candidate(entries[i].provider, n)
    decreases entries
  {
    if i == 0 {
      assert KeyFor(ids, entries[0]) == Assign(ids, entries)[0];
    } else {
      var rest := Reserve(ids, entries[0]);
      assert entries[i] == entries[1..][i - 1];
      AssignedKeysAreUnused(rest, entries[1..], i - 1);
      assert Assign(ids, entries)[i] == Assign(rest, entries[1..])[i - 1];
    }
  }

  lemma {:induction false} AssignedKeysDiffer(ids: Ids, entries: seq<Entry>, i: nat, j: nat)
    requires Covers(ids, entries) && SharedKeysAreCounted(ids, entries) && i < j < |entries|
    ensures Assign(ids, entries)[i] != Assign(ids, entries)[j]
    decreases entries
  {
    var rest := Reserve(ids, entries[0]);
    assert entries[j] == entries[1..][j - 1];
    assert Assign(ids, entries)[j] == Assign(rest, entries[1..])[j - 1];
    if i == 0 {
      AssignedKeysAreUnused(rest, entries[1..], j - 1);
      assert KeyFor(ids, entries[0]) in rest;
    } else {
      assert entries[i] == entries[1..][i - 1];
      assert Assign(ids, entries)[i] == Assign(rest, entries[1..])[i - 1];
      AssignedKeysDiffer(rest, entries[1..], i - 1, j - 1);
    }
  }

  /** The `n`-th candidate is the first that no key of the table and no key assigned before uses. */
  ghost predicate IsFirstUnused(used: set<Key>, earlier: seq<Key>, provider: Key, key: Key, n: nat) {
    && key == Candidate(provider, n)
    && forall m: nat :: m < n ==> Candidate(provider, m) in used || Candidate(provider, m) in earlier
  }

  lemma {:induction false} AssignedIsFirst(ids: Ids, entries: seq<Entry>, i: nat) returns (n: nat)
    requires Covers(ids, entries) && i < |entries| && !KeepsOwnKey(ids, entries[i])
    ensures var keys := Assign(ids, entries); IsFirstUnused(ids.Keys, keys[..i], entries[i].provider, keys[i], n)
    decreases entries
  {
    var keys := Assign(ids, entries);
    if i == 0 {
      n := FirstUnused(ids.Keys, entries[0].provider);
    } else {
      var rest := Reserve(ids, entries[0]);
      assert entries[i] == entries[1..][i - 1];
      assert !KeepsOwnKey(rest, entries[i]);
      n := AssignedIsFirst(rest, entries[1..], i - 1);
      assert keys[..i] == [KeyFor(ids, entries[0])] + Assign(rest, entries[1..])[..i - 1];
    }
  }

  // ----- All registered resources -------------------------------------------------------------------

  /** Registered resources; a number stands for the address of a resource. */
  type Registry = map<nat, Entry>

  ghost predicate IdsDiffer(resources: Registry) {
    forall r: nat, s: nat :: r in resources && s in resources && resources[r].id == resources[s].id ==> r == s
  }

  /** The resources among `done` whose own key is `key`. */
  ghost function Users(resources: Registry, done: set<nat>, key: Key): set<nat> {
    set r | r in done && r in resources && resources[r].key == key && key != ""
  }

  /** `after` adds to `before` one use for each of these resources. */
  ghost predicate IsCounted(before: Ids, resources: Registry, done: set<nat>, after: Ids) {
    forall key :: CountsKey(before, resources, done, after, key)
  }

  ghost predicate CountsKey(before: Ids, resources: Registry, done: set<nat>, after: Ids, key: Key) {
    && (key in after <==> key in before || Users(resources, done, key) != {})
    && (key in after ==> after[key] == (if key in before then before[key] else 0) + |Users(resources, done, key)|)
  }

  lemma CountIsUnique(before: Ids, resources: Registry, done: set<nat>, a: Ids, b: Ids)
    requires IsCounted(before, resources, done, a) && IsCounted(before, resources, done, b)
    ensures a == b
  {
    forall key
      ensures key in a <==> key in b
      ensures key in a ==> a[key] == b[key]
    {
      assert CountsKey(before, resources, done, a, key) && CountsKey(before, resources, done, b, key);
    }
  }

  function Increment(ids: Ids, key: Key): Ids {
    ids[key := if key in ids then ids[key] + 1 else 1]
  }

  lemma OneMoreUser(resources: Registry, done: set<nat>, r: nat, key: Key)
    requires r in resources && r !in done
    ensures Users(resources, done + {r}, key) ==
            if key != "" && key == resources[r].key then Users(resources, done, key) + {r}
            else Users(resources, done, key)
    ensures |Users(resources, done + {r}, key)| ==
            |Users(resources, done, key)| + if key != "" && key == resources[r].key then 1 else 0
  {
    assert Users(resources, done + {r}, key) ==
           if key != "" && key == resources[r].key then Users(resources, done, key) + {r}
           else Users(resources, done, key);
  }

  lemma CountOneMore(before: Ids, resources: Registry, done: set<nat>, r: nat, ids: Ids)
    requires IsCounted(before, resources, done, ids) && r in resources && r !in done
    ensures var key := resources[r].key;
            IsCounted(before, resources, done + {r}, if key != "" then Increment(ids, key) else ids)
  {
    var key := resources[r].key;
    var after := if key != "" then Increment(ids, key) else ids;
    forall k: Key
      ensures CountsKey(before, resources, done + {r}, after, k)
    {
      OneMoreUser(resources, done, r, k);
      assert CountsKey(before, resources, done, ids, k);
    }
  }

  /** Lists exactly the shared resources, in the order of their registration. */
  ghost predicate IsOrder(resources: Registry, order: seq<nat>) {
    && (forall r :: r in order <==> r in resources && resources[r].shared)
    && IsSorted(resources, order)
  }

  ghost predicate IsSorted(resources: Registry, order: seq<nat>) {
    && (forall i :: 0 <= i < |order| ==> order[i] in resources)
    && (forall i, j :: 0 <= i < j < |order| ==> resources[order[i]].id < resources[order[j]].id)
  }

  lemma {:induction false} SortedIsUnique(resources: Registry, a: seq<nat>, b: seq<nat>)
    requires IsSorted(resources, a) && IsSorted(resources, b)
    requires forall r :: r in a <==> r in b
    ensures a == b
    decreases |a|
  {
    if a == [] {
      if b != [] {
        HasElement(b);
      }
    } else {
      assert a[0] in b && b != [];
      assert b[0] in a;
      var i :| 0 <= i < |a| && a[i] == b[0];
      var j :| 0 <= j < |b| && b[j] == a[0];
      assert i == 0 && j == 0;
      forall r
        ensures r in a[1..] <==> r in b[1..]
      {
        WithoutFirst(resources, a, r);
        WithoutFirst(resources, b, r);
      }
      SortedIsUnique(resources, a[1..], b[1..]);
      assert a == [a[0]] + a[1..] && b == [b[0]] + b[1..];
    }
  }

  lemma HasElement(a: seq<nat>)
    requires a != []
    ensures exists r :: r in a
  {
    assert a[0] in a;
  }

  lemma WithoutFirst(resources: Registry, a: seq<nat>, r: nat)
    requires IsSorted(resources, a) && a != []
    ensures r in a[1..] <==> r in a && r != a[0]
  {
    assert a == [a[0]] + a[1..];
  }

  /** So the order does not depend on how the hash table is iterated. */
  lemma OrderIsUnique(resources: Registry, a: seq<nat>, b: seq<nat>)
    requires IsOrder(resources, a) && IsOrder(resources, b)
    ensures a == b
  {
    SortedIsUnique(resources, a, b);
  }

  ghost function EntriesOf(resources: Registry, order: seq<nat>): (r: seq<Entry>)
    requires forall i :: 0 <= i < |order| ==> order[i] in resources
    ensures |r| == |order| && forall i :: 0 <= i < |order| ==> r[i] == resources[order[i]]
  {
    seq(|order|, i requires 0 <= i < |order| => resources[order[i]])
  }

  lemma CountedCovers(before: Ids, resources: Registry, order: seq<nat>, ids: Ids)
    requires IsCounted(before, resources, resources.Keys, ids) && IsSorted(resources, order)
    ensures Covers(ids, EntriesOf(resources, order))
  {
    var entries := EntriesOf(resources, order);
    forall i | 0 <= i < |entries| && entries[i].key != ""
      ensures entries[i].key in ids
    {
      assert order[i] in Users(resources, resources.Keys, entries[i].key);
      assert CountsKey(before, resources, resources.Keys, ids, entries[i].key);
    }
  }

  lemma TwoUsers(resources: Registry, key: Key, r: nat, s: nat)
    requires r in resources && s in resources && r != s && resources[r].key == resources[s].key == key && key != ""
    ensures |Users(resources, resources.Keys, key)| >= 2
  {
    var users := Users(resources, resources.Keys, key);
    assert {r, s} <= users;
    assert |users| == |{r, s}| + |users - {r, s}|;
  }

  lemma OneUser(resources: Registry, key: Key, r: nat)
    requires r in resources && resources[r].key == key && key != ""
    requires forall s: nat :: s in resources && s != r ==> resources[s].key != key
    ensures |Users(resources, resources.Keys, key)| == 1
  {
    assert Users(resources, resources.Keys, key) == {r};
  }

  lemma CountsShowSharing(before: Ids, resources: Registry, order: seq<nat>, ids: Ids)
    requires IsCounted(before, resources, resources.Keys, ids) && IsOrder(resources, order)
    requires Covers(ids, EntriesOf(resources, order))
    ensures SharedKeysAreCounted(ids, EntriesOf(resources, order))
  {
    var entries := EntriesOf(resources, order);
    forall i, j | 0 <= i < j < |entries| && entries[i].key != "" && entries[i].key == entries[j].key
      ensures ids[entries[i].key] != 1
    {
      TwoUsers(resources, entries[i].key, order[i], order[j]);
      assert CountsKey(before, resources, resources.Keys, ids, entries[i].key);
    }
  }

  ghost predicate IsOwnAndUnused(before: Ids, resources: Registry, r: nat)
    requires r in resources
  {
    var key := resources[r].key;
    key != "" && key !in before && forall s: nat :: s in resources && s != r ==> resources[s].key != key
  }

  lemma OwnKeyIsKept(before: Ids, resources: Registry, ids: Ids, r: nat)
    requires IsCounted(before, resources, resources.Keys, ids) && r in resources
    requires forall key :: key in before ==> before[key] >= 1
    requires resources[r].key != "" ==> resources[r].key in ids
    ensures KeepsOwnKey(ids, resources[r]) <==> IsOwnAndUnused(before, resources, r)
  {
    var key := resources[r].key;
    if key != "" {
      assert r in Users(resources, resources.Keys, key);
      assert CountsKey(before, resources, resources.Keys, ids, key);
      if s: nat :| s in resources && s != r && resources[s].key == key {
        TwoUsers(resources, key, r, s);
      } else {
        OneUser(resources, key, r);
      }
    }
  }

  lemma OwnKeysAreNotInRoot(before: Ids, resources: Registry, order: seq<nat>, ids: Ids)
    requires IsCounted(before, resources, resources.Keys, ids) && IsSorted(resources, order)
    requires forall key :: key in before ==> before[key] >= 1
    requires Covers(ids, EntriesOf(resources, order))
    ensures var entries := EntriesOf(resources, order);
            forall i :: 0 <= i < |entries| && KeepsOwnKey(ids, entries[i]) ==> entries[i].key !in before
    ensures forall key :: key in before ==> key in ids
  {
    forall i | 0 <= i < |order|
      ensures KeepsOwnKey(ids, resources[order[i]]) <==> IsOwnAndUnused(before, resources, order[i])
    {
      assert EntriesOf(resources, order)[i] == resources[order[i]];
      OwnKeyIsKept(before, resources, ids, order[i]);
    }
    forall key | key in before
      ensures key in ids
    {
      assert CountsKey(before, resources, resources.Keys, ids, key);
    }
  }

  /** Every shared resource gets a key that was not reserved before and that no other resource has,
      neither as its own nor as its new key; it is its own key whenever that is possible. */
  lemma SharedKeysAreUnique(before: Ids, resources: Registry, order: seq<nat>, ids: Ids, i: nat)
    requires IsCounted(before, resources, resources.Keys, ids) && IsOrder(resources, order) && i < |order|
    requires forall key :: key in before ==> before[key] >= 1
    requires Covers(ids, EntriesOf(resources, order))
    ensures var keys := Assign(ids, EntriesOf(resources, order));
            && keys[i] !in before && keys[i] != ""
            && (forall j :: 0 <= j < |order| && j != i ==> keys[j] != keys[i])
            && (forall s: nat :: s in resources && s != order[i] ==> resources[s].key != keys[i])
            && (IsOwnAndUnused(before, resources, order[i]) <==> keys[i] == resources[order[i]].key)
  {
    var entries := EntriesOf(resources, order);
    var keys := Assign(ids, entries);
    AssignedKeysAreUnused(ids, entries, i);
    assert CountsKey(before, resources, resources.Keys, ids, keys[i]);
    OwnKeyIsKept(before, resources, ids, order[i]);
    CountsShowSharing(before, resources, order, ids);
    forall j | 0 <= j < |order| && j != i
      ensures keys[j] != keys[i]
    {
      if i < j {
        AssignedKeysDiffer(ids, entries, i, j);
      } else {
        AssignedKeysDiffer(ids, entries, j, i);
      }
    }
    forall s: nat | s in resources && resources[s].key != ""
      ensures resources[s].key in ids
    {
      assert s in Users(resources, resources.Keys, resources[s].key);
      assert CountsKey(before, resources, resources.Keys, ids, resources[s].key);
    }
  }

  /** The key is reserved, or a resource has it as its own key, or it has been assigned before. */
  ghost predicate IsUsed(before: Ids, resources: Registry, earlier: seq<Key>, key: Key) {
    key in before || (exists s: nat :: s in resources && resources[s].key == key) || key in earlier
  }

  /** A resource that cannot keep its own key gets its provider with a number sign and the least number
      that makes it unused. */
  lemma MadeUpKeyIsFirst(before: Ids, resources: Registry, order: seq<nat>, ids: Ids, i: nat) returns (n: nat)
    requires IsCounted(before, resources, resources.Keys, ids) && IsOrder(resources, order) && i < |order|
    requires forall key :: key in before ==> before[key] >= 1
    requires Covers(ids, EntriesOf(resources, order)) && !IsOwnAndUnused(before, resources, order[i])
    ensures var keys := Assign(ids, EntriesOf(resources, order));
            var provider := resources[order[i]].provider;
            && IsMadeUp(keys[i], provider, n)
            && (forall m: nat, key :: m < n && IsMadeUp(key, provider, m) ==> IsUsed(before, resources, keys[..i], key))
  {
    var entries := EntriesOf(resources, order);
    var keys, provider := Assign(ids, entries), resources[order[i]].provider;
    OwnKeyIsKept(before, resources, ids, order[i]);
    n := AssignedIsFirst(ids, entries, i);
    CandidateIsMadeUp(provider, n, keys[i]);
    forall m: nat, key | m < n && IsMadeUp(key, provider, m)
      ensures IsUsed(before, resources, keys[..i], key)
    {
      CandidateIsMadeUp(provider, m, key);
      assert CountsKey(before, resources, resources.Keys, ids, key);
      if key in ids && key !in before {
        var s :| s in Users(resources, resources.Keys, key);
      }
    }
  }

  // ----- The builder --------------------------------------------------------------------------------

  /** The root spec keeps what it has; the shared resources are added under their keys. */
  ghost predicate IsPublished(before: map<Key, nat>, keys: seq<Key>, order: seq<nat>, after: map<Key, nat>)
    requires |keys| == |order|
  {
    && (forall key :: key in before ==> key in after && after[key] == before[key])
    && (forall i :: 0 <= i < |keys| ==> keys[i] in after && after[keys[i]] == order[i])
    && (forall key :: key in after ==> key in before || key in keys)
  }

  function InsertAt(s: seq<nat>, k: nat, x: nat): (r: seq<nat>)
    requires k <= |s|
    ensures forall y :: y in r <==> y in s || y == x
  {
    assert s == s[..k] + s[k..];
    s[..k] + [x] + s[k..]
  }

  lemma InsertKeepsSorted(resources: Registry, s: seq<nat>, k: nat, x: nat)
    requires IsSorted(resources, s) && IdsDiffer(resources) && x in resources && x !in s && k <= |s|
    requires k > 0 ==> resources[s[k - 1]].id <= resources[x].id
    requires forall j :: k <= j < |s| ==> resources[s[j]].id > resources[x].id
    ensures IsSorted(resources, InsertAt(s, k, x))
  {
    forall j | 0 <= j < k
      ensures resources[s[j]].id < resources[x].id
    {
      assert s[k - 1] != x;
    }
  }

  /** What the remaining entries need while keys are being published one by one. */
  ghost predicate CanPublish(ids: Ids, root: map<Key, nat>, entries: seq<Entry>) {
    && Covers(ids, entries) && SharedKeysAreCounted(ids, entries)
    && (forall key :: key in root ==> key in ids)
    && (forall i :: 0 <= i < |entries| && KeepsOwnKey(ids, entries[i]) ==> entries[i].key !in root)
  }

  lemma PublishOne(ids: Ids, root: map<Key, nat>, entries: seq<Entry>, r: nat)
    requires entries != [] && CanPublish(ids, root, entries)
    ensures var key := KeyFor(ids, entries[0]);
            key !in root && CanPublish(Reserve(ids, entries[0]), root[key := r], entries[1..])
  {
    var key, after, rest := KeyFor(ids, entries[0]), Reserve(ids, entries[0]), entries[1..];
    forall i | 0 <= i < |rest| && rest[i].key != ""
      ensures rest[i].key in ids && after[rest[i].key] == ids[rest[i].key]
    {
      assert rest[i] == entries[i + 1];
    }
    forall i | 0 <= i < |rest| && KeepsOwnKey(after, rest[i])
      ensures rest[i].key !in root[key := r]
    {
      assert rest[i] == entries[i + 1];
    }
    forall i, j | 0 <= i < j < |rest| && rest[i].key != "" && rest[i].key == rest[j].key
      ensures after[rest[i].key] != 1
    {
      assert rest[i] == entries[i + 1] && rest[j] == entries[j + 1];
    }
  }

  lemma FirstOfRest(entries: seq<Entry>, order: seq<nat>, i: nat)
    requires i < |entries| == |order|
    ensures entries[i..][0] == entries[i] && entries[i..][1..] == entries[i + 1..]
    ensures order[i..][0] == order[i] && order[i..][1..] == order[i + 1..]
  {
  }

  ghost function Published(ids: Ids, root: map<Key, nat>, entries: seq<Entry>, order: seq<nat>): map<Key, nat>
    requires |entries| == |order| && Covers(ids, entries)
    decreases entries
  {
    if entries == [] then root
    else Published(Reserve(ids, entries[0]), root[KeyFor(ids, entries[0]) := order[0]], entries[1..], order[1..])
  }

  /** Nothing that is already in the root is overwritten. */
  lemma {:induction false} PublishedIsPublished(ids: Ids, root: map<Key, nat>, entries: seq<Entry>, order: seq<nat>)
    requires |entries| == |order| && CanPublish(ids, root, entries)
    ensures IsPublished(root, Assign(ids, entries), order, Published(ids, root, entries, order))
    decreases entries
  {
    if entries != [] {
      PublishOne(ids, root, entries, order[0]);
      var key := KeyFor(ids, entries[0]);
      PublishedIsPublished(Reserve(ids, entries[0]), root[key := order[0]], entries[1..], order[1..]);
    }
  }

  lemma CanPublishAll(before: Ids, root: map<Key, nat>, resources: Registry, order: seq<nat>, ids: Ids)
    requires IsCounted(before, resources, resources.Keys, ids) && IsOrder(resources, order)
    requires forall key :: key in before ==> before[key] >= 1
    requires forall key :: key in root ==> key in before
    ensures CanPublish(ids, root, EntriesOf(resources, order))
  {
    CountedCovers(before, resources, order, ids);
    CountsShowSharing(before, resources, order, ids);
    OwnKeysAreNotInRoot(before, resources, order, ids);
  }

  /** `after` counts one more use of each key, and of each referent as often as it occurs. */
  ghost predicate AddsUses(before: Ids, keys: set<Key>, referents: seq<Key>, after: Ids) {
    forall key :: AddsUsesOf(before, keys, referents, after, key)
  }

  ghost predicate AddsUsesOf(before: Ids, keys: set<Key>, referents: seq<Key>, after: Ids, key: Key) {
    var uses := (if key in keys then 1 else 0) + multiset(referents)[key];
    && (key in after <==> key in before || uses > 0)
    && (key in after ==> after[key] == (if key in before then before[key] else 0) + uses)
  }

  lemma OneMoreKey(before: Ids, keys: set<Key>, after: Ids, key: Key)
    requires AddsUses(before, keys, [], after) && key !in keys
    ensures AddsUses(before, keys + {key}, [], Increment(after, key))
  {
    forall k
      ensures AddsUsesOf(before, keys + {key}, [], Increment(after, key), k)
    {
      assert AddsUsesOf(before, keys, [], after, k);
    }
  }

  lemma OneMoreReferent(before: Ids, keys: set<Key>, referents: seq<Key>, i: nat, after: Ids)
    requires i < |referents| && AddsUses(before, keys, referents[..i], after)
    ensures AddsUses(before, keys, referents[..i + 1], Increment(after, referents[i]))
  {
    var longer, counted := referents[..i + 1], Increment(after, referents[i]);
    assert longer == referents[..i] + [referents[i]];
    forall k
      ensures AddsUsesOf(before, keys, longer, counted, k)
    {
      assert AddsUsesOf(before, keys, referents[..i], after, k);
    }
  }

  class BuilderImpl {
    var ids: Ids
    var resources: Registry
    var nextId: nat
    var root: map<Key, nat>

    /** Root keys are reserved, and registered resources have distinct numbers. */
    ghost predicate Valid()
      reads this
    {
      && (forall key :: key in ids ==> ids[key] >= 1)
      && (forall key :: key in root ==> key in ids)
      && (forall r :: r in resources ==> resources[r].id < nextId)
      && IdsDiffer(resources)
    }

    constructor ()
      ensures Valid() && ids == map[] && resources == map[] && root == map[]
    {
      ids, resources, nextId, root := map[], map[], 0, map[];
    }

    /** Marks an identifier of an existing spec, or the referent of a reference, as used. */
    method MarkUsed(key: Key)
      requires Valid()
      modifies this`ids
      ensures Valid() && ids == Increment(old(ids), key)
    {
      ids := Increment(ids, key);
    }

    /** `ContextSpecBuilder::Make`: the keys of an existing spec, and the referents of the references
        in it, are reserved; the spec of a new builder becomes its root. */
    method Make(existing: map<Key, nat>, referents: seq<Key>, isNew: bool)
      requires Valid() && (isNew ==> root == map[])
      modifies this`ids, this`root
      ensures Valid() && root == if isNew then existing else old(root)
      ensures AddsUses(old(ids), existing.Keys, referents, ids)
    {
      var todo := existing.Keys;
      assert forall key :: AddsUsesOf(ids, {}, [], ids, key);
      while todo != {}
        invariant todo <= existing.Keys && Valid() && root == old(root)
        invariant AddsUses(old(ids), existing.Keys - todo, [], ids)
        decreases |todo|
      {
        var key :| key in todo;
        OneMoreKey(old(ids), existing.Keys - todo, ids, key);
        assert existing.Keys - (todo - {key}) == existing.Keys - todo + {key};
        MarkUsed(key);
        todo := todo - {key};
      }
      assert existing.Keys - {} == existing.Keys;
      for i := 0 to |referents|
        invariant Valid() && root == old(root)
        invariant AddsUses(old(ids), existing.Keys, referents[..i], ids)
      {
        OneMoreReferent(old(ids), existing.Keys, referents, i, ids);
        MarkUsed(referents[i]);
      }
      assert referents[..|referents|] == referents;
      if isNew {
        assert forall key :: key in existing ==> AddsUsesOf(old(ids), existing.Keys, referents, ids, key);
        root := existing;
      }
    }

    /** Registers a resource; one that is registered again becomes shared. */
    method AddResource(r: nat, key: Key, provider: Key, isDefault: bool)
      requires Valid() && (r in resources ==> resources[r].key == key && resources[r].provider == provider)
      modifies this`resources, this`nextId
      ensures Valid() && r in resources && resources.Keys == old(resources.Keys) + {r}
      ensures forall s: nat :: s in old(resources) && s != r ==> resources[s] == old(resources)[s]
      ensures resources[r].key == key && resources[r].provider == provider
      ensures resources[r].shared <==> r in old(resources) || isDefault || key != ""
      ensures r in old(resources) ==> resources[r].id == old(resources)[r].id
    {
      if r in resources {
        resources := resources[r := resources[r].(shared := true)];
      } else {
        resources := resources[r := Entry(key, provider, isDefault || key != "", nextId)];
        nextId := nextId + 1;
      }
    }

    /** Tries `<provider>#0`, `<provider>#1` and so on. */
    method FindUnusedKey(provider: Key) returns (key: Key)
      ensures key == Candidate(provider, FirstUnused(ids.Keys, provider))
    {
      var i := 0;
      key := Candidate(provider, i);
      while key in ids
        invariant key == Candidate(provider, i)
        invariant forall j: nat :: j < i ==> Candidate(provider, j) in ids.Keys
        invariant i <= |ids.Keys|
        decreases |ids.Keys| - i
      {
        CandidatesAreMany(ids.Keys, provider, i + 1);
        i := i + 1;
        key := Candidate(provider, i);
      }
      ghost var first := FirstUnused(ids.Keys, provider);
      assert !(first < i) && !(i < first);
    }

    /** `std::sort` by the number of registration, on the shared resources that were collected. */
    method SortByRegistration(collected: seq<nat>) returns (order: seq<nat>)
      requires IdsDiffer(resources) && forall i :: 0 <= i < |collected| ==> collected[i] in resources
      requires forall i, j :: 0 <= i < j < |collected| ==> collected[i] != collected[j]
      ensures IsSorted(resources, order) && forall r :: r in order <==> r in collected
    {
      order := [];
      for n := 0 to |collected|
        invariant IsSorted(resources, order) && forall r :: r in order <==> r in collected[..n]
      {
        var r := collected[n];
        var k := |order|;
        while k > 0 && resources[order[k - 1]].id > resources[r].id
          invariant 0 <= k <= |order|
          invariant forall j :: k <= j < |order| ==> resources[order[j]].id > resources[r].id
        {
          k := k - 1;
        }
        assert r !in order by {
          assert forall m :: 0 <= m < n ==> collected[m] != r;
        }
        InsertKeepsSorted(resources, order, k, r);
        order := InsertAt(order, k, r);
        assert collected[..n + 1] == collected[..n] + [r];
      }
      assert collected[..|collected|] == collected;
    }

    /** Inserts the resources one by one; an insertion under an existing key would be ignored. */
    method Publish(order: seq<nat>)
      requires IsSorted(resources, order) && CanPublish(ids, root, EntriesOf(resources, order))
      modifies this`ids, this`root
      ensures root == Published(old(ids), old(root), EntriesOf(resources, order), order)
    {
      ghost var entries := EntriesOf(resources, order);
      for i := 0 to |order|
        invariant CanPublish(ids, root, entries[i..])
        invariant Published(ids, root, entries[i..], order[i..]) == Published(old(ids), old(root), entries, order)
      {
        var entry := resources[order[i]];
        FirstOfRest(entries, order, i);
        ghost var before := ids;
        PublishOne(ids, root, entries[i..], order[i]);
        var key := entry.key;
        if key == "" || ids[key] != 1 {
          key := FindUnusedKey(entry.provider);
          ids := Increment(ids, key);
        }
        assert key == KeyFor(before, entry) && ids == Reserve(before, entry);
        if key !in root {
          root := root[key := order[i]];
        }
      }
    }

    /** Counts the keys of all registered resources and collects the shared ones, in any order. */
    method CountAndCollect() returns (collected: seq<nat>)
      modifies this`ids
      ensures IsCounted(old(ids), resources, resources.Keys, ids)
      ensures forall r :: r in collected <==> r in resources.Keys && resources[r].shared
      ensures forall i, j :: 0 <= i < j < |collected| ==> collected[i] != collected[j]
    {
      var todo := resources.Keys;
      collected := [];
      while todo != {}
        invariant todo <= resources.Keys
        invariant IsCounted(old(ids), resources, resources.Keys - todo, ids)
        invariant forall r :: r in collected <==> r in resources.Keys - todo && resources[r].shared
        invariant forall i, j :: 0 <= i < j < |collected| ==> collected[i] != collected[j]
        decreases |todo|
      {
        var r :| r in todo;
        CountOneMore(old(ids), resources, resources.Keys - todo, r, ids);
        assert resources.Keys - (todo - {r}) == resources.Keys - todo + {r};
        if resources[r].key != "" {
          ids := Increment(ids, resources[r].key);
        }
        if resources[r].shared {
          collected := collected + [r];
        }
        todo := todo - {r};
      }
      assert resources.Keys - {} == resources.Keys;
    }

    /** The destructor: publishes the shared resources in the root spec. */
    method Destroy()
      requires Valid()
      modifies this`ids, this`root
      ensures exists order: seq<nat>, counted: Ids ::
        IsOrder(resources, order) && IsCounted(old(ids), resources, resources.Keys, counted)
      ensures forall order: seq<nat>, counted: Ids ::
        IsOrder(resources, order) && IsCounted(old(ids), resources, resources.Keys, counted) ==>
          && Covers(counted, EntriesOf(resources, order))
          && IsPublished(old(root), Assign(counted, EntriesOf(resources, order)), order, root)
    {
      var collected := CountAndCollect();
      var sorted := SortByRegistration(collected);
      ghost var counts := ids;
      CanPublishAll(old(ids), root, resources, sorted, counts);
      PublishedIsPublished(counts, root, EntriesOf(resources, sorted), sorted);
      Publish(sorted);
      assert IsOrder(resources, sorted) && IsCounted(old(ids), resources, resources.Keys, counts);
      forall order: seq<nat>, counted: Ids |
        IsOrder(resources, order) && IsCounted(old(ids), resources, resources.Keys, counted)
        ensures order == sorted && counted == counts
      {
        OrderIsUnique(resources, order, sorted);
        CountIsUnique(old(ids), resources, resources.Keys, counted, counts);
      }
    }
  }
}
