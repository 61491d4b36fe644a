/** State kept for each execution: a table by executor, and a bounded least-recently-used table for
    executions without one. */
module ExecutionTable {
  import opened Options
  import opened Sequences

  // ------------------------------------------------------------------ most recent first out

  function Without<K(==)>(s: seq<K>, k: K): seq<K> {
    if s == [] then [] else if s[0] == k then Without(s[1..], k) else [s[0]] + Without(s[1..], k)
  }

  /** The distinct keys of a history, least recently used first. */
  function Recency<K(==)>(history: seq<K>): seq<K> {
    if history == [] then [] else Without(Recency(Init(history)), Last(history)) + [Last(history)]
  }

  function LastOnes<K>(s: seq<K>, n: nat): seq<K> {
    if |s| <= n then s else s[|s| - n..]
  }

  /** Using a key in a table that keeps the `size` last keys used. */
  function Used<K(==)>(keys: seq<K>, size: nat, k: K): seq<K> {
    if k in keys then Without(keys, k) + [k] else LastOnes(keys + [k], size)
  }

  lemma {:induction false} WithoutMembers<K>(s: seq<K>, k: K)
    ensures forall x :: x in Without(s, k) <==> x in s && x != k
    ensures k !in s ==> Without(s, k) == s
    ensures Distinct(s) ==> Distinct(Without(s, k)) && |Without(s, k)| == |s| - if k in s then 1 else 0
  {
    if s != [] {
      WithoutMembers(s[1..], k);
      assert s == [s[0]] + s[1..];
      if Distinct(s) {
        assert s[0] !in s[1..] by { assert forall j :: 1 <= j < |s| ==> s[j] != s[0]; }
      }
    }
  }

  lemma {:induction false} WithoutJoins<K>(a: seq<K>, b: seq<K>, k: K)
    ensures Without(a + b, k) == Without(a, k) + Without(b, k)
    decreases |a|
  {
    if a == [] {
      assert a + b == b;
    } else {
      assert (a + b)[1..] == a[1..] + b;
      WithoutJoins(a[1..], b, k);
    }
  }

  lemma {:induction false} RecencyDistinct<K>(history: seq<K>)
    ensures Distinct(Recency(history))
    ensures forall k :: k in Recency(history) <==> k in history
    decreases |history|
  {
    if history != [] {
      RecencyDistinct(Init(history));
      WithoutMembers(Recency(Init(history)), Last(history));
      assert history == Init(history) + [Last(history)];
    }
  }

  lemma LastOfJoined<K>(a: seq<K>, b: seq<K>, n: nat)
    requires |b| >= n || a == []
    ensures LastOnes(a + b, n) == LastOnes(b, n)
  {
    if a == [] {
      assert a + b == b;
    } else {
      assert |a + b| > n || n == 0 || |b| >= n;
      assert (a + b)[|a + b| - n..] == b[|b| - n..];
    }
  }

  /** Keeping the last keys step by step keeps the last keys of the whole history. */
  lemma UsedKeepsLast<K>(all: seq<K>, size: nat, k: K)
    requires Distinct(all) && size > 0
    ensures Used(LastOnes(all, size), size, k) == LastOnes(Without(all, k) + [k], size)
  {
    var kept := LastOnes(all, size);
    var dropped := all[..|all| - |kept|];
    assert all == dropped + kept;
    KeptUse(dropped, kept, size, k);
  }

  lemma KeptUse<K>(dropped: seq<K>, kept: seq<K>, size: nat, k: K)
    requires Distinct(dropped + kept) && size > 0
    requires |kept| == size || (dropped == [] && |kept| < size)
    ensures Used(kept, size, k) == LastOnes(Without(dropped + kept, k) + [k], size)
  {
    hide Without;
    PartsDistinct(dropped, kept);
    WithoutJoins(dropped, kept, k);
    WithoutMembers(dropped, k);
    WithoutMembers(kept, k);
    var after := Without(kept, k) + [k];
    assert Without(dropped, k) + Without(kept, k) + [k] == Without(dropped, k) + after;
    if k in kept {
      SplitApart(dropped, kept, k);
      assert |after| == |kept|;
    }
    if dropped == [] { assert Without(dropped, k) == []; }
    LastOfJoined(Without(dropped, k), after, size);
  }

  lemma PartsDistinct<K>(a: seq<K>, b: seq<K>)
    requires Distinct(a + b)
    ensures Distinct(b)
  {
    forall i, j | 0 <= i < j < |b| ensures b[i] != b[j] {
      assert (a + b)[|a| + i] == b[i] && (a + b)[|a| + j] == b[j];
    }
  }

  lemma SplitApart<K>(a: seq<K>, b: seq<K>, k: K)
    requires Distinct(a + b) && k in b
    ensures k !in a
  {
    var j :| 0 <= j < |b| && b[j] == k;
    assert (a + b)[|a| + j] == k;
    assert forall i :: 0 <= i < |a| ==> (a + b)[i] == a[i];
  }

  // ----------------------------------------------------------------------- the two tables

  /** Two addresses: those of the variable values and of the root value. */
  datatype Key = Key(variables: int, root: int)

  /** What identifies an execution: its executor, if it has a usable one, with the root response path of
      the current event for a subscription; else the variable values and the root value themselves. */
  datatype Info<E, P, O> = Info(executor: Option<E>, event: Option<P>, variables: O, root: O)

  datatype Entry<P> = Entry(event: Option<P>, state: nat)

  datatype Slot<O> = Slot(variables: O, root: O, state: nat)

  /** `order` lists the keys of `slots`, the least recently used first; states are numbered as created. */
  datatype Tables<!E, P, O> = Tables(byExecutor: map<E, Entry<P>>, order: seq<Key>, slots: map<Key, Slot<O>>,
      created: nat)

  function KeyOf<E, P, O>(address: O -> int, info: Info<E, P, O>): Key {
    Key(address(info.variables), address(info.root))
  }

  predicate Matches<E, P, O(==)>(slot: Slot<O>, info: Info<E, P, O>) {
    slot.variables == info.variables && slot.root == info.root
  }

  function Restricted<O>(slots: map<Key, Slot<O>>, order: seq<Key>): map<Key, Slot<O>> {
    map k <- slots | k in order :: slots[k]
  }

  /** Fetching the state of an execution, for tables of some size above zero. */
  function Fetched<E(==), P(==), O(==)>(t: Tables<E, P, O>, size: nat, address: O -> int,
      info: Info<E, P, O>): (Tables<E, P, O>, nat)
  {
    match info.executor
    case Some(e) =>
      (if e in t.byExecutor && t.byExecutor[e].event == info.event then (t, t.byExecutor[e].state)
       else (t.(byExecutor := t.byExecutor[e := Entry(info.event, t.created)], created := t.created + 1), t.created))
    case None =>
      var k := KeyOf(address, info);
      var order := Used(t.order, size, k);
      if k in t.slots && Matches(t.slots[k], info) then (t.(order := order), t.slots[k].state)
      else (t.(order := order, slots := Restricted(t.slots[k := Slot(info.variables, info.root, t.created)], order),
          created := t.created + 1),
            t.created)
  }

  /** An execution's state is fetched, or the execution ends and its executor's entry dies with it. */
  datatype Step<E, P, O> = Fetch(info: Info<E, P, O>) | End(executor: E)

  function After<E(==), P(==), O(==)>(t: Tables<E, P, O>, size: nat, address: O -> int,
      step: Step<E, P, O>): Tables<E, P, O>
  {
    match step
    case Fetch(info) => Fetched(t, size, address, info).0
    case End(e) => t.(byExecutor := t.byExecutor - {e})
  }

  function Run<E(==), P(==), O(==)>(size: nat, address: O -> int, steps: seq<Step<E, P, O>>): Tables<E, P, O> {
    if steps == [] then Tables(map[], [], map[], 0)
    else After(Run(size, address, Init(steps)), size, address, Last(steps))
  }

  /** The keys fetched from the bounded table. */
  function KeysFetched<E, P, O>(address: O -> int, steps: seq<Step<E, P, O>>): seq<Key> {
    if steps == [] then []
    else KeysFetched(address, Init(steps)) +
         if Last(steps).Fetch? && Last(steps).info.executor.None? then [KeyOf(address, Last(steps).info)] else []
  }

  // ------------------------------------------------------------------------ bounded by recency

  ghost predicate Consistent<E, P, O>(t: Tables<E, P, O>) {
    Distinct(t.order) && Elements(t.order) == t.slots.Keys
  }

  lemma UsedMembers(keys: seq<Key>, size: nat, k: Key)
    requires Distinct(keys) && size > 0
    ensures Distinct(Used(keys, size, k)) && k in Used(keys, size, k)
    ensures forall x :: x in Used(keys, size, k) ==> x == k || x in keys
    ensures |keys| <= size ==> |Used(keys, size, k)| <= size
    ensures k in keys ==> forall x :: x in keys ==> x in Used(keys, size, k)
  {
    WithoutMembers(keys, k);
    assert (keys + [k])[|keys|] == k;
  }

  lemma FetchStaysConsistent<E, P, O>(t: Tables<E, P, O>, size: nat, address: O -> int, info: Info<E, P, O>)
    requires Consistent(t) && size > 0
    ensures Consistent(Fetched(t, size, address, info).0)
  {
    hide Used, Matches, KeyOf;
    if info.executor.None? {
      var k := KeyOf(address, info);
      UsedMembers(t.order, size, k);
      assert forall x :: x in t.order <==> x in t.slots;
      if k in t.slots { assert k in t.order; }
    }
  }

  /** However executions are interleaved, the bounded table holds exactly the keys fetched last, in the
      order of their last use, and never more than its size. */
  lemma {:induction false} TableIsRecency<E, P, O>(size: nat, address: O -> int, steps: seq<Step<E, P, O>>)
    requires size > 0
    ensures var t := Run(size, address, steps);
            t.order == LastOnes(Recency(KeysFetched(address, steps)), size) && |t.order| <= size && Consistent(t)
    decreases |steps|
  {
    hide Used, KeyOf, LastOnes, Matches;
    if steps == [] {
      assert LastOnes<Key>([], size) == [] by { NothingUsed(size); }
    } else {
      var before := Init(steps);
      TableIsRecency(size, address, before);
      match Last(steps)
      case End(e) => assert KeysFetched(address, steps) == KeysFetched(address, before);
      case Fetch(info) =>
        FetchStaysConsistent(Run(size, address, before), size, address, info);
        if info.executor.None? {
          FetchUsesKey(Run(size, address, before), size, address, info);
          var keys := KeysFetched(address, before);
          RecencyDistinct(keys);
          UsedKeepsLast(Recency(keys), size, KeyOf(address, info));
          InitLast(keys, KeyOf(address, info));
          UsedMembers(Run(size, address, before).order, size, KeyOf(address, info));
        } else {
          assert KeysFetched(address, steps) == KeysFetched(address, before);
        }
    }
  }

  lemma NothingUsed(size: nat)
    ensures LastOnes<Key>([], size) == []
  {
  }

  lemma FetchUsesKey<E, P, O>(t: Tables<E, P, O>, size: nat, address: O -> int, info: Info<E, P, O>)
    requires info.executor.None?
    ensures Fetched(t, size, address, info).0.order == Used(t.order, size, KeyOf(address, info))
  {
  }

  // -------------------------------------------------------------------- whose state it is

  /** Two infos of one execution: one executor and event, or the very same two objects. */
  predicate SameExecution<E(==), P(==), O(==)>(a: Info<E, P, O>, b: Info<E, P, O>) {
    && a.executor == b.executor
    && (if a.executor.Some? then a.event == b.event else a.variables == b.variables && a.root == b.root)
  }

  /** For whom each state was built, in the order they were built. */
  ghost function Owners<E, P, O>(size: nat, address: O -> int, steps: seq<Step<E, P, O>>): seq<Info<E, P, O>> {
    if steps == [] then []
    else
      Owners(size, address, Init(steps)) +
      if Last(steps).Fetch? && Run(size, address, steps).created > Run(size, address, Init(steps)).created
      then [Last(steps).info] else []
  }

  /** Every kept state is kept for its owner. */
  ghost predicate KeptForOwners<E, P, O>(t: Tables<E, P, O>, owners: seq<Info<E, P, O>>) {
    && |owners| == t.created
    && (forall e <- t.byExecutor :: t.byExecutor[e].state < t.created
          && owners[t.byExecutor[e].state].executor == Some(e)
          && owners[t.byExecutor[e].state].event == t.byExecutor[e].event)
    && (forall k <- t.slots :: t.slots[k].state < t.created && owners[t.slots[k].state].executor == None
          && owners[t.slots[k].state].variables == t.slots[k].variables
          && owners[t.slots[k].state].root == t.slots[k].root)
  }

  lemma FetchKeepsOwners<E, P, O>(t: Tables<E, P, O>, owners: seq<Info<E, P, O>>, size: nat, address: O -> int,
      info: Info<E, P, O>)
    requires KeptForOwners(t, owners)
    ensures var (after, state) := Fetched(t, size, address, info);
            var all := owners + if after.created > t.created then [info] else [];
            KeptForOwners(after, all) && state < |all| && SameExecution(all[state], info)
  {
    hide Used;
  }

  lemma {:induction false} OwnersOfRun<E, P, O>(size: nat, address: O -> int, steps: seq<Step<E, P, O>>)
    ensures KeptForOwners(Run(size, address, steps), Owners(size, address, steps))
    decreases |steps|
  {
    hide Fetched, KeptForOwners;
    if steps == [] {
      NobodyYet<E, P, O>(size, address);
    } else {
      OwnersOfRun(size, address, Init(steps));
      var t, owners := Run(size, address, Init(steps)), Owners(size, address, Init(steps));
      match Last(steps)
      case Fetch(info) => FetchKeepsOwners(t, owners, size, address, info);
      case End(e) =>
        EndKeepsOwners(t, owners, e);
        assert owners + [] == owners;
    }
  }

  lemma NobodyYet<E, P, O>(size: nat, address: O -> int)
    ensures KeptForOwners(Run<E, P, O>(size, address, []), Owners<E, P, O>(size, address, []))
  {
  }

  lemma EndKeepsOwners<E, P, O>(t: Tables<E, P, O>, owners: seq<Info<E, P, O>>, e: E)
    requires KeptForOwners(t, owners)
    ensures KeptForOwners(t.(byExecutor := t.byExecutor - {e}), owners)
  {
  }

  lemma {:induction false} OwnersGrow<E, P, O>(size: nat, address: O -> int, steps: seq<Step<E, P, O>>, i: nat)
    requires i <= |steps|
    ensures Owners(size, address, steps[..i]) <= Owners(size, address, steps)
    decreases |steps|
  {
    hide Run;
    if i == |steps| {
      assert steps[..i] == steps;
    } else {
      assert Init(steps)[..i] == steps[..i];
      OwnersGrow(size, address, Init(steps), i);
    }
  }

  /** What the fetch at a place of a run gives. */
  ghost function StateAt<E, P, O>(size: nat, address: O -> int, steps: seq<Step<E, P, O>>, i: nat): nat
    requires i < |steps| && steps[i].Fetch?
  {
    Fetched(Run(size, address, steps[..i]), size, address, steps[i].info).1
  }

  lemma StateIsOwned<E, P, O>(size: nat, address: O -> int, steps: seq<Step<E, P, O>>, i: nat)
    requires i < |steps| && steps[i].Fetch?
    ensures var owners, state := Owners(size, address, steps), StateAt(size, address, steps, i);
            state < |owners| && SameExecution(owners[state], steps[i].info)
  {
    hide Fetched, KeptForOwners, SameExecution;
    var until := steps[..i + 1];
    assert Init(until) == steps[..i] && Last(until) == steps[i];
    OwnersOfRun(size, address, steps[..i]);
    FetchKeepsOwners(Run(size, address, steps[..i]), Owners(size, address, steps[..i]), size, address, steps[i].info);
    OwnersGrow(size, address, steps, i + 1);
  }

  /** No two executions ever share a state: in any run two fetches that give the same state are of one execution. */
  lemma StatesAreNotShared<E, P, O>(size: nat, address: O -> int, steps: seq<Step<E, P, O>>, i: nat, j: nat)
    requires i < |steps| && j < |steps| && steps[i].Fetch? && steps[j].Fetch?
    requires StateAt(size, address, steps, i) == StateAt(size, address, steps, j)
    ensures SameExecution(steps[i].info, steps[j].info)
  {
    hide StateAt, Owners;
    StateIsOwned(size, address, steps, i);
    StateIsOwned(size, address, steps, j);
  }

  // -------------------------------------------------------------------- a state is kept

  /** The key's slot with only the given keys used after it. */
  ghost predicate Holds<E, P, O>(t: Tables<E, P, O>, k: Key, slot: Slot<O>, front: seq<Key>, back: seq<Key>,
      others: set<Key>)
  {
    && Consistent(t) && t.order == front + [k] + back && Elements(back) <= others
    && k in t.slots && t.slots[k] == slot
  }

  lemma OtherKeyUsed(front: seq<Key>, k: Key, back: seq<Key>, other: Key, size: nat, others: set<Key>)
      returns (front': seq<Key>, back': seq<Key>)
    requires Distinct(front + [k] + back) && other != k && other in others
    requires Elements(back) <= others && |others| < size
    ensures Used(front + [k] + back, size, other) == front' + [k] + back' && Elements(back') <= others
  {
    hide Without;
    if other in front + [k] + back {
      front', back' := OtherKeyMoved(front, k, back, other, size);
      WithoutMembers(back, other);
    } else {
      front', back' := OtherKeyAdded(front, k, back, other, size, others);
    }
  }

  lemma OtherKeyMoved(front: seq<Key>, k: Key, back: seq<Key>, other: Key, size: nat)
      returns (front': seq<Key>, back': seq<Key>)
    requires other in front + [k] + back && other != k
    ensures Used(front + [k] + back, size, other) == front' + [k] + back' && back' == Without(back, other) + [other]
  {
    front', back' := Without(front, other), Without(back, other) + [other];
    WithoutJoins(front + [k], back, other);
    WithoutJoins(front, [k], other);
    assert Without([k], other) == [k];
  }

  lemma OtherKeyAdded(front: seq<Key>, k: Key, back: seq<Key>, other: Key, size: nat, others: set<Key>)
      returns (front': seq<Key>, back': seq<Key>)
    requires Distinct(front + [k] + back) && other !in front + [k] + back && other in others
    requires Elements(back) <= others && |others| < size
    ensures Used(front + [k] + back, size, other) == front' + [k] + back' && Elements(back') <= others
  {
    hide Without;
    PartsDistinct(front + [k], back);
    DistinctSize(back);
    assert other !in Elements(back);
    SubsetSize(Elements(back) + {other}, others);
    var all := front + [k] + back + [other];
    var cut := if |all| <= size then 0 else |all| - size;
    front', back' := front[cut..], back + [other];
    assert all[cut..] == front' + [k] + back';
    ElementsSnoc(back, other);
  }

  function Through<E(==), P(==), O(==)>(start: Tables<E, P, O>, size: nat, address: O -> int,
      steps: seq<Step<E, P, O>>): Tables<E, P, O>
  {
    if steps == [] then start else After(Through(start, size, address, Init(steps)), size, address, Last(steps))
  }

  // ------------------------------------------------------------------ objects that are alive

  /** The objects alive when a state is fetched, as far as the table goes: those its entries hold, and the
      ones fetched for. */
  function Alive<E, P, O(==)>(t: Tables<E, P, O>, info: Info<E, P, O>): set<O> {
    (set k <- t.slots :: t.slots[k].variables) + (set k <- t.slots :: t.slots[k].root) + {info.variables, info.root}
  }

  /** Objects that are alive together have addresses of their own; an address may be used again later. */
  ghost predicate Apart<E, P, O>(address: O -> int, t: Tables<E, P, O>, info: Info<E, P, O>) {
    forall x <- Alive(t, info), y <- Alive(t, info) :: address(x) == address(y) ==> x == y
  }

  predicate FromTable<E, P, O>(step: Step<E, P, O>) { step.Fetch? && step.info.executor.None? }

  /** At every fetch of a run from some tables on. */
  ghost predicate ApartThrough<E, P, O>(start: Tables<E, P, O>, size: nat, address: O -> int,
      steps: seq<Step<E, P, O>>)
  {
    forall i: nat | i < |steps| && FromTable(steps[i]) ::
      Apart(address, Through(start, size, address, steps[..i]), steps[i].info)
  }

  /** An entry that is found by its addresses is the execution's own: it holds both objects. */
  lemma FoundIsOwn<E, P, O>(t: Tables<E, P, O>, address: O -> int, k: Key, info: Info<E, P, O>)
    requires k in t.slots && Apart(address, t, info)
    requires k == Key(address(t.slots[k].variables), address(t.slots[k].root)) == KeyOf(address, info)
    ensures Matches(t.slots[k], info)
  {
    assert t.slots[k].variables in Alive(t, info) && t.slots[k].root in Alive(t, info);
  }

  ghost predicate HeldByKeys<E, P, O>(t: Tables<E, P, O>, address: O -> int) {
    forall k <- t.slots :: k == Key(address(t.slots[k].variables), address(t.slots[k].root))
  }

  lemma FetchHolds<E, P, O>(t: Tables<E, P, O>, size: nat, address: O -> int, info: Info<E, P, O>)
    requires HeldByKeys(t, address)
    ensures HeldByKeys(Fetched(t, size, address, info).0, address)
  {
    hide Used, Matches;
  }

  lemma {:induction false} EntriesHeldByKeys<E, P, O>(size: nat, address: O -> int, steps: seq<Step<E, P, O>>)
    ensures HeldByKeys(Run(size, address, steps), address)
    decreases |steps|
  {
    hide Fetched;
    if steps != [] {
      EntriesHeldByKeys(size, address, Init(steps));
      if Last(steps).Fetch? { FetchHolds(Run(size, address, Init(steps)), size, address, Last(steps).info); }
    }
  }

  /** In any run an entry found by its addresses is the execution's own, so comparing the objects as well
      never finds a difference. */
  lemma EntriesAreOwn<E, P, O>(size: nat, address: O -> int, steps: seq<Step<E, P, O>>, info: Info<E, P, O>)
    requires Apart(address, Run(size, address, steps), info)
    ensures var t, k := Run(size, address, steps), KeyOf(address, info);
            k in t.slots ==> Matches(t.slots[k], info)
  {
    hide Run, Apart, Matches;
    EntriesHeldByKeys(size, address, steps);
    var t, k := Run(size, address, steps), KeyOf(address, info);
    if k in t.slots { FoundIsOwn(t, address, k, info); }
  }

  lemma {:induction false} KeptThrough<E, P, O>(start: Tables<E, P, O>, size: nat, address: O -> int,
      mid: seq<Step<E, P, O>>, k: Key, slot: Slot<O>, others: set<Key>)
      returns (front: seq<Key>, back: seq<Key>)
    requires exists f :: Holds(start, k, slot, f, [], others)
    requires |others| < size && k == Key(address(slot.variables), address(slot.root))
    requires ApartThrough(start, size, address, mid)
    requires forall step <- mid :: FromTable(step) ==> KeyOf(address, step.info) in others + {k}
    ensures Holds(Through(start, size, address, mid), k, slot, front, back, others)
    decreases |mid|
  {
    hide KeyOf, Used, Matches, Apart;
    if mid == [] {
      front :| Holds(start, k, slot, front, [], others);
      back := [];
    } else {
      InitApart(start, size, address, mid);
      front, back := KeptThrough(start, size, address, Init(mid), k, slot, others);
      var t := Through(start, size, address, Init(mid));
      front, back := KeptByStep(t, size, address, Last(mid), k, slot, others, front, back);
    }
  }

  lemma InitApart<E, P, O>(start: Tables<E, P, O>, size: nat, address: O -> int, steps: seq<Step<E, P, O>>)
    requires steps != [] && ApartThrough(start, size, address, steps)
    ensures ApartThrough(start, size, address, Init(steps))
    ensures FromTable(Last(steps)) ==> Apart(address, Through(start, size, address, Init(steps)), Last(steps).info)
  {
    hide Through, Apart;
    var init := Init(steps);
    assert steps[..|steps| - 1] == init && steps[|steps| - 1] == Last(steps);
    forall i: nat | i < |init| && FromTable(init[i])
      ensures Apart(address, Through(start, size, address, init[..i]), init[i].info)
    {
      assert steps[..i] == init[..i] && steps[i] == init[i];
    }
  }

  lemma KeptByStep<E, P, O>(t: Tables<E, P, O>, size: nat, address: O -> int, step: Step<E, P, O>, k: Key,
      slot: Slot<O>, others: set<Key>, front: seq<Key>, back: seq<Key>)
      returns (front': seq<Key>, back': seq<Key>)
    requires Holds(t, k, slot, front, back, others) && |others| < size
    requires k == Key(address(slot.variables), address(slot.root))
    requires FromTable(step) ==> Apart(address, t, step.info) && KeyOf(address, step.info) in others + {k}
    ensures Holds(After(t, size, address, step), k, slot, front', back', others)
  {
    hide KeyOf, Used, Matches, Apart;
    front', back' := front, back;
    if FromTable(step) {
      var used := KeyOf(address, step.info);
      FetchStaysConsistent(t, size, address, step.info);
      FetchUsesKey(t, size, address, step.info);
      if used == k {
        FoundIsOwn(t, address, k, step.info);
        front', back' := Without(front + [k] + back, k), [];
        SameKeyUsed(t.order, size, k);
        assert front' + [k] + [] == front' + [k];
      } else {
        front', back' := OtherKeyUsed(front, k, back, used, size, others);
        assert (front' + [k] + back')[|front'|] == k;
      }
    }
  }

  lemma SameKeyUsed(order: seq<Key>, size: nat, k: Key)
    requires k in order
    ensures Used(order, size, k) == Without(order, k) + [k]
  {
  }

  /** An execution gets the state it got before when fewer than `size` other keys were used in between. The
      entry holds the objects, so nobody else's can have taken their addresses. */
  lemma StateIsKept<E, P, O>(size: nat, address: O -> int, earlier: seq<Step<E, P, O>>, info: Info<E, P, O>,
      mid: seq<Step<E, P, O>>)
    requires info.executor.None?
    requires |Elements(KeysFetched(address, mid)) - {KeyOf(address, info)}| < size
    requires ApartThrough(Fetched(Run(size, address, earlier), size, address, info).0, size, address, mid)
    ensures var (first, state) := Fetched(Run(size, address, earlier), size, address, info);
            Fetched(Through(first, size, address, mid), size, address, info).1 == state
  {
    hide Used, LastOnes, Recency, KeysFetched, Run, Through, Apart;
    var k := KeyOf(address, info);
    var others := Elements(KeysFetched(address, mid)) - {k};
    TableIsRecency(size, address, earlier);
    var t := Run(size, address, earlier);
    var (first, state) := Fetched(t, size, address, info);
    FetchStaysConsistent(t, size, address, info);
    FetchUsesKey(t, size, address, info);
    var front := FetchedLast(t.order, size, k);
    UsedMembers(t.order, size, k);
    var slot := Slot(info.variables, info.root, state);
    assert Holds(first, k, slot, front, [], others) by { assert front + [k] + [] == front + [k]; }
    forall step | step in mid && FromTable(step) ensures KeyOf(address, step.info) in others + {k} {
      FetchedKeys(address, mid, step);
    }
    var _, _ := KeptThrough(first, size, address, mid, k, slot, others);
  }

  lemma FetchedLast(order: seq<Key>, size: nat, k: Key) returns (front: seq<Key>)
    requires size > 0
    ensures Used(order, size, k) == front + [k]
  {
    if k in order {
      front := Without(order, k);
    } else {
      var all := order + [k];
      front := if |all| <= size then order else order[|all| - size..];
      assert Used(order, size, k) == front + [k];
    }
  }

  lemma {:induction false} FetchedKeys<E, P, O>(address: O -> int, steps: seq<Step<E, P, O>>, step: Step<E, P, O>)
    requires step in steps && step.Fetch? && step.info.executor.None?
    ensures KeyOf(address, step.info) in KeysFetched(address, steps)
    decreases |steps|
  {
    hide KeyOf;
    assert steps == Init(steps) + [Last(steps)];
    if step != Last(steps) { FetchedKeys(address, Init(steps), step); }
  }

  // ------------------------------------------------------------------- executors and events

  /** The event an executor's state was last fetched for, while its execution lasts. */
  function LastEvent<E(==), P, O>(steps: seq<Step<E, P, O>>, e: E): Option<Option<P>> {
    if steps == [] then None
    else match Last(steps)
      case End(x) => if x == e then None else LastEvent(Init(steps), e)
      case Fetch(info) => if info.executor == Some(e) then Some(info.event) else LastEvent(Init(steps), e)
  }

  lemma {:induction false} EntryHasLastEvent<E, P, O>(size: nat, address: O -> int, steps: seq<Step<E, P, O>>, e: E)
    ensures var t := Run(size, address, steps);
            LastEvent(steps, e) == if e in t.byExecutor then Some(t.byExecutor[e].event) else None
    ensures var t := Run(size, address, steps);
            forall x <- t.byExecutor :: t.byExecutor[x].state < t.created
    decreases |steps|
  {
    hide Used, KeyOf;
    if steps != [] {
      EntryHasLastEvent(size, address, Init(steps), e);
    }
  }

  /** An executor's state starts afresh exactly when it is fetched for another event than last time. */
  lemma StateRestartsWithEvent<E, P, O>(size: nat, address: O -> int, steps: seq<Step<E, P, O>>,
      info: Info<E, P, O>, e: E)
    requires info.executor == Some(e)
    ensures var t := Run(size, address, steps);
            var (after, state) := Fetched(t, size, address, info);
            if LastEvent(steps, e) == Some(info.event) then after == t && e in t.byExecutor
                && state == t.byExecutor[e].state
            else state == t.created && after.created == t.created + 1
  {
    EntryHasLastEvent(size, address, steps, e);
  }

  lemma MovedOrder(order: seq<Key>, k: Key)
    requires Distinct(order) && k in order
    ensures Distinct(Without(order, k) + [k]) && Elements(Without(order, k) + [k]) == Elements(order)
    ensures |Without(order, k) + [k]| == |order|
  {
    WithoutMembers(order, k);
    ElementsSnoc(Without(order, k), k);
  }

  lemma InsertedOrder(order: seq<Key>, k: Key)
    requires Distinct(order)
    ensures k !in order ==> Distinct(order + [k]) && Elements(order + [k]) == Elements(order) + {k}
  {
    ElementsSnoc(order, k);
  }

  lemma NothingToDrop(order: seq<Key>, size: nat)
    ensures |order| <= size ==> LastOnes(order, size) == order
  {
  }

  lemma LastIsKept(order: seq<Key>, size: nat, k: Key)
    ensures size > 0 ==> k in LastOnes(order + [k], size)
    ensures size == 0 ==> LastOnes(order, size) == []
    ensures size == 0 ==> LastOnes(order + [k], size) == []
  {
    assert (order + [k])[|order|] == k;
  }

  lemma RestrictedKeys<O>(slots: map<Key, Slot<O>>, order: seq<Key>)
    ensures Restricted(slots, order).Keys == slots.Keys * Elements(order)
    ensures forall k :: k in Restricted(slots, order) ==> Restricted(slots, order)[k] == slots[k]
  {
  }

  lemma RestrictedSame<O>(slots: map<Key, Slot<O>>, a: seq<Key>, b: seq<Key>)
    requires Elements(a) == Elements(b)
    ensures Restricted(slots, a) == Restricted(slots, b)
  {
    assert forall k :: k in a <==> k in Elements(a);
    assert forall k :: k in b <==> k in Elements(b);
  }

  lemma RestrictedWhole<O>(slots: map<Key, Slot<O>>, order: seq<Key>)
    requires Elements(order) == slots.Keys
    ensures Restricted(slots, order) == slots
  {
    assert forall k :: k in order <==> k in Elements(order);
  }

  lemma Suffix<O>(slots: map<Key, Slot<O>>, all: seq<Key>, j: nat, size: nat)
    requires Distinct(all) && Elements(all) == slots.Keys && j <= |all|
    ensures Distinct(all[j..]) && Elements(all[j..]) == Restricted(slots, all[j..]).Keys
    ensures |all[j..]| == size || (|all[j..]| < size && j == 0) ==> all[j..] == LastOnes(all, size)
  {
    assert all[..j] + all[j..] == all;
    PartsDistinct(all[..j], all[j..]);
    RestrictedKeys(slots, all[j..]);
    assert forall k :: k in all[j..] ==> k in Elements(all);
  }

  lemma DropFirst<O>(slots: map<Key, Slot<O>>, order: seq<Key>)
    requires order != [] && Distinct(order)
    ensures Restricted(slots, order) - {order[0]} == Restricted(slots, order[1..])
  {
    assert order == [order[0]] + order[1..];
    assert order[0] !in order[1..] by { assert forall j :: 1 <= j < |order| ==> order[j] != order[0]; }
  }

  /** What insertion and eviction left, with the key moved to its end, is what using the key gives. */
  lemma KeptOrder(was: seq<Key>, order: seq<Key>, size: nat, k: Key)
    requires Distinct(was) && Distinct(order) && k in order && size > 0
    requires order == LastOnes(if k in was then was else was + [k], size) && |was| <= size
    ensures Without(order, k) + [k] == Used(was, size, k)
    ensures Elements(Without(order, k) + [k]) == Elements(order) && Distinct(Without(order, k) + [k])
    ensures |Without(order, k) + [k]| <= size
  {
    MovedOrder(order, k);
    if k !in was {
      assert order == Init(order) + [k];
      assert k !in Init(order);
      WithoutJoins(Init(order), [k], k);
      WithoutMembers(Init(order), k);
      assert Without([k], k) == [];
    }
  }

  // ---------------------------------------------------------------------------- the object

  class ExecutionStates<!E(==), P(==), O(==)> {
    const size: nat
    const address: O -> int
    var byExecutor: map<E, Entry<P>>
    var order: seq<Key>
    var slots: map<Key, Slot<O>>
    /** States built so far; the next one gets this number. */
    var created: nat

    constructor (size: nat, address: O -> int)
      ensures this.size == size && this.address == address
      ensures Contents() == Tables(map[], [], map[], 0)
    {
      this.size, this.address := size, address;
      byExecutor, order, slots, created := map[], [], map[], 0;
    }

    function Contents(): Tables<E, P, O>
      reads this
    {
      Tables(byExecutor, order, slots, created)
    }

    /** The state of an execution, built when it has none. A table of size zero cannot keep the state it
        just built, and has none to give. */
    method Get(info: Info<E, P, O>) returns (state: Option<nat>)
      requires Consistent(Contents()) && |order| <= size
      modifies this
      ensures size > 0 || info.executor.Some? ==>
                state.Some? && (Contents(), state.value) == Fetched(old(Contents()), size, address, info)
      ensures size == 0 && info.executor.None? ==> state.None? && order == []
      ensures Consistent(Contents()) && |order| <= size
    {
      hide Used, KeyOf, Restricted;
      if info.executor.Some? {
        var e := info.executor.value;
        if e !in byExecutor || byExecutor[e].event != info.event {
          byExecutor := byExecutor[e := Entry(info.event, created)];
          created := created + 1;
        }
        return Some(byExecutor[e].state);
      }
      var k := KeyOf(address, info);
      assert k in slots <==> k in Elements(order);
      UsedMembers(order, size + 1, k);
      if k in slots && Matches(slots[k], info) {
        SameKeyUsed(order, size, k);
        MovedOrder(order, k);
        order := Without(order, k) + [k];
        return Some(slots[k].state);
      }
      state := Insert(k, Slot(info.variables, info.root, created));
      created := created + 1;
    }

    /** Puts a slot in, drops the least recently used beyond the size, and makes the key the last used. */
    method Insert(k: Key, slot: Slot<O>) returns (state: Option<nat>)
      requires Consistent(Contents()) && |order| <= size
      modifies `order, `slots
      ensures size > 0 ==> && state == Some(slot.state) && order == Used(old(order), size, k)
                           && slots == Restricted(old(slots)[k := slot], order)
      ensures size == 0 ==> state.None? && order == []
      ensures Consistent(Contents()) && |order| <= size
    {
      hide Used, Restricted, LastOnes, Without;
      ghost var was := order;
      assert k in slots <==> k in Elements(order);
      InsertedOrder(order, k);
      if k !in slots { order := order + [k]; }
      slots := slots[k := slot];
      NothingToDrop(was, size);
      ghost var inserted := slots;
      Evict();
      RestrictedKeys(inserted, order);
      LastIsKept(was, size, k);
      if k !in slots { return None; }
      KeptOrder(was, order, size, k);
      RestrictedSame(inserted, order, Without(order, k) + [k]);
      order := Without(order, k) + [k];
      return Some(slots[k].state);
    }

    /** Drops the least recently used slots until the table fits its size. */
    method Evict()
      requires Consistent(Contents())
      modifies `order, `slots
      ensures order == LastOnes(old(order), size) && slots == Restricted(old(slots), order)
      ensures Consistent(Contents())
    {
      hide Restricted, LastOnes;
      ghost var all, j := order, 0;
      RestrictedWhole(slots, order);
      while |order| > size
        invariant 0 <= j <= |all| && order == all[j..] && (j > 0 ==> |order| >= size)
        invariant slots == Restricted(old(slots), order)
        decreases |order|
      {
        Suffix(old(slots), all, j, size);
        DropFirst(old(slots), order);
        slots := slots - {order[0]};
        order := order[1..];
        j := j + 1;
      }
      Suffix(old(slots), all, j, size);
    }
  }
}
