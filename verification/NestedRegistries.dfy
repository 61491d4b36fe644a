/** Registries that collect hosts and memoise nested inputs, as a state machine over any number of
    registries: hosts may be declared and inputs built in any order, and a host that arrives too late
    to be honoured is refused. */
module NestedRegistries {
  import opened Options
  import opened NestedInputs

  datatype InputKey = InputKey(child: Model, op: ModelOperation, parent: Model)

  /** What one registry holds for nested inputs. */
  datatype Store = Store(
    hosts: map<Model, seq<Host>>,
    inputs: map<InputKey, Input>,
    materialized: map<Model, seq<Model>>)
  {
    function HostsAt(m: Model): seq<Host> { if m in hosts then hosts[m] else [] }

    function ParentsOf(m: Model): seq<Model> { if m in materialized then materialized[m] else [] }

    function WithHosts(m: Model, hs: seq<Host>): Store { this.(hosts := hosts[m := hs]) }

    /** The parent is on record as having frozen the child's input; it is recorded once. */
    function Recorded(child: Model, parent: Model): Store {
      if parent in ParentsOf(child) then this.(materialized := materialized[child := ParentsOf(child)])
      else this.(materialized := materialized[child := ParentsOf(child) + [parent]])
    }
  }

  const EMPTY := Store(map[], map[], map[])

  /** Hosts a registry's parents can reach: its own, then the global ones. `shared` is None for the
      global registry itself. */
  function Reach(own: Store, shared: Option<Store>, m: Model): seq<Host> {
    own.HostsAt(m) + match shared { case None => [] case Some(g) => g.HostsAt(m) }
  }

  function Signatures(hosts: seq<Host>): set<Signature> {
    set o <- hosts :: SignatureOf(o)
  }

  /** Whether a host declared now can no longer be honoured by an input that was already built. */
  predicate TooLate(own: Store, shared: Option<Store>, m: Model, h: Host) {
    && own.ParentsOf(m) != []
    && Narrows(h)
    && SignatureOf(h) !in Signatures(Reach(own, shared, m))
  }

  /** Declaring a host: refused when too late, else appended. Either way the model has a host list. */
  function Declared(own: Store, shared: Option<Store>, m: Model, h: Host): Store {
    if TooLate(own, shared, m, h) then own.WithHosts(m, own.HostsAt(m))
    else own.WithHosts(m, own.HostsAt(m) + [h])
  }

  /** Building an input: None when it would carry no field. A built input is kept and recorded in every
      registry its hosts were read from. */
  function Built(catalog: Catalog, own: Store, shared: Option<Store>, key: InputKey): Option<(Store, Option<Store>)> {
    var input := InputFor(catalog, Reach(own, shared, key.child), key.child, key.op);
    if key in own.inputs then Some((own, shared))
    else if input.fields == {} then None
    else
      Some((own.(inputs := own.inputs[key := input]).Recorded(key.child, key.parent),
            match shared { case None => None case Some(g) => Some(g.Recorded(key.child, key.parent)) }))
  }

  // ------------------------------------------------------------- any set of registries

  datatype RegistryName = Global | Local(id: nat)

  datatype World = World(shared: Store, locals: map<nat, Store>)
  {
    function At(r: RegistryName): Store {
      match r
      case Global => shared
      case Local(id) => if id in locals then locals[id] else EMPTY
    }

    function SharedFor(r: RegistryName): Option<Store> {
      if r == Global then None else Some(shared)
    }

    function With(r: RegistryName, s: Store): World {
      match r
      case Global => this.(shared := s)
      case Local(id) => this.(locals := locals[id := s])
    }

    function Hosts(r: RegistryName, m: Model): seq<Host> { Reach(At(r), SharedFor(r), m) }
  }

  const START := World(EMPTY, map[])

  datatype Event =
    | Declare(registry: RegistryName, model: Model, host: Host)
    | Build(registry: RegistryName, key: InputKey)

  predicate Accepts(catalog: Catalog, w: World, e: Event) {
    match e
    case Declare(r, m, h) => !TooLate(w.At(r), w.SharedFor(r), m, h)
    case Build(r, key) => Built(catalog, w.At(r), w.SharedFor(r), key).Some?
  }

  function Step(catalog: Catalog, w: World, e: Event): World {
    match e
    case Declare(r, m, h) => w.With(r, Declared(w.At(r), w.SharedFor(r), m, h))
    case Build(r, key) =>
      match Built(catalog, w.At(r), w.SharedFor(r), key)
      case None => w
      case Some((own, shared)) =>
        match shared
        case None => w.With(r, own)
        case Some(g) => w.With(r, own).(shared := g)
  }

  /** Nested inputs are asked for in the two operations they exist for. */
  predicate Nested(e: Event) {
    e.Build? ==> e.key.op in NESTED_OPERATIONS
  }

  function Run(catalog: Catalog, events: seq<Event>): World {
    if events == [] then START else Step(catalog, Run(catalog, events[..|events| - 1]), events[|events| - 1])
  }

  /** Every event of the run is accepted where it happens. */
  predicate Accepted(catalog: Catalog, events: seq<Event>) {
    events == [] ||
    (Accepted(catalog, events[..|events| - 1])
        && Accepts(catalog, Run(catalog, events[..|events| - 1]), events[|events| - 1]))
  }

  // ------------------------------------------------------- built inputs stay current

  /** Every kept input is what a build from the hosts declared by now would give, and everyone whose
      hosts it was read from knows of it. */
  ghost predicate Current(catalog: Catalog, w: World) {
    forall r: RegistryName, key: InputKey {:trigger key in w.At(r).inputs} :: key in w.At(r).inputs ==>
      && key.op in NESTED_OPERATIONS
      && w.At(r).inputs[key] == InputFor(catalog, w.Hosts(r, key.child), key.child, key.op)
      && key.parent in w.At(r).ParentsOf(key.child)
      && key.parent in w.shared.ParentsOf(key.child)
  }

  /** How the hosts a registry reaches change when one is declared. */
  lemma DeclaringHosts(w: World, catalog: Catalog, d: RegistryName, m: Model, h: Host, r: RegistryName, child: Model)
    ensures var before, after := w.Hosts(r, child), Step(catalog, w, Declare(d, m, h)).Hosts(r, child);
            if child == m && (d == r || d == Global) && !TooLate(w.At(d), w.SharedFor(d), m, h)
            then forall x :: x in after <==> x in before || x == h
            else after == before
  {
    hide TooLate;
  }

  /** An accepted declaration leaves the hosts of every built input equivalent for that input. */
  lemma DeclaringKeepsInput(catalog: Catalog, w: World, d: RegistryName, m: Model, h: Host, r: RegistryName,
      key: InputKey)
    requires Current(catalog, w) && key in w.At(r).inputs
    ensures var w' := Step(catalog, w, Declare(d, m, h));
            InputFor(catalog, w'.Hosts(r, key.child), key.child, key.op)
                == InputFor(catalog, w.Hosts(r, key.child), key.child, key.op)
  {
    var w' := Step(catalog, w, Declare(d, m, h));
    DeclaringHosts(w, catalog, d, m, h, r, key.child);
    if key.child == m && (d == r || d == Global) && !TooLate(w.At(d), w.SharedFor(d), m, h) {
      var before := w.Hosts(r, m);
      assert w.At(d).ParentsOf(m) != [];
      if Narrows(h) {
        var o :| o in Reach(w.At(d), w.SharedFor(d), m) && SignatureOf(o) == SignatureOf(h);
        assert o in before;
      }
      hide Step, InputFor, Reach;
      RepeatedHostChangesNothing(catalog, before, w'.Hosts(r, m), h, m, key.op);
    }
  }

  lemma DeclareKeepsCurrent(catalog: Catalog, w: World, d: RegistryName, m: Model, h: Host)
    requires Current(catalog, w)
    ensures Current(catalog, Step(catalog, w, Declare(d, m, h)))
  {
    var w' := Step(catalog, w, Declare(d, m, h));
    forall r: RegistryName, key: InputKey | key in w'.At(r).inputs
      ensures key.op in NESTED_OPERATIONS
           && w'.At(r).inputs[key] == InputFor(catalog, w'.Hosts(r, key.child), key.child, key.op)
           && key.parent in w'.At(r).ParentsOf(key.child) && key.parent in w'.shared.ParentsOf(key.child)
    {
      DeclaringChangesHostsOnly(catalog, w, d, m, h, r);
      DeclaringKeepsInput(catalog, w, d, m, h, r, key);
      DeclaringChangesHostsOnly(catalog, w, d, m, h, Global);
    }
  }

  lemma DeclaringChangesHostsOnly(catalog: Catalog, w: World, d: RegistryName, m: Model, h: Host, r: RegistryName)
    ensures var w' := Step(catalog, w, Declare(d, m, h));
            w'.At(r).inputs == w.At(r).inputs && w'.At(r).materialized == w.At(r).materialized
  {
  }

  /** A build keeps every host list and forgets no record. */
  lemma BuiltEffect(catalog: Catalog, own: Store, shared: Option<Store>, key: InputKey)
    requires Built(catalog, own, shared, key).Some?
    ensures var (own', shared') := Built(catalog, own, shared, key).value;
            && own'.hosts == own.hosts
            && (forall m, p :: p in own.ParentsOf(m) ==> p in own'.ParentsOf(m))
            && (shared.Some? <==> shared'.Some?)
            && (shared.Some? ==> && shared'.value.hosts == shared.value.hosts
                                 && shared'.value.inputs == shared.value.inputs)
            && (shared.Some? ==> forall m, p :: p in shared.value.ParentsOf(m) ==> p in shared'.value.ParentsOf(m))
    ensures var (own', shared') := Built(catalog, own, shared, key).value;
            own' != own ==>
              && own'.inputs == own.inputs[key := InputFor(catalog, Reach(own, shared, key.child), key.child, key.op)]
              && key.parent in own'.ParentsOf(key.child)
              && (shared.Some? ==> key.parent in shared'.value.ParentsOf(key.child))
  {
    hide InputFor;
  }

  lemma BuildKeepsCurrent(catalog: Catalog, w: World, b: RegistryName, key: InputKey)
    requires Current(catalog, w) && key.op in NESTED_OPERATIONS
    ensures Current(catalog, Step(catalog, w, Build(b, key)))
  {
    var w' := Step(catalog, w, Build(b, key));
    if Built(catalog, w.At(b), w.SharedFor(b), key).Some? && w' != w {
      BuiltEffect(catalog, w.At(b), w.SharedFor(b), key);
      hide Built, InputFor;
      forall r: RegistryName, k: InputKey | k in w'.At(r).inputs
        ensures k.op in NESTED_OPERATIONS
             && w'.At(r).inputs[k] == InputFor(catalog, w'.Hosts(r, k.child), k.child, k.op)
             && k.parent in w'.At(r).ParentsOf(k.child) && k.parent in w'.shared.ParentsOf(k.child)
      {
        BuildingKeepsHosts(catalog, w, b, key, r, k.child);
        BuildingKeepsInputs(catalog, w, b, key, r, k);
      }
    }
  }

  lemma BuildingKeepsHosts(catalog: Catalog, w: World, b: RegistryName, key: InputKey, r: RegistryName, m: Model)
    ensures var w' := Step(catalog, w, Build(b, key));
            && w'.At(r).HostsAt(m) == w.At(r).HostsAt(m)
            && w'.Hosts(r, m) == w.Hosts(r, m)
            && (forall p :: p in w.At(r).ParentsOf(m) ==> p in w'.At(r).ParentsOf(m))
            && (forall p :: p in w.shared.ParentsOf(m) ==> p in w'.shared.ParentsOf(m))
  {
    if Built(catalog, w.At(b), w.SharedFor(b), key).Some? {
      BuiltEffect(catalog, w.At(b), w.SharedFor(b), key);
      hide Built;
    }
  }

  lemma BuildingKeepsInputs(catalog: Catalog, w: World, b: RegistryName, key: InputKey, r: RegistryName, k: InputKey)
    requires Built(catalog, w.At(b), w.SharedFor(b), key).Some?
    ensures var w' := Step(catalog, w, Build(b, key));
            && (k in w'.At(r).inputs ==>
                  || (k in w.At(r).inputs && w'.At(r).inputs[k] == w.At(r).inputs[k])
                  || (r == b && k == key
                      && w'.At(r).inputs[k] == InputFor(catalog, w.Hosts(b, key.child), key.child, key.op)
                      && key.parent in w'.At(r).ParentsOf(key.child) && key.parent in w'.shared.ParentsOf(key.child)))
  {
    BuiltEffect(catalog, w.At(b), w.SharedFor(b), key);
    hide Built, InputFor;
  }

  /** In every reachable state of any set of registries every kept input is current. */
  lemma {:induction false} KeptInputsAreCurrent(catalog: Catalog, events: seq<Event>)
    requires forall e <- events :: Nested(e)
    ensures Current(catalog, Run(catalog, events))
  {
    if events != [] {
      var before, last := events[..|events| - 1], events[|events| - 1];
      assert last in events;
      KeptInputsAreCurrent(catalog, before);
      match last
      case Declare(r, m, h) => DeclareKeepsCurrent(catalog, Run(catalog, before), r, m, h);
      case Build(r, key) => BuildKeepsCurrent(catalog, Run(catalog, before), r, key);
    }
  }

  // ------------------------------------------------------------- order does not matter

  /** After an accepted run a registry's host list holds exactly the declared hosts. */
  lemma {:induction false} HostsAreTheDeclared(catalog: Catalog, events: seq<Event>, r: RegistryName, m: Model, h: Host)
    requires Accepted(catalog, events)
    ensures h in Run(catalog, events).At(r).HostsAt(m) <==> Declare(r, m, h) in events
  {
    if events != [] {
      var before, last := events[..|events| - 1], events[|events| - 1];
      HostsAreTheDeclared(catalog, before, r, m, h);
      assert Declare(r, m, h) in events <==> Declare(r, m, h) in before || Declare(r, m, h) == last;
      if last.Build? { BuildingKeepsHosts(catalog, Run(catalog, before), last.registry, last.key, r, m); }
    }
  }

  /** The hosts a run declares for a model to one registry, in declaration order. */
  function DeclaredTo(events: seq<Event>, r: RegistryName, m: Model): seq<Host> {
    if events == [] then []
    else
      var last := events[|events| - 1];
      DeclaredTo(events[..|events| - 1], r, m)
      + if last.Declare? && last.registry == r && last.model == m then [last.host] else []
  }

  lemma {:induction false} HostListIsWhatWasDeclared(catalog: Catalog, events: seq<Event>, r: RegistryName, m: Model)
    requires Accepted(catalog, events)
    ensures Run(catalog, events).At(r).HostsAt(m) == DeclaredTo(events, r, m)
  {
    if events != [] {
      var before, last := events[..|events| - 1], events[|events| - 1];
      HostListIsWhatWasDeclared(catalog, before, r, m);
      if last.Build? { BuildingKeepsHosts(catalog, Run(catalog, before), last.registry, last.key, r, m); }
    }
  }

  /** The hosts a parent reaches after an accepted run: those declared to its own registry, then those
      declared globally, each in declaration order; another registry's hosts never. */
  lemma HostsReachedInOrder(catalog: Catalog, events: seq<Event>, r: RegistryName, m: Model)
    requires Accepted(catalog, events)
    ensures Run(catalog, events).Hosts(r, m)
         == DeclaredTo(events, r, m) + if r == Global then [] else DeclaredTo(events, Global, m)
  {
    HostListIsWhatWasDeclared(catalog, events, r, m);
    HostListIsWhatWasDeclared(catalog, events, Global, m);
  }

  // ------------------------------------------------------------- hosts that come too late

  /** An input of the child was built for the parent in this registry, or in any for the global one, which is read
      by all. */
  ghost predicate WasBuilt(events: seq<Event>, r: RegistryName, m: Model, parent: Model) {
    exists e <- events :: e.Build? && e.key.child == m && e.key.parent == parent && (r == Global || e.registry == r)
  }

  lemma BuildRecords(catalog: Catalog, w: World, b: RegistryName, key: InputKey, r: RegistryName, m: Model, p: Model)
    requires Built(catalog, w.At(b), w.SharedFor(b), key).Some?
    requires key in w.At(b).inputs ==>
               key.parent in w.At(b).ParentsOf(key.child) && key.parent in w.shared.ParentsOf(key.child)
    ensures var w' := Step(catalog, w, Build(b, key));
            && (p in w'.At(r).ParentsOf(m) <==>
                  p in w.At(r).ParentsOf(m) || (m == key.child && p == key.parent && (r == b || r == Global)))
            && w'.At(r).inputs.Keys == w.At(r).inputs.Keys + if r == b then {key} else {}
  {
    hide InputFor;
  }

  /** Who is on record for a child is who had its input built, and what is kept is what was built. */
  lemma {:induction false} RecordsTellBuilds(catalog: Catalog, events: seq<Event>, r: RegistryName, m: Model, p: Model)
    requires Accepted(catalog, events) && forall e <- events :: Nested(e)
    ensures p in Run(catalog, events).At(r).ParentsOf(m) <==> WasBuilt(events, r, m, p)
    ensures forall key :: key in Run(catalog, events).At(r).inputs <==> Build(r, key) in events
  {
    hide Built, TooLate;
    if events != [] {
      var before, last := events[..|events| - 1], events[|events| - 1];
      assert events == before + [last] && last in events;
      RecordsTellBuilds(catalog, before, r, m, p);
      match last {
        case Declare(d, n, h) => DeclaringChangesHostsOnly(catalog, Run(catalog, before), d, n, h, r);
        case Build(b, key) =>
          KeptInputsAreCurrent(catalog, before);
          BuildRecords(catalog, Run(catalog, before), b, key, r, m, p);
          assert WasBuilt(events, r, m, p) <==>
            WasBuilt(before, r, m, p) || (m == key.child && p == key.parent && (r == b || r == Global));
      }
    }
  }

  /** The two hosts say the same about nested inputs. */
  predicate SameProjection(a: Host, b: Host) {
    && a.onlyFields == b.onlyFields && a.excludeFields == b.excludeFields && a.requiredPerms == b.requiredPerms
    && (Create in a.operations <==> Create in b.operations) && (Update in a.operations <==> Update in b.operations)
  }

  lemma SameProjectionReading(a: Host, b: Host)
    ensures SignatureOf(a) == SignatureOf(b) <==> SameProjection(a, b)
  {
    assert forall op :: op in a.operations * NESTED_OPERATIONS <==> op in a.operations && op in {Create, Update};
    assert forall op :: op in b.operations * NESTED_OPERATIONS <==> op in b.operations && op in {Create, Update};
    if SignatureOf(a) == SignatureOf(b) {
      assert Create in a.operations * NESTED_OPERATIONS <==> Create in b.operations * NESTED_OPERATIONS;
      assert Update in a.operations * NESTED_OPERATIONS <==> Update in b.operations * NESTED_OPERATIONS;
    }
    if SameProjection(a, b) { assert a.operations * NESTED_OPERATIONS == b.operations * NESTED_OPERATIONS; }
  }

  /** After any accepted run a host is refused exactly when an input of its model was built from its registry, it
      projects or demands something, and no host declared there or globally says the same. */
  lemma LateHosts(catalog: Catalog, events: seq<Event>, r: RegistryName, m: Model, h: Host)
    requires Accepted(catalog, events) && forall e <- events :: Nested(e)
    ensures !Accepts(catalog, Run(catalog, events), Declare(r, m, h)) <==>
              && (exists parent :: WasBuilt(events, r, m, parent))
              && (h.onlyFields != {} || h.excludeFields != {} || h.requiredPerms != {})
              && forall o :: Declare(r, m, o) in events || Declare(Global, m, o) in events ==> !SameProjection(o, h)
  {
    hide Run, WasBuilt, SignatureOf;
    var w := Run(catalog, events);
    forall p ensures p in w.At(r).ParentsOf(m) <==> WasBuilt(events, r, m, p) {
      RecordsTellBuilds(catalog, events, r, m, p);
    }
    if w.At(r).ParentsOf(m) != [] { assert w.At(r).ParentsOf(m)[0] in w.At(r).ParentsOf(m); }
    var reached := Reach(w.At(r), w.SharedFor(r), m);
    forall o ensures o in reached <==> Declare(r, m, o) in events || Declare(Global, m, o) in events {
      HostsAreTheDeclared(catalog, events, r, m, o);
      HostsAreTheDeclared(catalog, events, Global, m, o);
    }
    forall o ensures SignatureOf(o) == SignatureOf(h) <==> SameProjection(o, h) { SameProjectionReading(o, h); }
    assert SignatureOf(h) in Signatures(reached) <==> exists o :: o in reached && SignatureOf(o) == SignatureOf(h);
  }

  /** And a build is accepted exactly when it was made before, or some column is left to it. */
  lemma AcceptedBuilds(catalog: Catalog, events: seq<Event>, r: RegistryName, key: InputKey)
    requires Accepted(catalog, events) && forall e <- events :: Nested(e)
    ensures Accepts(catalog, Run(catalog, events), Build(r, key)) <==>
              || Build(r, key) in events
              || exists c :: c in InputFor(catalog, Run(catalog, events).Hosts(r, key.child), key.child, key.op).fields
  {
    hide InputFor, Run;
    RecordsTellBuilds(catalog, events, r, key.child, key.parent);
    var fields := InputFor(catalog, Run(catalog, events).Hosts(r, key.child), key.child, key.op).fields;
    if fields != {} { var c :| c in fields; }
  }

  /** Two accepted runs that declare the same hosts, in any order and with builds anywhere in between,
      keep the same inputs: what one run kept is what the other would build, and kept if it built it. */
  lemma DeclarationOrderIsIrrelevant(catalog: Catalog, first: seq<Event>, second: seq<Event>, r: RegistryName,
      key: InputKey)
    requires Accepted(catalog, first) && Accepted(catalog, second)
    requires forall e <- first + second :: Nested(e)
    requires forall e: Event :: e.Declare? ==> (e in first <==> e in second)
    requires key in Run(catalog, first).At(r).inputs
    ensures Run(catalog, first).At(r).inputs[key]
        == InputFor(catalog, Run(catalog, second).Hosts(r, key.child), key.child, key.op)
    ensures key in Run(catalog, second).At(r).inputs ==>
              Run(catalog, first).At(r).inputs[key] == Run(catalog, second).At(r).inputs[key]
  {
    assert forall e <- first :: e in first + second;
    assert forall e <- second :: e in first + second;
    KeptInputsAreCurrent(catalog, first);
    KeptInputsAreCurrent(catalog, second);
    var v, w := Run(catalog, first), Run(catalog, second);
    forall h ensures h in v.Hosts(r, key.child) <==> h in w.Hosts(r, key.child) {
      HostsAreTheDeclared(catalog, first, r, key.child, h);
      HostsAreTheDeclared(catalog, second, r, key.child, h);
      HostsAreTheDeclared(catalog, first, Global, key.child, h);
      HostsAreTheDeclared(catalog, second, Global, key.child, h);
    }
    InputIgnoresOrder(catalog, v.Hosts(r, key.child), w.Hosts(r, key.child), key.child, key.op);
  }

  // ------------------------------------------------------------------ the registry

  class Registry {
    /** Hosts declared for a model in this registry, in declaration order. */
    var nestedHosts: map<Model, seq<Host>>
    /** Child inputs as built for a parent. */
    var nestedInputCache: map<InputKey, Input>
    /** Parents a child's input was built for. */
    var nestedMaterialized: map<Model, seq<Model>>

    constructor ()
      ensures Contents() == EMPTY
    {
      nestedHosts, nestedInputCache, nestedMaterialized := map[], map[], map[];
    }

    function Contents(): Store
      reads this
    {
      Store(nestedHosts, nestedInputCache, nestedMaterialized)
    }
  }

  /** The global registry's contents, for a registry other than the global one. */
  function SharedContents(registry: Registry, globalRegistry: Registry): Option<Store>
    reads globalRegistry
  {
    if registry == globalRegistry then None else Some(globalRegistry.Contents())
  }

  method HostsForNested(registry: Registry, globalRegistry: Registry, m: Model) returns (hosts: seq<Host>)
    ensures hosts == Reach(registry.Contents(), SharedContents(registry, globalRegistry), m)
  {
    hosts := if m in registry.nestedHosts then registry.nestedHosts[m] else [];
    if registry != globalRegistry && m in globalRegistry.nestedHosts {
      hosts := hosts + globalRegistry.nestedHosts[m];
    }
  }

  /** Appends a declared host, or refuses it and leaves everything that was built as it is. */
  method RegisterNestedHost(m: Model, host: Host, registry: Registry, globalRegistry: Registry) returns (refused: bool)
    modifies registry`nestedHosts
    ensures refused <==> old(TooLate(registry.Contents(), SharedContents(registry, globalRegistry), m, host))
    ensures registry.Contents() == old(Declared(registry.Contents(), SharedContents(registry, globalRegistry), m, host))
  {
    if m !in registry.nestedHosts {
      registry.nestedHosts := registry.nestedHosts[m := []];
    }
    if m in registry.nestedMaterialized && registry.nestedMaterialized[m] != [] && Narrows(host) {
      var hosts := HostsForNested(registry, globalRegistry, m);
      var contributed := false;
      for i := 0 to |hosts|
        invariant contributed <==> exists j :: 0 <= j < i && SignatureOf(hosts[j]) == SignatureOf(host)
      {
        if SignatureOf(hosts[i]) == SignatureOf(host) { contributed := true; }
      }
      assert SignatureOf(host) in Signatures(hosts) <==> contributed;
      if !contributed { return true; }
    }
    registry.nestedHosts := registry.nestedHosts[m := registry.nestedHosts[m] + [host]];
    return false;
  }

  method RecordNestedInput(registry: Registry, globalRegistry: Registry, child: Model, parent: Model)
    modifies registry`nestedMaterialized, globalRegistry`nestedMaterialized
    ensures registry.Contents() == old(registry.Contents()).Recorded(child, parent)
    ensures globalRegistry.Contents() == old(globalRegistry.Contents()).Recorded(child, parent)
  {
    RecordIn(registry, child, parent);
    if registry != globalRegistry { RecordIn(globalRegistry, child, parent); }
  }

  method RecordIn(target: Registry, child: Model, parent: Model)
    modifies target`nestedMaterialized
    ensures target.Contents() == old(target.Contents()).Recorded(child, parent)
  {
    var parents := if child in target.nestedMaterialized then target.nestedMaterialized[child] else [];
    if parent !in parents { parents := parents + [parent]; }
    target.nestedMaterialized := target.nestedMaterialized[child := parents];
  }

  /** Merges the projections: exclusions of every host, allowances of the hosts that serve the operation. */
  method MergedInput(catalog: Catalog, hosts: seq<Host>, child: Model, op: ModelOperation) returns (input: Input)
    ensures input == InputFor(catalog, hosts, child, op)
  {
    var excluded: set<Column>, allowed: set<Column> := {}, {};
    assert Excluded(hosts[..0]) == {} && Allowed(hosts[..0], op) == {};
    for i := 0 to |hosts|
      invariant excluded == Excluded(hosts[..i]) && allowed == Allowed(hosts[..i], op)
    {
      ProjectionGrows(hosts[..i], hosts[i], op);
      assert hosts[..i + 1] == hosts[..i] + [hosts[i]];
      excluded := excluded + hosts[i].excludeFields;
      if op in hosts[i].operations { allowed := allowed + hosts[i].onlyFields; }
    }
    assert hosts[..|hosts|] == hosts;
    if op == Update {
      excluded := excluded - {IDENTITY};
      if allowed != {} { allowed := allowed + {IDENTITY}; }
    }
    input := Input(set c <- catalog.Columns(child, op) | IsProjected(c, allowed, excluded) :: c,
                   DefaultLabels(catalog, child, op) + Labels(hosts, op));
  }

  /** The child's input for one parent: from the memo, or built from the hosts reachable now, kept and
      recorded. An input without fields is an error and leaves no trace. */
  method NestedChildInput(catalog: Catalog, key: InputKey, registry: Registry, globalRegistry: Registry)
      returns (built: Option<Input>)
    modifies registry`nestedInputCache, registry`nestedMaterialized, globalRegistry`nestedMaterialized
    ensures var was := old(Built(catalog, registry.Contents(), SharedContents(registry, globalRegistry), key));
            && (was.None? ==> built == None && registry.Contents() == old(registry.Contents())
                              && globalRegistry.Contents() == old(globalRegistry.Contents()))
            && (was.Some? ==> && registry.Contents() == was.value.0
                              && SharedContents(registry, globalRegistry) == was.value.1
                              && key in was.value.0.inputs && built == Some(was.value.0.inputs[key]))
  {
    hide InputFor, Reach;
    if key in registry.nestedInputCache {
      return Some(registry.nestedInputCache[key]);
    }
    var hosts := HostsForNested(registry, globalRegistry, key.child);
    var input := MergedInput(catalog, hosts, key.child, key.op);
    if input.fields == {} {
      return None;
    }
    registry.nestedInputCache := registry.nestedInputCache[key := input];
    RecordNestedInput(registry, globalRegistry, key.child, key.parent);
    return Some(input);
  }

  lemma ProjectionGrows(hosts: seq<Host>, h: Host, op: ModelOperation)
    ensures Excluded(hosts + [h]) == Excluded(hosts) + h.excludeFields
    ensures Allowed(hosts + [h], op) == Allowed(hosts, op) + if Serves(h, op) then h.onlyFields else {}
  {
    assert forall x :: x in hosts + [h] <==> x in hosts || x == h;
  }
}
