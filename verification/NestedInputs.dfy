/** The input a parent offers for writing a related child, as a function of the hosts declared for the
    child, and the registries that memoise it. */
module NestedInputs {
  import opened Options

  datatype Model = Model(id: nat)
  datatype Column = Column(name: string)
  datatype Permission = Permission(codename: string)

  /** Every operation a host can serve; nested inputs are built for the first two only. */
  datatype ModelOperation = Create | Update | Delete | List | Retrieve

  const NESTED_OPERATIONS := {Create, Update}
  const IDENTITY := Column("id")

  /** A declared host class: projection, label override and the operations it serves. */
  datatype Host = Host(
    id: nat,
    onlyFields: set<Column>,
    excludeFields: set<Column>,
    requiredPerms: set<Permission>,
    operations: set<ModelOperation>)

  /** What the models themselves say: the columns an unprojected input of a model carries and the
      permissions an operation on it requires by default. */
  datatype Catalog = Catalog(columns: map<(Model, ModelOperation), set<Column>>,
      defaults: map<(Model, ModelOperation), set<Permission>>)
  {
    function Columns(m: Model, op: ModelOperation): set<Column> {
      if (m, op) in columns then columns[(m, op)] else {}
    }

    function Defaults(m: Model, op: ModelOperation): set<Permission> {
      if (m, op) in defaults then defaults[(m, op)] else {}
    }
  }

  /** A built child input: its fields, and the permissions its place in the parent is stamped with. */
  datatype Input = Input(fields: set<Column>, required: set<Permission>)

  // -------------------------------------------------- the projection of some hosts

  predicate Serves(h: Host, op: ModelOperation) { op in h.operations }

  function Excluded(hosts: seq<Host>): set<Column> {
    set h <- hosts, c <- h.excludeFields :: c
  }

  function Allowed(hosts: seq<Host>, op: ModelOperation): set<Column> {
    set h <- hosts, c <- h.onlyFields | Serves(h, op) :: c
  }

  /** A payload that omits the key creates even through an update input, so that input needs both labels. */
  function Verbs(op: ModelOperation): set<ModelOperation> {
    if op == Update then {Create, Update} else {Create}
  }

  function Labels(hosts: seq<Host>, op: ModelOperation): set<Permission> {
    set h <- hosts, verb <- Verbs(op), p <- h.requiredPerms | Serves(h, verb) :: p
  }

  function DefaultLabels(catalog: Catalog, m: Model, op: ModelOperation): set<Permission> {
    set verb <- Verbs(op), p <- catalog.Defaults(m, verb) :: p
  }

  /** A trailing "+" marks a relation without a back reference. */
  predicate NoBackReference(c: Column) {
    c.name != "" && c.name[|c.name| - 1] == '+'
  }

  /** Whether a projection keeps a column; an empty axis says nothing. */
  predicate IsProjected(c: Column, only: set<Column>, exclude: set<Column>) {
    !((only != {} && c !in only) || (exclude != {} && c in exclude) || NoBackReference(c))
  }

  function Exclusion(hosts: seq<Host>, op: ModelOperation): set<Column> {
    if op == Update then Excluded(hosts) - {IDENTITY} else Excluded(hosts)
  }

  function Allowance(hosts: seq<Host>, op: ModelOperation): set<Column> {
    var allowed := Allowed(hosts, op);
    if op == Update && allowed != {} then allowed + {IDENTITY} else allowed
  }

  /** The input the hosts give a child. */
  function InputFor(catalog: Catalog, hosts: seq<Host>, child: Model, op: ModelOperation): Input {
    var only, exclude := Allowance(hosts, op), Exclusion(hosts, op);
    Input(set c <- catalog.Columns(child, op) | IsProjected(c, only, exclude) :: c,
          DefaultLabels(catalog, child, op) + Labels(hosts, op))
  }

  /** Exactly which columns a nested input carries: the identity field of an update always; any other
      column when no host excludes it and, if the hosts serving the operation allow anything, one of
      them allows it. */
  lemma InputColumns(catalog: Catalog, hosts: seq<Host>, child: Model, op: ModelOperation, c: Column)
    requires !NoBackReference(c)
    ensures c in InputFor(catalog, hosts, child, op).fields <==>
      && c in catalog.Columns(child, op)
      && (|| (op == Update && c == IDENTITY)
          || (&& (forall h <- hosts :: c !in h.excludeFields)
              && ((exists h <- hosts :: Serves(h, op) && h.onlyFields != {})
                  ==> (exists h <- hosts :: Serves(h, op) && c in h.onlyFields))))
  {
    assert Allowed(hosts, op) != {} <==> exists h <- hosts :: Serves(h, op) && h.onlyFields != {} by {
      if h :| h in hosts && Serves(h, op) && h.onlyFields != {} {
        var x :| x in h.onlyFields;
        assert x in Allowed(hosts, op);
      }
      if Allowed(hosts, op) != {} {
        var x :| x in Allowed(hosts, op);
      }
    }
  }

  /** A relation without a back reference is in no input. */
  lemma PlusColumnsAreLeftOut(catalog: Catalog, hosts: seq<Host>, child: Model, op: ModelOperation, name: string)
    ensures Column(name + "+") !in InputFor(catalog, hosts, child, op).fields
  {
    assert (name + "+")[|name|] == '+';
  }

  /** Exactly which permissions a nested input is stamped with: those of creating, by default or by a host that
      serves creates, and for the input of an update those of updating as well. */
  lemma InputPermissions(catalog: Catalog, hosts: seq<Host>, child: Model, op: ModelOperation, p: Permission)
    ensures p in InputFor(catalog, hosts, child, op).required <==>
      || Demanded(catalog, hosts, child, Create, p)
      || (op == Update && Demanded(catalog, hosts, child, Update, p))
  {
    assert Create in Verbs(op) && (op == Update ==> Update in Verbs(op));
    forall verb | Demanded(catalog, hosts, child, verb, p) && verb in Verbs(op)
      ensures p in DefaultLabels(catalog, child, op) + Labels(hosts, op)
    {
      if (child, verb) in catalog.defaults && p in catalog.defaults[(child, verb)] {
        assert p in catalog.Defaults(child, verb);
      }
    }
  }

  /** An operation on the model demands a permission: by the model's defaults, or by a host that serves it. */
  ghost predicate Demanded(catalog: Catalog, hosts: seq<Host>, m: Model, verb: ModelOperation, p: Permission) {
    || ((m, verb) in catalog.defaults && p in catalog.defaults[(m, verb)])
    || exists h <- hosts :: verb in h.operations && p in h.requiredPerms
  }

  // ------------------------------------------------- only the set of hosts matters

  ghost predicate SameHosts(a: seq<Host>, b: seq<Host>) {
    forall h :: h in a <==> h in b
  }

  lemma InputIgnoresOrder(catalog: Catalog, a: seq<Host>, b: seq<Host>, child: Model, op: ModelOperation)
    requires SameHosts(a, b)
    ensures InputFor(catalog, a, child, op) == InputFor(catalog, b, child, op)
  {
    assert Excluded(a) == Excluded(b);
    assert Allowed(a, op) == Allowed(b, op);
    assert Labels(a, op) == Labels(b, op);
  }

  /** A host that projects nothing and requires nothing extra adds nothing to an input. */
  predicate Narrows(h: Host) {
    h.onlyFields != {} || h.excludeFields != {} || h.requiredPerms != {}
  }

  datatype Signature = Signature(only: set<Column>, exclude: set<Column>, perms: set<Permission>,
      operations: set<ModelOperation>)

  /** All that an input takes from a host. */
  function SignatureOf(h: Host): Signature {
    Signature(h.onlyFields, h.excludeFields, h.requiredPerms, h.operations * NESTED_OPERATIONS)
  }

  /** A host that narrows nothing, or repeats what another host contributes, changes no nested input. */
  lemma RepeatedHostChangesNothing(catalog: Catalog, before: seq<Host>, after: seq<Host>, h: Host, child: Model,
      op: ModelOperation)
    requires op in NESTED_OPERATIONS
    requires forall x :: x in after <==> x in before || x == h
    requires !Narrows(h) || exists o :: o in before && SignatureOf(o) == SignatureOf(h)
    ensures InputFor(catalog, after, child, op) == InputFor(catalog, before, child, op)
  {
    if Narrows(h) {
      var o :| o in before && SignatureOf(o) == SignatureOf(h);
      SameSignature(o, h);
    }
    assert Excluded(after) == Excluded(before);
    assert Allowed(after, op) == Allowed(before, op);
    assert Labels(after, op) == Labels(before, op);
  }

  lemma SameSignature(o: Host, h: Host)
    requires SignatureOf(o) == SignatureOf(h)
    ensures o.onlyFields == h.onlyFields && o.excludeFields == h.excludeFields && o.requiredPerms == h.requiredPerms
    ensures forall op <- NESTED_OPERATIONS :: Serves(o, op) <==> Serves(h, op)
  {
    forall op <- NESTED_OPERATIONS ensures Serves(o, op) <==> Serves(h, op) {
      assert op in o.operations * NESTED_OPERATIONS <==> op in h.operations * NESTED_OPERATIONS;
    }
  }
}
