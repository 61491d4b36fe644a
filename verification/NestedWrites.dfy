/** Writing a parent together with its related children over a small database state: what one nested
    save does to the rows and links, step by step, with the project's own hooks left open. */
module NestedWrites {
  import opened Options
  import opened NestedInputs

  /** A primary key; two keys are the same when their text is. */
  datatype Key = Key(text: string)

  datatype Datum = Null | Id(key: Key) | Ids(keys: seq<Key>) | Scalar(text: string)

  type Row = map<Column, Datum>
  type Item = map<Column, Datum>

  datatype RowId = RowId(model: Model, key: Key)
  datatype Saved = Saved(key: Key, row: Row)

  /** A many-to-many link held by the nested field `field` of the parent's model. */
  datatype Link = Link(field: Column, parent: Key, child: Key)

  datatype Database = Database(rows: map<RowId, Row>, links: set<Link>)
  {
    function Find(m: Model, key: Key): Option<Saved> {
      var id := RowId(m, key);
      if id in rows then Some(Saved(key, rows[id])) else None
    }

    function Put(id: RowId, row: Row): Database { this.(rows := rows[id := row]) }
  }

  datatype Kind = Forward | ReverseOne | ReverseMany | ManyToMany

  /** A relation of the parent's model. `owner` is the child's column naming its parent, and `nullable`
      says whether it may be empty; both matter to the reverse kinds only. */
  datatype Relation = Relation(field: Column, child: Model, kind: Kind, owner: Column, nullable: bool)

  /** What a nested field of the input holds. */
  datatype Payload = Nothing | One(item: Item) | Many(items: seq<Item>)
  {
    /** Empty payloads leave the relation as it is. */
    predicate IsEmpty() { this == Nothing || this == One(map[]) || this == Many([]) }

    function Items(): seq<Item> {
      match this
      case Nothing => []
      case One(item) => [item]
      case Many(items) => items
    }
  }

  datatype Data = Data(values: Item, nested: map<Column, Payload>)
  {
    predicate Writes(r: Relation) { r.field in nested && !nested[r.field].IsEmpty() }

    function ItemsFor(r: Relation): seq<Item> { if Writes(r) then nested[r.field].Items() else [] }
  }

  datatype Problem =
    | ToOneOnly
    | OneToOneOnly
    | InvalidKey(key: Key)
    | NotFound(key: Key)
    | NotOwned(key: Key)
    | NeedsUpdateHost
    | Rejected(message: string)

  /** An error at a field path; the empty path stands for the object itself. */
  datatype FieldError = FieldError(path: seq<Column>, problem: Problem)

  datatype Failure = Refused(errors: seq<FieldError>) | Denied(host: Host)

  datatype Cleaned = Valid(values: Item) | Invalid(errors: seq<FieldError>)

  /** What a project supplies: row scopes of hosts, row scopes of output types, permissions, validation,
      column defaults and the keys the database hands out. Any total functions will do. */
  datatype Hooks = Hooks(
    sees: (Host, Database, RowId) -> bool,
    scoped: Model -> bool,
    exposes: (Database, RowId) -> bool,
    allows: (Host, ModelOperation, Item) -> bool,
    clean: (Database, Model, Option<Saved>, Item) -> Cleaned,
    defaults: Model -> Row,
    allocate: (set<RowId>, Model) -> Key)

  /** A host's configuration: its model, its nested fields in declaration order, the model's foreign keys
      and own many-to-many fields in model order, the hosts reachable for each child model, and the model
      each reference column points at. */
  datatype Setup = Setup(
    model: Model,
    nested: seq<Relation>,
    relations: seq<Relation>,
    keyColumn: Model -> Column,
    hosts: Model -> seq<Host>,
    target: (Model, Column) -> Option<Model>,
    hooks: Hooks)

  datatype Outcome<T> = Done(db: Database, value: T) | Failed(failure: Failure)

  /** The database hands out unused keys. */
  ghost predicate Allocates(hooks: Hooks) {
    forall rows: set<RowId>, m: Model :: RowId(m, hooks.allocate(rows, m)) !in rows
  }

  // ---------------------------------------------------------------- reading payloads

  function NamedIn(item: Item, c: Column): Option<Key> {
    if c in item && item[c].Id? then Some(item[c].key) else None
  }

  /** The key an item names: under the model's own key column first, then under "id". */
  function ChildKey(s: Setup, m: Model, item: Item): Option<Key> {
    match NamedIn(item, s.keyColumn(m))
    case Some(key) => Some(key)
    case None => NamedIn(item, IDENTITY)
  }

  function IdentityColumns(s: Setup, m: Model): set<Column> { {s.keyColumn(m), IDENTITY} }

  function OwnerOf(row: Row, c: Column): Option<Key> { NamedIn(row, c) }

  /** What the parent points at now; nothing on a create. */
  function CurrentTarget(instance: Option<Saved>, c: Column): Option<Key> {
    if instance.Some? then OwnerOf(instance.value.row, c) else None
  }

  function Reference(key: Option<Key>): Datum {
    if key.Some? then Id(key.value) else Null
  }

  /** Keys are compared with the current target as text, where no target reads "None". */
  function TextOf(key: Option<Key>): string {
    if key.Some? then key.value.text else "None"
  }

  // ------------------------------------------------------------- scopes and permissions

  function Serving(hosts: seq<Host>, op: ModelOperation): seq<Host> {
    if hosts == [] then [] else IfServing(hosts[0], op) + Serving(hosts[1..], op)
  }

  function IfServing(h: Host, op: ModelOperation): seq<Host> { if Serves(h, op) then [h] else [] }

  predicate HasUpdateHost(s: Setup, m: Model) { Serving(s.hosts(m), Update) != [] }

  predicate SeenBy(s: Setup, db: Database, id: RowId, hosts: seq<Host>) {
    forall h <- hosts :: id in db.rows && s.hooks.sees(h, db, id)
  }

  /** Rows a type without a row scope of its own exposes are all of them. */
  predicate Exposed(s: Setup, db: Database, id: RowId) {
    s.hooks.scoped(id.model) ==> id in db.rows && s.hooks.exposes(db, id)
  }

  predicate Visible(s: Setup, db: Database, id: RowId, outputScope: bool) {
    SeenBy(s, db, id, Serving(s.hosts(id.model), Update)) && (outputScope ==> Exposed(s, db, id))
  }

  function FirstDenying(s: Setup, hosts: seq<Host>, op: ModelOperation, item: Item): (denying: Option<Host>)
    ensures denying == None <==> forall h <- hosts :: s.hooks.allows(h, op, item)
  {
    if hosts == [] then None
    else if !s.hooks.allows(hosts[0], op, item) then Some(hosts[0])
    else FirstDenying(s, hosts[1..], op, item)
  }

  // ------------------------------------------------------------------------ one row

  /** The columns a validated payload writes: those the client gave, references as given. */
  function Written(s: Setup, m: Model, item: Item, values: Item): Row {
    map c <- item | c !in IdentityColumns(s, m) && (item[c].Id? || c in values) ::
      if item[c].Id? then item[c] else values[c]
  }

  /** Every reference of a row that has a target model names a row of it. */
  predicate Resolves(s: Setup, db: Database, m: Model, row: Row) {
    forall c <- row :: row[c].Id? && s.target(m, c).Some? ==> RowId(s.target(m, c).value, row[c].key) in db.rows
  }

  function NewKey(s: Setup, db: Database, m: Model, item: Item): Key {
    match NamedIn(item, s.keyColumn(m))
    case Some(key) => key
    case None => s.hooks.allocate(db.rows.Keys, m)
  }

  /** Validates and writes one row: the instance's, or a new one. */
  function Save(s: Setup, db: Database, m: Model, instance: Option<Saved>, item: Item, extra: Row): Outcome<Saved> {
    match s.hooks.clean(db, m, instance, item)
    case Invalid(errors) => Failed(Refused(errors))
    case Valid(values) =>
      var base := if instance.Some? then instance.value.row else s.hooks.defaults(m);
      var row := base + Written(s, m, item, values) + extra;
      var key := if instance.Some? then instance.value.key else NewKey(s, db, m, item);
      var after := db.Put(RowId(m, key), row);
      if Resolves(s, after, m, row) then Done(after, Saved(key, row))
      else Failed(Refused([FieldError([], Rejected("a reference names no row"))]))
  }

  function Prefixed(field: Column, errors: seq<FieldError>): seq<FieldError> {
    seq(|errors|, i requires 0 <= i < |errors| => FieldError([field] + errors[i].path, errors[i].problem))
  }

  function Missing(field: Column, key: Key): Failure {
    Refused(Prefixed(field, [FieldError([IDENTITY], NotFound(key))]))
  }

  function AtField(field: Column, problem: Problem): Failure { Refused([FieldError([field], problem)]) }

  /** Creates or updates one child. `existing` is the row the item names, if there is one. */
  function Persist(s: Setup, db: Database, field: Column, m: Model, item: Item, extra: Row,
                   existing: Option<Saved>, scopeChecked: bool): Outcome<Saved>
  {
    var key := ChildKey(s, m, item);
    var op := if existing.Some? then Update else Create;
    if existing.None? && key.Some? then Failed(Missing(field, key.value))
    else if existing.Some? && !scopeChecked && !Visible(s, db, RowId(m, existing.value.key), true) then
      Failed(Missing(field, existing.value.key))
    else match FirstDenying(s, s.hosts(m), op, item)
      case Some(host) => Failed(Denied(host))
      case None =>
        match Save(s, db, m, existing, item, extra)
        case Failed(Refused(errors)) => Failed(Refused(Prefixed(field, errors)))
        case other => other
  }

  function Lookup(db: Database, m: Model, key: Option<Key>): Option<Saved> {
    if key.Some? then db.Find(m, key.value) else None
  }

  // ------------------------------------------------------------------- forward fields

  /** One forward field: the value the parent's column gets. */
  function ForwardValue(s: Setup, db: Database, instance: Option<Saved>, r: Relation, items: seq<Item>): Outcome<Datum>
    requires items != []
  {
    var item := items[0];
    var key := ChildKey(s, r.child, item);
    var current := CurrentTarget(instance, r.field);
    if |items| > 1 then Failed(AtField(r.field, ToOneOnly))
    else if key.Some? && key.value.text != TextOf(current) then
      if HasUpdateHost(s, r.child) && !Visible(s, db, RowId(r.child, key.value), false) then
        Failed(AtField(r.field, InvalidKey(key.value)))
      else Done(db, Id(key.value))
    else if key.Some? && item.Keys <= IdentityColumns(s, r.child) then Done(db, Reference(current))
    else match Persist(s, db, r.field, r.child, item, map[], Lookup(db, r.child, key), false)
      case Failed(f) => Failed(f)
      case Done(after, child) => Done(after, Id(child.key))
  }

  /** The forward fields in turn, collecting what the parent's own columns get. */
  function Forwards(s: Setup, db: Database, instance: Option<Saved>, relations: seq<Relation>, data: Data,
      values: Item): Outcome<Item>
    decreases |relations|
  {
    if relations == [] then Done(db, values)
    else
      var r := relations[0];
      if r.kind != Forward || !data.Writes(r) then Forwards(s, db, instance, relations[1..], data, values)
      else match ForwardValue(s, db, instance, r, data.ItemsFor(r))
        case Failed(f) => Failed(f)
        case Done(after, value) => Forwards(s, after, instance, relations[1..], data, values[r.field := value])
  }

  // -------------------------------------------------------------- reverse and shared

  /** Why an existing row may not become, or stay, the parent's child. */
  function Objection(s: Setup, r: Relation, parent: Key, existing: Saved): Option<Problem> {
    var owner := OwnerOf(existing.row, r.owner);
    if owner.Some? && owner.value != parent then Some(NotOwned(existing.key))
    else if r.nullable && owner.None? && !HasUpdateHost(s, r.child) then Some(NeedsUpdateHost)
    else None
  }

  function ReverseChild(s: Setup, db: Database, r: Relation, parent: Key, item: Item): Outcome<Saved> {
    var key := ChildKey(s, r.child, item);
    var existing := Lookup(db, r.child, key);
    if existing.Some? && !Visible(s, db, RowId(r.child, existing.value.key), true) then
      Failed(Missing(r.field, existing.value.key))
    else if existing.Some? && Objection(s, r, parent, existing.value).Some? then
      Failed(AtField(r.field, Objection(s, r, parent, existing.value).value))
    else Persist(s, db, r.field, r.child, item, map[r.owner := Id(parent)], existing, existing.Some?)
  }

  function ReverseChildren(s: Setup, db: Database, r: Relation, parent: Key, items: seq<Item>): Outcome<seq<Key>>
    decreases |items|
  {
    if items == [] then Done(db, [])
    else match ReverseChild(s, db, r, parent, items[0])
      case Failed(f) => Failed(f)
      case Done(after, child) =>
        match ReverseChildren(s, after, r, parent, items[1..])
        case Failed(f) => Failed(f)
        case Done(end, rest) => Done(end, [child.key] + rest)
  }

  function SharedChild(s: Setup, db: Database, r: Relation, parent: Key, item: Item): Outcome<Saved> {
    var key := ChildKey(s, r.child, item);
    var existing := Lookup(db, r.child, key);
    if existing.Some? && Link(r.field, parent, existing.value.key) !in db.links then
      if Visible(s, db, RowId(r.child, existing.value.key), false) then Done(db, existing.value)
      else Failed(Missing(r.field, existing.value.key))
    else Persist(s, db, r.field, r.child, item, map[], existing, false)
  }

  function SharedChildren(s: Setup, db: Database, r: Relation, parent: Key, items: seq<Item>): Outcome<seq<Key>>
    decreases |items|
  {
    if items == [] then Done(db, [])
    else match SharedChild(s, db, r, parent, items[0])
      case Failed(f) => Failed(f)
      case Done(after, child) =>
        match SharedChildren(s, after, r, parent, items[1..])
        case Failed(f) => Failed(f)
        case Done(end, rest) => Done(end, [child.key] + rest)
  }

  function LinksTo(field: Column, parent: Key, children: seq<Key>): set<Link> {
    set c <- children :: Link(field, parent, c)
  }

  /** The children of one field, written and tied to the saved parent. */
  function Attach(s: Setup, db: Database, r: Relation, parent: Key, items: seq<Item>): Outcome<seq<Key>> {
    match r.kind
    case Forward => Done(db, [])
    case ManyToMany =>
      (match SharedChildren(s, db, r, parent, items)
       case Failed(f) => Failed(f)
       case Done(after, children) =>
         Done(after.(links := after.links + LinksTo(r.field, parent, children)), children))
    case _ =>
      if r.kind == ReverseOne && |items| > 1 then Failed(AtField(r.field, OneToOneOnly))
      else ReverseChildren(s, db, r, parent, items)
  }

  function AttachAll(s: Setup, db: Database, relations: seq<Relation>, parent: Key, data: Data): Outcome<()>
    decreases |relations|
  {
    if relations == [] then Done(db, ())
    else if relations[0].kind == Forward || !data.Writes(relations[0]) then
      AttachAll(s, db, relations[1..], parent, data)
    else match Attach(s, db, relations[0], parent, data.ItemsFor(relations[0]))
      case Failed(f) => Failed(f)
      case Done(after, _) => AttachAll(s, after, relations[1..], parent, data)
  }

  // ------------------------------------------------------- links checked before writing

  /** Whether a named row is linked rather than written. */
  predicate IsLink(db: Database, instance: Option<Saved>, r: Relation, key: Key) {
    if instance.None? then true
    else if r.kind == Forward then key.text != TextOf(CurrentTarget(instance, r.field))
    else Link(r.field, instance.value.key, key) !in db.links
  }

  /** The keys the items of a nested field link, in order. */
  function LinkedByItems(s: Setup, db: Database, instance: Option<Saved>, r: Relation, items: seq<Item>): seq<Key> {
    if items == [] then []
    else LinkedBy(s, db, instance, r, items[0]) + LinkedByItems(s, db, instance, r, items[1..])
  }

  function LinkedBy(s: Setup, db: Database, instance: Option<Saved>, r: Relation, item: Item): seq<Key> {
    var key := ChildKey(s, r.child, item);
    if key.Some? && IsLink(db, instance, r, key.value) then [key.value] else []
  }

  function Linked(s: Setup, db: Database, instance: Option<Saved>, r: Relation, data: Data): seq<Key> {
    if data.Writes(r) then LinkedByItems(s, db, instance, r, data.ItemsFor(r))
    else if r.field !in data.values then []
    else match data.values[r.field]
      case Id(key) => if r.kind == Forward then [key] else []
      case Ids(keys) => if r.kind == ManyToMany then keys else []
      case _ => []
  }

  function FirstHidden(s: Setup, db: Database, m: Model, keys: seq<Key>): (hidden: Option<Key>)
    ensures hidden == None <==> forall k <- keys :: Exposed(s, db, RowId(m, k))
  {
    if keys == [] then None
    else if !Exposed(s, db, RowId(m, keys[0])) then Some(keys[0])
    else FirstHidden(s, db, m, keys[1..])
  }

  /** The first link the destination's output scope refuses. */
  function RefusedLink(s: Setup, db: Database, instance: Option<Saved>, relations: seq<Relation>,
      data: Data): Option<Failure>
  {
    if relations == [] then None
    else
      var r := relations[0];
      match FirstHidden(s, db, r.child, Linked(s, db, instance, r, data))
      case Some(key) => Some(AtField(r.field, InvalidKey(key)))
      case None => RefusedLink(s, db, instance, relations[1..], data)
  }

  // ------------------------------------------------------------------- the whole save

  function SaveNested(s: Setup, db: Database, instance: Option<Saved>, data: Data): Outcome<Saved> {
    match RefusedLink(s, db, instance, s.relations, data)
    case Some(f) => Failed(f)
    case None =>
      match Forwards(s, db, instance, s.nested, data, data.values)
      case Failed(f) => Failed(f)
      case Done(linked, values) =>
        match Save(s, linked, s.model, instance, values, map[])
        case Failed(f) => Failed(f)
        case Done(parented, parent) =>
          match AttachAll(s, parented, s.nested, parent.key, data)
          case Failed(f) => Failed(f)
          case Done(after, _) => Done(after, parent)
  }
}
