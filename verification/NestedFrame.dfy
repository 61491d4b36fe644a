/** What a nested save may change: rows that existed before, and links. */
module NestedFrame {
  import opened Options
  import opened NestedInputs
  import opened NestedWrites
  import opened NestedWitnesses

  /** When a relation lets an item rewrite a row that existed before the call: it is the current forward
      target, it is linked already, or it is owned by the parent or an orphan some update host answers for. */
  predicate RelationAllows(s: Setup, before: Database, instance: Option<Saved>, parent: Key, r: Relation, id: RowId)
    requires id in before.rows
  {
    match r.kind
    case Forward =>
      var current := CurrentTarget(instance, r.field);
      current == Some(id.key) || (current == None && id.key.text == "None")
    case ManyToMany => Link(r.field, parent, id.key) in before.links
    case _ =>
      var owner := OwnerOf(before.rows[id], r.owner);
      owner == Some(parent) || (owner == None && (r.nullable ==> HasUpdateHost(s, r.child)))
  }

  // ------------------------------------------------------------- the states of a save

  /** The databases in which the items of a reverse field are looked at, one after the other. */
  ghost function ReverseStates(s: Setup, db: Database, r: Relation, parent: Key, items: seq<Item>): set<Database>
    decreases |items|
  {
    if items == [] then {}
    else match ReverseChild(s, db, r, parent, items[0])
      case Failed(_) => {db}
      case Done(after, _) => {db} + ReverseStates(s, after, r, parent, items[1..])
  }

  ghost function SharedStates(s: Setup, db: Database, r: Relation, parent: Key, items: seq<Item>): set<Database>
    decreases |items|
  {
    if items == [] then {}
    else match SharedChild(s, db, r, parent, items[0])
      case Failed(_) => {db}
      case Done(after, _) => {db} + SharedStates(s, after, r, parent, items[1..])
  }

  ghost function AttachStates(s: Setup, db: Database, r: Relation, parent: Key, items: seq<Item>): set<Database> {
    match r.kind
    case Forward => {}
    case ManyToMany => SharedStates(s, db, r, parent, items)
    case _ => ReverseStates(s, db, r, parent, items)
  }

  ghost function AttachAllStates(s: Setup, db: Database, relations: seq<Relation>, parent: Key,
      data: Data): set<Database>
    decreases |relations|
  {
    if relations == [] then {}
    else if relations[0].kind == Forward || !data.Writes(relations[0]) then
      AttachAllStates(s, db, relations[1..], parent, data)
    else
      AttachStates(s, db, relations[0], parent, data.ItemsFor(relations[0]))
      + match Attach(s, db, relations[0], parent, data.ItemsFor(relations[0]))
        case Failed(_) => {}
        case Done(after, _) => AttachAllStates(s, after, relations[1..], parent, data)
  }

  ghost function ForwardStates(s: Setup, db: Database, instance: Option<Saved>, relations: seq<Relation>,
      data: Data): set<Database>
    decreases |relations|
  {
    if relations == [] then {}
    else if relations[0].kind != Forward || !data.Writes(relations[0]) then
      ForwardStates(s, db, instance, relations[1..], data)
    else
      {db} + match ForwardValue(s, db, instance, relations[0], data.ItemsFor(relations[0]))
        case Failed(_) => {}
        case Done(after, _) => ForwardStates(s, after, instance, relations[1..], data)
  }

  /** The databases a save passes through: those in which its forward items are looked at, then those in
      which its deferred items are. */
  ghost function SaveStates(s: Setup, db: Database, instance: Option<Saved>, data: Data): set<Database> {
    ForwardStates(s, db, instance, s.nested, data)
    + match Forwards(s, db, instance, s.nested, data, data.values)
      case Failed(_) => {}
      case Done(linked, values) =>
        match Save(s, linked, s.model, instance, values, map[])
        case Failed(_) => {}
        case Done(parented, parent) => AttachAllStates(s, parented, s.nested, parent.key, data)
  }

  /** One nested save, seen from its end: the state it found, and the key its parent has. */
  datatype Call = Call(s: Setup, before: Database, instance: Option<Saved>, data: Data, parent: Key)
  {
    ghost function States(): set<Database> { SaveStates(s, before, instance, data) }

    /** An item names the row, its relation allows rewriting it, every update host and the output type show
        it in the state of the save in which the item is looked at and the row has its old contents, and
        every host of its model grants the update. */
    ghost predicate Rewrites(r: Relation, item: Item, during: Database, id: RowId) {
      && during in States()
      && r in s.nested && item in data.ItemsFor(r)
      && id.model == r.child && ChildKey(s, r.child, item) == Some(id.key)
      && id in before.rows && RelationAllows(s, before, instance, parent, r, id)
      && id in during.rows && during.rows[id] == before.rows[id]
      && Visible(s, during, id, true)
      && forall h <- s.hosts(r.child) :: s.hooks.allows(h, Update, item)
    }

    ghost predicate MayChange(id: RowId) {
      id == RowId(s.model, parent) || exists r, item, during :: Rewrites(r, item, during, id)
    }

    /** No row is lost, and only rows that may change have. */
    ghost predicate Framed(now: Database) {
      forall id <- before.rows :: id in now.rows && (now.rows[id] == before.rows[id] || MayChange(id))
    }

    /** Links only grow, by links of the parent, and not yet in the fields still to come. */
    ghost predicate LinksGrow(now: Database, toCome: seq<Relation>) {
      && before.links <= now.links
      && forall l <- now.links :: l in before.links || (l.parent == parent && forall r <- toCome :: r.field != l.field)
    }
  }

  ghost predicate DistinctFields(relations: seq<Relation>) {
    forall i, j :: 0 <= i < j < |relations| ==> relations[i].field != relations[j].field
  }

  // ------------------------------------------------------------------- one child

  /** A persisted child is the row its item names, seen and granted for update, or a new row. */
  lemma PersistedRow(s: Setup, db: Database, field: Column, m: Model, item: Item, extra: Row,
      existing: Option<Saved>, scopeChecked: bool)
    requires Allocates(s.hooks)
    requires existing == Lookup(db, m, ChildKey(s, m, item))
    requires Persist(s, db, field, m, item, extra, existing, scopeChecked).Done?
    ensures var Done(after, child) := Persist(s, db, field, m, item, extra, existing, scopeChecked);
            var id := RowId(m, child.key);
            && after == db.Put(id, child.row)
            && (id in db.rows <==> ChildKey(s, m, item).Some?)
            && (id in db.rows ==> && ChildKey(s, m, item) == Some(child.key)
                                  && (scopeChecked || Visible(s, db, id, true))
                                  && forall h <- s.hosts(m) :: s.hooks.allows(h, Update, item))
            && (id !in db.rows ==> forall h <- s.hosts(m) :: s.hooks.allows(h, Create, item))
            && forall c <- extra :: c in child.row && child.row[c] == extra[c]
  {
    hide Visible, Resolves, Written;
  }

  /** A save writes what the payload gives and what is injected; on an update every other column stays. */
  lemma OtherColumnsStay(s: Setup, db: Database, m: Model, instance: Saved, item: Item, extra: Row, c: Column)
    requires Save(s, db, m, Some(instance), item, extra).Done?
    ensures var Done(after, saved) := Save(s, db, m, Some(instance), item, extra);
            && saved.key == instance.key && after == db.Put(RowId(m, instance.key), saved.row)
            && (c !in item && c !in extra ==> (c in saved.row <==> c in instance.row))
            && (c !in item && c !in extra && c in instance.row ==> saved.row[c] == instance.row[c])
            && (c in extra ==> c in saved.row && saved.row[c] == extra[c])
            && (c in item && item[c].Id? && c !in extra && c !in IdentityColumns(s, m) ==>
                  c in saved.row && saved.row[c] == item[c])
  {
    hide Resolves, IdentityColumns;
  }

  lemma PutFramed(call: Call, now: Database, id: RowId, row: Row)
    requires call.Framed(now)
    requires id in call.before.rows && now.rows[id] == call.before.rows[id] ==> call.MayChange(id)
    ensures call.Framed(now.Put(id, row))
  {
    hide Call.MayChange;
    assert forall i <- call.before.rows :: i != id ==> now.Put(id, row).rows[i] == now.rows[i];
    if id in call.before.rows && now.rows[id] != call.before.rows[id] {
      assert call.MayChange(id);
    }
  }

  lemma RewritingMayChange(call: Call, r: Relation, item: Item, during: Database, id: RowId)
    requires call.Rewrites(r, item, during, id)
    ensures call.MayChange(id)
  {
  }

  /** Persisting an item keeps the frame when its relation allows rewriting the row it names. */
  lemma PersistFramed(call: Call, db: Database, r: Relation, item: Item, extra: Row, scopeChecked: bool)
    requires Allocates(call.s.hooks) && call.Framed(db) && db in call.States()
    requires r in call.s.nested && item in call.data.ItemsFor(r)
    requires var key := ChildKey(call.s, r.child, item);
             key.Some? ==> var id := RowId(r.child, key.value);
             && (id in call.before.rows && id in db.rows && db.rows[id] == call.before.rows[id] ==>
                 RelationAllows(call.s, call.before, call.instance, call.parent, r, id))
             && (scopeChecked && id in db.rows ==> Visible(call.s, db, id, true))
    requires Persist(call.s, db, r.field, r.child, item, extra, Lookup(db, r.child, ChildKey(call.s, r.child, item)),
        scopeChecked).Done?
    ensures var Done(after, child) := Persist(call.s, db, r.field, r.child, item, extra,
        Lookup(db, r.child, ChildKey(call.s, r.child, item)), scopeChecked);
            call.Framed(after) && after.links == db.links
  {
    hide Visible, Persist, ChildKey, RelationAllows, Data.ItemsFor, Call.Framed, Call.MayChange, Call.States;
    var key := ChildKey(call.s, r.child, item);
    PersistedRow(call.s, db, r.field, r.child, item, extra, Lookup(db, r.child, key), scopeChecked);
    var Done(_, child) := Persist(call.s, db, r.field, r.child, item, extra, Lookup(db, r.child, key), scopeChecked);
    var id := RowId(r.child, child.key);
    FramedKeeps(call, db, id);
    if id in call.before.rows && db.rows[id] == call.before.rows[id] {
      RewritingMayChange(call, r, item, db, id);
    }
    PutFramed(call, db, id, child.row);
  }

  lemma FramedKeeps(call: Call, db: Database, id: RowId)
    requires call.Framed(db)
    ensures id in call.before.rows ==> id in db.rows
  {
  }

  // ------------------------------------------------------------- one field after another

  lemma ForwardFramed(call: Call, db: Database, r: Relation)
    requires Allocates(call.s.hooks) && call.Framed(db) && db in call.States()
    requires r in call.s.nested && r.kind == Forward && call.data.Writes(r)
    requires ForwardValue(call.s, db, call.instance, r, call.data.ItemsFor(r)).Done?
    ensures var Done(after, _) := ForwardValue(call.s, db, call.instance, r, call.data.ItemsFor(r));
            call.Framed(after) && after.links == db.links
  {
    hide Call.States, Visible, Persist, ChildKey, Call.Framed, Allocates, IdentityColumns, HasUpdateHost;
    var item := call.data.ItemsFor(r)[0];
    var key := ChildKey(call.s, r.child, item);
    var current := CurrentTarget(call.instance, r.field);
    if !(key.Some? && (key.value.text != TextOf(current) || item.Keys <= IdentityColumns(call.s, r.child))) {
      if key.Some? { TextTellsTargets(current, key.value); }
      PersistFramed(call, db, r, item, map[], false);
    }
  }

  /** Comparing texts recognises the current target, and takes a row named "None" for a missing one. */
  lemma TextTellsTargets(current: Option<Key>, key: Key)
    ensures key.text == TextOf(current) <==> (current == Some(key) || (current == None && key.text == "None"))
  {
  }

  lemma ReverseChildFramed(call: Call, db: Database, r: Relation, item: Item)
    requires Allocates(call.s.hooks) && call.Framed(db) && db in call.States()
    requires r in call.s.nested && r.kind in {ReverseOne, ReverseMany} && item in call.data.ItemsFor(r)
    requires ReverseChild(call.s, db, r, call.parent, item).Done?
    ensures var Done(after, _) := ReverseChild(call.s, db, r, call.parent, item);
            call.Framed(after) && after.links == db.links
  {
    hide Call.States, Visible, Persist, ChildKey, Call.Framed, Allocates, HasUpdateHost, Data.ItemsFor;
    PersistFramed(call, db, r, item, map[r.owner := Id(call.parent)],
        Lookup(db, r.child, ChildKey(call.s, r.child, item)).Some?);
  }

  lemma SharedChildFramed(call: Call, db: Database, r: Relation, item: Item)
    requires Allocates(call.s.hooks) && call.Framed(db) && db in call.States()
    requires r in call.s.nested && r.kind == ManyToMany && item in call.data.ItemsFor(r)
    requires forall l <- db.links :: l.field == r.field ==> l in call.before.links
    requires SharedChild(call.s, db, r, call.parent, item).Done?
    ensures var Done(after, _) := SharedChild(call.s, db, r, call.parent, item);
            call.Framed(after) && after.links == db.links
  {
    hide Call.States, Visible, Persist, ChildKey, Call.Framed, Allocates, HasUpdateHost, Data.ItemsFor;
    var existing := Lookup(db, r.child, ChildKey(call.s, r.child, item));
    if !(existing.Some? && Link(r.field, call.parent, existing.value.key) !in db.links) {
      PersistFramed(call, db, r, item, map[], false);
    }
  }

  lemma {:induction false} ReverseChildrenFramed(call: Call, db: Database, r: Relation, items: seq<Item>)
    requires Allocates(call.s.hooks) && call.Framed(db)
    requires r in call.s.nested && r.kind in {ReverseOne, ReverseMany}
        && forall item <- items :: item in call.data.ItemsFor(r)
    requires ReverseStates(call.s, db, r, call.parent, items) <= call.States()
    requires ReverseChildren(call.s, db, r, call.parent, items).Done?
    ensures var Done(after, _) := ReverseChildren(call.s, db, r, call.parent, items);
            call.Framed(after) && after.links == db.links
    decreases |items|
  {
    hide Call.States, ReverseChild, Call.Framed, Allocates, Data.ItemsFor;
    if items != [] {
      ReverseChildFramed(call, db, r, items[0]);
      ReverseChildrenFramed(call, ReverseChild(call.s, db, r, call.parent, items[0]).db, r, items[1..]);
    }
  }

  lemma {:induction false} SharedChildrenFramed(call: Call, db: Database, r: Relation, items: seq<Item>)
    requires Allocates(call.s.hooks) && call.Framed(db)
    requires r in call.s.nested && r.kind == ManyToMany && forall item <- items :: item in call.data.ItemsFor(r)
    requires forall l <- db.links :: l.field == r.field ==> l in call.before.links
    requires SharedStates(call.s, db, r, call.parent, items) <= call.States()
    requires SharedChildren(call.s, db, r, call.parent, items).Done?
    ensures var Done(after, _) := SharedChildren(call.s, db, r, call.parent, items);
            call.Framed(after) && after.links == db.links
    decreases |items|
  {
    hide Call.States, SharedChild, Call.Framed, Allocates, Data.ItemsFor;
    if items != [] {
      SharedChildFramed(call, db, r, items[0]);
      SharedChildrenFramed(call, SharedChild(call.s, db, r, call.parent, items[0]).db, r, items[1..]);
    }
  }

  lemma AttachFramed(call: Call, db: Database, toCome: seq<Relation>)
    requires Allocates(call.s.hooks) && call.Framed(db) && call.LinksGrow(db, toCome)
    requires toCome != [] && toCome[0] in call.s.nested && DistinctFields(toCome)
    requires AttachStates(call.s, db, toCome[0], call.parent, call.data.ItemsFor(toCome[0])) <= call.States()
    requires Attach(call.s, db, toCome[0], call.parent, call.data.ItemsFor(toCome[0])).Done?
    ensures var Done(after, _) := Attach(call.s, db, toCome[0], call.parent, call.data.ItemsFor(toCome[0]));
            call.Framed(after) && call.LinksGrow(after, toCome[1..])
  {
    hide Call.States, SharedChildren, ReverseChildren, Call.Framed, Allocates, Data.ItemsFor;
    var r, items := toCome[0], call.data.ItemsFor(toCome[0]);
    match r.kind {
      case Forward =>
      case ManyToMany =>
        SharedChildrenFramed(call, db, r, items);
        var Done(after, children) := SharedChildren(call.s, db, r, call.parent, items);
        LinksAreNoRows(call, after, after.links + LinksTo(r.field, call.parent, children));
      case _ =>
        ReverseChildrenFramed(call, db, r, items);
    }
  }

  lemma LinksAreNoRows(call: Call, now: Database, links: set<Link>)
    requires call.Framed(now)
    ensures call.Framed(now.(links := links))
  {
  }

  lemma {:induction false} AttachAllFramed(call: Call, db: Database, toCome: seq<Relation>)
    requires Allocates(call.s.hooks) && call.Framed(db) && call.LinksGrow(db, toCome)
    requires (forall r <- toCome :: r in call.s.nested) && DistinctFields(toCome)
    requires AttachAllStates(call.s, db, toCome, call.parent, call.data) <= call.States()
    requires AttachAll(call.s, db, toCome, call.parent, call.data).Done?
    ensures var Done(after, _) := AttachAll(call.s, db, toCome, call.parent, call.data);
            call.Framed(after) && call.LinksGrow(after, [])
    decreases |toCome|
  {
    hide Call.States, Attach, Call.Framed, Allocates, Data.ItemsFor, Data.Writes;
    if toCome != [] {
      if toCome[0].kind == Forward || !call.data.Writes(toCome[0]) {
        AttachAllFramed(call, db, toCome[1..]);
      } else {
        AttachFramed(call, db, toCome);
        AttachAllFramed(call, Attach(call.s, db, toCome[0], call.parent, call.data.ItemsFor(toCome[0])).db,
            toCome[1..]);
      }
    }
  }

  lemma {:induction false} ForwardsFramed(call: Call, db: Database, relations: seq<Relation>, values: Item)
    requires Allocates(call.s.hooks) && call.Framed(db)
    requires forall r <- relations :: r in call.s.nested
    requires ForwardStates(call.s, db, call.instance, relations, call.data) <= call.States()
    requires Forwards(call.s, db, call.instance, relations, call.data, values).Done?
    ensures var Done(after, _) := Forwards(call.s, db, call.instance, relations, call.data, values);
            call.Framed(after) && after.links == db.links
    decreases |relations|
  {
    hide Call.States, ForwardValue, Call.Framed, Allocates, Data.ItemsFor, Data.Writes;
    if relations != [] {
      var r := relations[0];
      if r.kind != Forward || !call.data.Writes(r) {
        ForwardsFramed(call, db, relations[1..], values);
      } else {
        ItemsOfPayload(call.data, r);
        ForwardFramed(call, db, r);
        var Done(after, value) := ForwardValue(call.s, db, call.instance, r, call.data.ItemsFor(r));
        ForwardsFramed(call, after, relations[1..], values[r.field := value]);
      }
    }
  }

  lemma ItemsOfPayload(data: Data, r: Relation)
    requires data.Writes(r)
    ensures data.ItemsFor(r) != []
  {
  }

  // ----------------------------------------------------------------------- the theorem

  lemma FramedAtFirst(call: Call)
    ensures call.Framed(call.before)
  {
  }

  lemma SavedRow(s: Setup, db: Database, m: Model, instance: Option<Saved>, item: Item, extra: Row)
    requires Save(s, db, m, instance, item, extra).Done?
    ensures var Done(after, saved) := Save(s, db, m, instance, item, extra);
            && after == db.Put(RowId(m, saved.key), saved.row)
            && (instance.Some? ==> saved.key == instance.value.key)
  {
    hide Resolves, Written;
  }

  /** A completed save loses no row, changes a row that existed before only when it is the parent's own or
      a relation, the scopes and the permissions allow its rewriting, and adds links of its parent only. */
  lemma RowFrame(s: Setup, db: Database, instance: Option<Saved>, data: Data)
    requires Allocates(s.hooks) && DistinctFields(s.nested)
    requires SaveNested(s, db, instance, data).Done?
    ensures var Done(after, parent) := SaveNested(s, db, instance, data);
            var call := Call(s, db, instance, data, parent.key);
            call.Framed(after) && call.LinksGrow(after, [])
  {
    hide Call.Framed, Allocates, RefusedLink, Forwards, AttachAll, Save, ForwardStates, AttachAllStates;
    var Done(_, parent) := SaveNested(s, db, instance, data);
    var call := Call(s, db, instance, data, parent.key);
    FramedAtFirst(call);
    ForwardsFramed(call, db, s.nested, data.values);
    var Done(linked, values) := Forwards(s, db, instance, s.nested, data, data.values);
    var parented := Save(s, linked, s.model, instance, values, map[]).db;
    SavedRow(s, linked, s.model, instance, values, map[]);
    PutFramed(call, linked, RowId(s.model, parent.key), parent.row);
    AttachAllFramed(call, parented, s.nested);
  }

  /** A row that items name only where their relations do not allow rewriting it, as when they link it, has
      its old contents after the whole save. */
  lemma RowsOnlyLinkedAreUntouched(s: Setup, db: Database, instance: Option<Saved>, data: Data, id: RowId)
    requires Allocates(s.hooks) && DistinctFields(s.nested)
    requires SaveNested(s, db, instance, data).Done?
    requires id in db.rows && id != RowId(s.model, SaveNested(s, db, instance, data).value.key)
    requires var parent := SaveNested(s, db, instance, data).value.key;
             forall r <- s.nested, item <- data.ItemsFor(r) | r.child == id.model
                 && ChildKey(s, r.child, item) == Some(id.key) ::
               !RelationAllows(s, db, instance, parent, r, id)
    ensures var after := SaveNested(s, db, instance, data).db;
            id in after.rows && after.rows[id] == db.rows[id]
  {
    hide Allocates, SaveNested, SaveStates, RelationAllows, ChildKey, Data.ItemsFor, Visible;
    RowFrame(s, db, instance, data);
  }

  // --------------------------------------------------------- the row that is named "None"

  /** The item is a link and nothing else: nothing is written, and the column gets the key when every
      update host shows the row; otherwise the key is refused. */
  predicate OnlyLinks(s: Setup, db: Database, instance: Option<Saved>, r: Relation, item: Item, key: Key) {
    ForwardValue(s, db, instance, r, [item])
      == if SeenBy(s, db, RowId(r.child, key), Serving(s.hosts(r.child), Update)) then Done(db, Id(key))
         else Failed(AtField(r.field, InvalidKey(key)))
  }

  /** An item naming a row that is not the current target only links it, whatever the hooks are, exactly
      when there is a target or the key does not read "None". */
  lemma NamedRowsAreOnlyLinked(s: Setup, db: Database, instance: Option<Saved>, r: Relation, item: Item, key: Key)
    requires ChildKey(s, r.child, item) == Some(key) && CurrentTarget(instance, r.field) != Some(key)
    ensures (forall hooks: Hooks :: OnlyLinks(s.(hooks := hooks), db, instance, r, item, key))
       <==> CurrentTarget(instance, r.field).Some? || key.text != "None"
  {
    hide Persist, OnlyLinks;
    var current := CurrentTarget(instance, r.field);
    TextTellsTargets(current, key);
    if current.Some? || key.text != "None" {
      forall hooks: Hooks ensures OnlyLinks(s.(hooks := hooks), db, instance, r, item, key) {
        LinkBranch(s.(hooks := hooks), db, instance, r, item, key);
      }
    } else {
      var hooks := s.hooks.(clean := (db: Database, m: Model, existing: Option<Saved>, given: Item) => Invalid([]));
      var rejecting := s.(hooks := hooks);
      if item.Keys <= IdentityColumns(s, r.child) {
        NamedNoneIsNoLink(rejecting, db, instance, r, item);
      } else {
        RejectedIsNoLink(rejecting, db, instance, r, item, key);
      }
      assert !OnlyLinks(rejecting, db, instance, r, item, key);
    }
  }

  lemma LinkBranch(s: Setup, db: Database, instance: Option<Saved>, r: Relation, item: Item, key: Key)
    requires ChildKey(s, r.child, item) == Some(key) && key.text != TextOf(CurrentTarget(instance, r.field))
    ensures OnlyLinks(s, db, instance, r, item, key)
  {
    hide ChildKey, Persist;
  }

  /** Without a target, an item that holds nothing but the key "None" is no link: the column is emptied. */
  lemma NamedNoneEmptiesTheColumn(s: Setup, db: Database, instance: Option<Saved>, r: Relation, item: Item)
    requires ChildKey(s, r.child, item) == Some(Key("None")) && CurrentTarget(instance, r.field) == None
    requires item.Keys <= IdentityColumns(s, r.child)
    ensures ForwardValue(s, db, instance, r, [item]) == Done(db, Null)
  {
    hide ChildKey, Persist;
  }

  lemma NamedNoneIsNoLink(s: Setup, db: Database, instance: Option<Saved>, r: Relation, item: Item)
    requires ChildKey(s, r.child, item) == Some(Key("None")) && CurrentTarget(instance, r.field) == None
    requires item.Keys <= IdentityColumns(s, r.child)
    ensures !OnlyLinks(s, db, instance, r, item, Key("None"))
  {
    hide ChildKey;
    NamedNoneEmptiesTheColumn(s, db, instance, r, item);
  }

  /** Without a target, an item that holds more is written, so validation has a say in it. */
  lemma RejectedIsNoLink(s: Setup, db: Database, instance: Option<Saved>, r: Relation, item: Item, key: Key)
    requires ChildKey(s, r.child, item) == Some(key) && key.text == TextOf(CurrentTarget(instance, r.field))
    requires !(item.Keys <= IdentityColumns(s, r.child))
    requires forall m, existing, given :: s.hooks.clean(db, m, existing, given) == Invalid([])
    ensures !OnlyLinks(s, db, instance, r, item, key)
  {
    hide ChildKey, Visible, IdentityColumns;
    var o := Persist(s, db, r.field, r.child, item, map[], Lookup(db, r.child, Some(key)), false);
    RejectedPersist(s, db, r.field, r.child, item, key);
    assert ForwardValue(s, db, instance, r, [item]) == Failed(o.failure);
  }

  lemma RejectedPersist(s: Setup, db: Database, field: Column, m: Model, item: Item, key: Key)
    requires ChildKey(s, m, item) == Some(key)
    requires forall m, existing, given :: s.hooks.clean(db, m, existing, given) == Invalid([])
    ensures var o := Persist(s, db, field, m, item, map[], Lookup(db, m, Some(key)), false);
            o.Failed? && o.failure != AtField(field, InvalidKey(key))
  {
    hide ChildKey, Visible;
    assert Missing(field, key).errors[0].problem == NotFound(key);
    assert Prefixed(field, []) == [];
  }

  const AUTHOR := Relation(Column("author"), Model(1), Forward, Column(""), false)
  ghost const ONE_AUTHOR := Setup(Model(0), [AUTHOR], [AUTHOR], m => IDENTITY, m => [], (m, c) => None, PERMISSIVE)
  const NONE_ROW := RowId(Model(1), Key("None"))

  /** A concrete case: a create that names the row "None" rewrites it. */
  lemma RowNamedNoneIsRewritten(name: Column, was: Datum, now: string)
    requires name != IDENTITY
    ensures var item: Item := map[IDENTITY := Id(Key("None")), name := Scalar(now)];
            var outcome := ForwardValue(ONE_AUTHOR, Database(map[NONE_ROW := map[name := was]], {}), None, AUTHOR,
                [item]);
            outcome.Done? && outcome.db.rows[NONE_ROW] == map[name := Scalar(now)]
  {
    var item: Item := map[IDENTITY := Id(Key("None")), name := Scalar(now)];
    var db := Database(map[NONE_ROW := map[name := was]], {});
    assert ChildKey(ONE_AUTHOR, Model(1), item) == Some(Key("None"));
    assert name in item.Keys && !(item.Keys <= IdentityColumns(ONE_AUTHOR, Model(1)));
    var existing := Lookup(db, Model(1), Some(Key("None")));
    assert existing.Some?;
    assert Written(ONE_AUTHOR, Model(1), item, item) == map[name := Scalar(now)];
    var row := existing.value.row + map[name := Scalar(now)] + map[];
    assert row == map[name := Scalar(now)];
    assert Serving(ONE_AUTHOR.hosts(Model(1)), Update) == [];
    assert Save(ONE_AUTHOR, db, Model(1), existing, item, map[])
        == Done(db.Put(NONE_ROW, row), Saved(Key("None"), row));
  }
}
