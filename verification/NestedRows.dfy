/** How many rows a nested save creates, and what its forward columns hold. */
module NestedRows {
  import opened Options
  import opened NestedInputs
  import opened NestedWrites
  import opened NestedFrame
  import opened NestedEffects

  // ------------------------------------------------------------------------ row counts

  /** Items that name no row; each of them creates one. */
  function Unnamed(s: Setup, m: Model, items: seq<Item>): nat {
    if items == [] then 0
    else (if ChildKey(s, m, items[0]).None? then 1 else 0) + Unnamed(s, m, items[1..])
  }

  function UnnamedIn(s: Setup, relations: seq<Relation>, data: Data, forward: bool): nat {
    if relations == [] then 0
    else (if (relations[0].kind == Forward) == forward then Unnamed(s, relations[0].child, data.ItemsFor(relations[0]))
          else 0)
         + UnnamedIn(s, relations[1..], data, forward)
  }

  lemma PutSize(db: Database, id: RowId, row: Row)
    ensures |db.Put(id, row).rows.Keys| == |db.rows.Keys| + if id in db.rows then 0 else 1
  {
    assert db.Put(id, row).rows.Keys == db.rows.Keys + {id};
  }

  lemma PersistCreates(s: Setup, db: Database, field: Column, m: Model, item: Item, extra: Row, checked: bool)
    requires Allocates(s.hooks)
    requires Persist(s, db, field, m, item, extra, Lookup(db, m, ChildKey(s, m, item)), checked).Done?
    ensures var after := Persist(s, db, field, m, item, extra, Lookup(db, m, ChildKey(s, m, item)), checked).db;
            |after.rows.Keys| == |db.rows.Keys| + Unnamed(s, m, [item])
  {
    hide Persist, Visible, ChildKey;
    var existing := Lookup(db, m, ChildKey(s, m, item));
    PersistedRow(s, db, field, m, item, extra, existing, checked);
    var Done(_, child) := Persist(s, db, field, m, item, extra, existing, checked);
    PutSize(db, RowId(m, child.key), child.row);
  }

  lemma {:induction false} ReverseChildrenCreate(s: Setup, db: Database, r: Relation, parent: Key, items: seq<Item>)
    requires Allocates(s.hooks)
    requires ReverseChildren(s, db, r, parent, items).Done?
    ensures |ReverseChildren(s, db, r, parent, items).db.rows.Keys| == |db.rows.Keys| + Unnamed(s, r.child, items)
    decreases |items|
  {
    hide Persist, Visible, ChildKey, Allocates, Objection;
    if items != [] {
      var existing := Lookup(db, r.child, ChildKey(s, r.child, items[0]));
      PersistCreates(s, db, r.field, r.child, items[0], map[r.owner := Id(parent)], existing.Some?);
      ReverseChildrenCreate(s, ReverseChild(s, db, r, parent, items[0]).db, r, parent, items[1..]);
    }
  }

  lemma {:induction false} SharedChildrenCreate(s: Setup, db: Database, r: Relation, parent: Key, items: seq<Item>)
    requires Allocates(s.hooks)
    requires SharedChildren(s, db, r, parent, items).Done?
    ensures |SharedChildren(s, db, r, parent, items).db.rows.Keys| == |db.rows.Keys| + Unnamed(s, r.child, items)
    decreases |items|
  {
    hide Persist, Visible, ChildKey, Allocates;
    if items != [] {
      var existing := Lookup(db, r.child, ChildKey(s, r.child, items[0]));
      if !(existing.Some? && Link(r.field, parent, existing.value.key) !in db.links) {
        PersistCreates(s, db, r.field, r.child, items[0], map[], false);
      }
      SharedChildrenCreate(s, SharedChild(s, db, r, parent, items[0]).db, r, parent, items[1..]);
    }
  }

  lemma {:induction false} AttachAllCreate(s: Setup, db: Database, relations: seq<Relation>, parent: Key, data: Data)
    requires Allocates(s.hooks)
    requires AttachAll(s, db, relations, parent, data).Done?
    ensures |AttachAll(s, db, relations, parent, data).db.rows.Keys|
        == |db.rows.Keys| + UnnamedIn(s, relations, data, false)
    decreases |relations|
  {
    hide ReverseChildren, SharedChildren, Allocates;
    if relations != [] {
      var r := relations[0];
      if r.kind == Forward || !data.Writes(r) {
        AttachAllCreate(s, db, relations[1..], parent, data);
      } else {
        if r.kind == ManyToMany {
          SharedChildrenCreate(s, db, r, parent, data.ItemsFor(r));
        } else {
          ReverseChildrenCreate(s, db, r, parent, data.ItemsFor(r));
        }
        AttachAllCreate(s, Attach(s, db, r, parent, data.ItemsFor(r)).db, relations[1..], parent, data);
      }
    }
  }

  lemma {:induction false} ForwardsCreate(s: Setup, db: Database, instance: Option<Saved>,
      relations: seq<Relation>, data: Data, values: Item)
    requires Allocates(s.hooks)
    requires Forwards(s, db, instance, relations, data, values).Done?
    ensures |Forwards(s, db, instance, relations, data, values).db.rows.Keys|
        == |db.rows.Keys| + UnnamedIn(s, relations, data, true)
    decreases |relations|
  {
    hide Persist, Visible, ChildKey, Allocates, TextOf, IdentityColumns;
    if relations != [] {
      var r := relations[0];
      if r.kind != Forward || !data.Writes(r) {
        ForwardsCreate(s, db, instance, relations[1..], data, values);
      } else {
        ForwardCreates(s, db, instance, r, data.ItemsFor(r));
        var Done(after, value) := ForwardValue(s, db, instance, r, data.ItemsFor(r));
        ForwardsCreate(s, after, instance, relations[1..], data, values[r.field := value]);
      }
    }
  }

  lemma ForwardCreates(s: Setup, db: Database, instance: Option<Saved>, r: Relation, items: seq<Item>)
    requires Allocates(s.hooks)
    requires items != [] && ForwardValue(s, db, instance, r, items).Done?
    ensures |ForwardValue(s, db, instance, r, items).db.rows.Keys| == |db.rows.Keys| + Unnamed(s, r.child, items)
  {
    hide Persist, Visible, ChildKey, Allocates;
    var item := items[0];
    assert items == [item];
    var key := ChildKey(s, r.child, item);
    var current := CurrentTarget(instance, r.field);
    if !(key.Some? && (key.value.text != TextOf(current) || item.Keys <= IdentityColumns(s, r.child))) {
      PersistCreates(s, db, r.field, r.child, item, map[], false);
    }
  }

  /** A completed save creates one row for every item that names none, besides a parent that is new. */
  lemma RowsCreated(s: Setup, db: Database, instance: Option<Saved>, data: Data)
    requires Allocates(s.hooks)
    requires SaveNested(s, db, instance, data).Done?
    ensures var Done(after, parent) := SaveNested(s, db, instance, data);
            var Done(linked, _) := Forwards(s, db, instance, s.nested, data, data.values);
            |after.rows.Keys| == |db.rows.Keys| + UnnamedIn(s, s.nested, data, true)
                + UnnamedIn(s, s.nested, data, false)
                                 + if RowId(s.model, parent.key) in linked.rows then 0 else 1
    ensures var Done(after, parent) := SaveNested(s, db, instance, data);
            var Done(linked, values) := Forwards(s, db, instance, s.nested, data, data.values);
            var id := RowId(s.model, parent.key);
            && (instance.Some? && RowId(s.model, instance.value.key) in db.rows ==> id in linked.rows)
            && (instance.None? && NamedIn(values, s.keyColumn(s.model)).None? ==> id !in linked.rows)
  {
    hide Allocates, RefusedLink, Forwards, AttachAll, Save;
    var Done(linked, values) := Forwards(s, db, instance, s.nested, data, data.values);
    var Done(parented, parent) := Save(s, linked, s.model, instance, values, map[]);
    ForwardsCreate(s, db, instance, s.nested, data, data.values);
    SavedRow(s, linked, s.model, instance, values, map[]);
    PutSize(linked, RowId(s.model, parent.key), parent.row);
    AttachAllCreate(s, parented, s.nested, parent.key, data);
    ParentIsNew(s, linked, instance, values);
    var call := Call(s, db, instance, data, parent.key);
    FramedAtFirst(call);
    ForwardsFramed(call, db, s.nested, data.values);
  }

  lemma ParentIsNew(s: Setup, db: Database, instance: Option<Saved>, values: Item)
    requires Allocates(s.hooks)
    requires Save(s, db, s.model, instance, values, map[]).Done?
    ensures var key := Save(s, db, s.model, instance, values, map[]).value.key;
            && (instance.Some? ==> key == instance.value.key)
            && (instance.None? && NamedIn(values, s.keyColumn(s.model)).None? ==> RowId(s.model, key) !in db.rows)
  {
    hide Resolves, Written;
  }

  // -------------------------------------------------------------------- forward columns

  /** What a forward field's column gets from its item: the key the item names, or a row that did not
      exist before. The odd case out is a row named "None" while there is no target. */
  predicate ForwardGets(s: Setup, before: Database, instance: Option<Saved>, r: Relation, item: Item, value: Datum) {
    match ChildKey(s, r.child, item)
    case Some(key) => value == Id(key) || (CurrentTarget(instance, r.field) == None && key.text == "None")
    case None => value.Id? && RowId(r.child, value.key) !in before.rows
  }

  lemma ForwardValueGets(s: Setup, db: Database, instance: Option<Saved>, r: Relation, items: seq<Item>)
    requires Allocates(s.hooks)
    requires items != [] && ForwardValue(s, db, instance, r, items).Done?
    ensures |items| == 1
    ensures var Done(after, value) := ForwardValue(s, db, instance, r, items);
            ForwardGets(s, db, instance, r, items[0], value) && Grown(db, after)
  {
    hide Persist, Visible, ChildKey, Allocates;
    var item := items[0];
    var key := ChildKey(s, r.child, item);
    var current := CurrentTarget(instance, r.field);
    if key.Some? { TextTellsTargets(current, key.value); }
    if !(key.Some? && (key.value.text != TextOf(current) || item.Keys <= IdentityColumns(s, r.child))) {
      PersistedRow(s, db, r.field, r.child, item, map[], Lookup(db, r.child, key), false);
    }
  }

  lemma {:induction false} ForwardsLeave(s: Setup, db: Database, instance: Option<Saved>,
      relations: seq<Relation>, data: Data, values: Item, c: Column)
    requires Forwards(s, db, instance, relations, data, values).Done?
    requires c in values && forall r <- relations :: r.field != c
    ensures var end := Forwards(s, db, instance, relations, data, values).value;
            c in end && end[c] == values[c]
    decreases |relations|
  {
    hide ForwardValue;
    if relations != [] {
      var r := relations[0];
      if r.kind != Forward || !data.Writes(r) {
        ForwardsLeave(s, db, instance, relations[1..], data, values, c);
      } else {
        var Done(after, value) := ForwardValue(s, db, instance, r, data.ItemsFor(r));
        ForwardsLeave(s, after, instance, relations[1..], data, values[r.field := value], c);
      }
    }
  }

  lemma {:induction false} ForwardsGet(s: Setup, db: Database, instance: Option<Saved>,
      relations: seq<Relation>, data: Data, values: Item, r: Relation)
    requires Allocates(s.hooks) && DistinctFields(relations)
    requires Forwards(s, db, instance, relations, data, values).Done?
    requires r in relations && r.kind == Forward && data.Writes(r)
    ensures |data.ItemsFor(r)| == 1
    ensures var end := Forwards(s, db, instance, relations, data, values).value;
            r.field in end && ForwardGets(s, db, instance, r, data.ItemsFor(r)[0], end[r.field])
    decreases |relations|
  {
    hide ForwardValue, Data.ItemsFor, Data.Writes, Allocates, CurrentTarget, ChildKey;
    var head := relations[0];
    if head.kind != Forward || !data.Writes(head) {
      ForwardsGet(s, db, instance, relations[1..], data, values, r);
    } else {
      ItemsOfPayload(data, head);
      ForwardValueGets(s, db, instance, head, data.ItemsFor(head));
      var Done(after, value) := ForwardValue(s, db, instance, head, data.ItemsFor(head));
      if r == head {
        ForwardsLeave(s, after, instance, relations[1..], data, values[r.field := value], r.field);
      } else {
        ForwardsGet(s, after, instance, relations[1..], data, values[head.field := value], r);
      }
    }
  }

  /** The parent is saved pointing at what its forward fields named or created. */
  lemma ForwardColumnsAreSet(s: Setup, db: Database, instance: Option<Saved>, data: Data, r: Relation)
    requires Allocates(s.hooks) && DistinctFields(s.nested)
    requires SaveNested(s, db, instance, data).Done?
    requires r in s.nested && r.kind == Forward && data.Writes(r)
    requires r.field !in IdentityColumns(s, s.model)
    ensures |data.ItemsFor(r)| == 1
    ensures var item, parent := data.ItemsFor(r)[0], SaveNested(s, db, instance, data).value;
            (ChildKey(s, r.child, item) == Some(Key("None")) && CurrentTarget(instance, r.field) == None)
            || (r.field in parent.row && ForwardGets(s, db, instance, r, item, parent.row[r.field]))
  {
    hide Allocates, RefusedLink, Forwards, AttachAll, Save, ChildKey, CurrentTarget, Data.ItemsFor, Data.Writes,
         IdentityColumns, DistinctFields;
    var Done(linked, values) := Forwards(s, db, instance, s.nested, data, data.values);
    ForwardsGet(s, db, instance, s.nested, data, data.values, r);
    if values[r.field].Id? {
      ReferencesAreWritten(s, linked, s.model, instance, values, r.field);
    }
  }

  lemma ReferencesAreWritten(s: Setup, db: Database, m: Model, instance: Option<Saved>, item: Item, c: Column)
    requires Save(s, db, m, instance, item, map[]).Done?
    requires c in item && item[c].Id? && c !in IdentityColumns(s, m)
    ensures var row := Save(s, db, m, instance, item, map[]).value.row;
            c in row && row[c] == item[c]
  {
    hide Resolves, IdentityColumns;
  }
}
