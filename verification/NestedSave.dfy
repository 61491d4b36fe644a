/** The nested save as it runs: loops over fields and items that write the database in place, inside a
    boundary that restores it on failure. */
module NestedSave {
  import opened Options
  import opened NestedInputs
  import opened NestedWrites
  import opened NestedStores

  datatype Result<T> = Success(value: T) | Failure(failure: Failure)

  /** A method that ran like an outcome says: it returned its value or failure, and left its database. */
  predicate Ran<T(==)>(o: Outcome<T>, db: Database, result: Result<T>) {
    match o
    case Done(after, value) => db == after && result == Success(value)
    case Failed(f) => result == Failure(f)
  }

  function Prepend(keys: seq<Key>, o: Outcome<seq<Key>>): Outcome<seq<Key>> {
    match o
    case Done(after, rest) => Done(after, keys + rest)
    case Failed(f) => Failed(f)
  }

  lemma PrependJoin(keys: seq<Key>, key: Key, o: Outcome<seq<Key>>)
    ensures Prepend([], o) == o
    ensures Prepend(keys + [key], o) == Prepend(keys, Prepend([key], o))
  {
    if o.Done? {
      assert [] + o.value == o.value;
      assert keys + [key] + o.value == keys + ([key] + o.value);
    }
  }

  lemma NothingServes(op: ModelOperation)
    ensures Serving([], op) == []
  {
  }

  lemma {:induction false} ServingSnoc(hosts: seq<Host>, h: Host, op: ModelOperation)
    ensures Serving(hosts + [h], op) == Serving(hosts, op) + IfServing(h, op)
  {
    hide IfServing;
    if hosts == [] {
      assert [] + [h] == [h] && [h][1..] == [];
    } else {
      ServingSnoc(hosts[1..], h, op);
      assert (hosts + [h])[1..] == hosts[1..] + [h] && (hosts + [h])[0] == hosts[0];
    }
  }

  /** The nested fields whose children wait for the parent's key. */
  function Deferred(relations: seq<Relation>, data: Data): seq<Relation> {
    if relations == [] then [] else DeferredAlone(relations[0], data) + Deferred(relations[1..], data)
  }

  function DeferredAlone(r: Relation, data: Data): seq<Relation> {
    if r.kind != Forward && data.Writes(r) then [r] else []
  }

  lemma {:induction false} DeferredSnoc(relations: seq<Relation>, r: Relation, data: Data)
    ensures Deferred(relations + [r], data) == Deferred(relations, data) + DeferredAlone(r, data)
  {
    hide DeferredAlone;
    if relations == [] {
      assert [] + [r] == [r] && [r][1..] == [];
    } else {
      DeferredSnoc(relations[1..], r, data);
      assert (relations + [r])[1..] == relations[1..] + [r];
      assert (relations + [r])[0] == relations[0];
    }
  }

  lemma NothingDeferred(data: Data)
    ensures Deferred([], data) == []
  {
  }

  /** Attaching the deferred fields alone is attaching all of them. */
  lemma {:induction false} DeferredIsEnough(s: Setup, db: Database, relations: seq<Relation>, parent: Key, data: Data)
    ensures AttachAll(s, db, Deferred(relations, data), parent, data) == AttachAll(s, db, relations, parent, data)
    decreases |relations|
  {
    hide Attach, Data.Writes, Data.ItemsFor;
    if relations != [] {
      var r := relations[0];
      if r.kind == Forward || !data.Writes(r) {
        assert Deferred(relations, data) == Deferred(relations[1..], data);
        DeferredIsEnough(s, db, relations[1..], parent, data);
      } else {
        assert Deferred(relations, data)[0] == r && Deferred(relations, data)[1..] == Deferred(relations[1..], data);
        var o := Attach(s, db, r, parent, data.ItemsFor(r));
        if o.Done? { DeferredIsEnough(s, o.db, relations[1..], parent, data); }
      }
    }
  }

  lemma NothingLinks(s: Setup, db: Database, instance: Option<Saved>, r: Relation)
    ensures LinkedByItems(s, db, instance, r, []) == []
  {
  }

  lemma {:induction false} LinkedSnoc(s: Setup, db: Database, instance: Option<Saved>, r: Relation,
      items: seq<Item>, item: Item)
    ensures LinkedByItems(s, db, instance, r, items + [item])
         == LinkedByItems(s, db, instance, r, items) + LinkedBy(s, db, instance, r, item)
    decreases |items|
  {
    hide LinkedBy;
    if items == [] {
      assert [] + [item] == [item] && [item][1..] == [];
    } else {
      LinkedSnoc(s, db, instance, r, items[1..], item);
      assert (items + [item])[1..] == items[1..] + [item] && (items + [item])[0] == items[0];
    }
  }

  class NestedWriter {
    const s: Setup
    var db: Database

    constructor (s: Setup, db: Database)
      ensures this.s == s && this.db == db
    {
      this.s, this.db := s, db;
    }

    /** The hosts serving an operation, in declaration order. */
    method HostsServing(m: Model, op: ModelOperation) returns (serving: seq<Host>)
      ensures serving == Serving(s.hosts(m), op)
    {
      hide Serving, Serves;
      var hosts := s.hosts(m);
      serving := [];
      assert Serving(hosts[..0], op) == [] by { NothingServes(op); }
      for i := 0 to |hosts|
        invariant serving == Serving(hosts[..i], op)
      {
        ServingSnoc(hosts[..i], hosts[i], op);
        assert hosts[..i + 1] == hosts[..i] + [hosts[i]];
        if Serves(hosts[i], op) { serving := serving + [hosts[i]]; }
      }
      assert hosts[..|hosts|] == hosts;
    }

    /** Refuses a key that some update host, or the output type when asked, does not show. */
    method RejectHiddenRow(field: Column, m: Model, key: Key, outputScope: bool) returns (refusal: Option<Failure>)
      ensures refusal == if Visible(s, db, RowId(m, key), outputScope) then None else Some(Missing(field, key))
    {
      var id := RowId(m, key);
      var serving := HostsServing(m, Update);
      for i := 0 to |serving|
        invariant SeenBy(s, db, id, serving[..i])
      {
        if id !in db.rows || !s.hooks.sees(serving[i], db, id) {
          assert serving[i] in serving;
          return Some(Missing(field, key));
        }
        assert serving[..i + 1] == serving[..i] + [serving[i]];
      }
      assert serving[..|serving|] == serving;
      if outputScope && s.hooks.scoped(m) && (id !in db.rows || !s.hooks.exposes(db, id)) {
        return Some(Missing(field, key));
      }
      return None;
    }

    /** Validates and writes one row. */
    method SaveObject(m: Model, instance: Option<Saved>, item: Item, extra: Row) returns (result: Result<Saved>)
      modifies `db
      ensures Ran(Save(s, old(db), m, instance, item, extra), db, result)
      ensures result.Failure? ==> db == old(db)
    {
      hide Resolves, Written;
      var cleaned := s.hooks.clean(db, m, instance, item);
      if cleaned.Invalid? { return Failure(Refused(cleaned.errors)); }
      var was := if instance.Some? then instance.value.row else s.hooks.defaults(m);
      var row := was + Written(s, m, item, cleaned.values) + extra;
      var key := if instance.Some? then instance.value.key else NewKey(s, db, m, item);
      var before := db;
      db := db.Put(RowId(m, key), row);
      if !Resolves(s, db, m, row) {
        db := before;
        return Failure(Refused([FieldError([], Rejected("a reference names no row"))]));
      }
      return Success(Saved(key, row));
    }

    /** Creates or updates one child; every host of its model has to grant it. `lookup` hands over the row
        the item names when the caller has looked it up. */
    method PersistChild(field: Column, m: Model, item: Item, extra: Row, lookup: Option<Option<Saved>>,
        scopeChecked: bool)
      returns (result: Result<Saved>)
      requires lookup.Some? ==> lookup.value == Lookup(db, m, ChildKey(s, m, item))
      modifies `db
      ensures Ran(Persist(s, old(db), field, m, item, extra, Lookup(old(db), m, ChildKey(s, m, item)), scopeChecked),
          db, result)
      ensures result.Failure? ==> db == old(db)
    {
      hide Save, Visible, ChildKey;
      var key := ChildKey(s, m, item);
      var existing := if lookup.Some? then lookup.value else Lookup(db, m, key);
      if existing.None? && key.Some? { return Failure(Missing(field, key.value)); }
      if existing.Some? && !scopeChecked {
        var refusal := RejectHiddenRow(field, m, key.value, true);
        if refusal.Some? { return Failure(refusal.value); }
      }
      var denying := Authorize(m, if existing.Some? then Update else Create, item);
      if denying.Some? { return Failure(Denied(denying.value)); }
      result := SaveObject(m, existing, item, extra);
      if result.Failure? && result.failure.Refused? {
        result := Failure(Refused(Prefixed(field, result.failure.errors)));
      }
    }

    /** Asks the hosts in turn; the first to deny ends the save. */
    method Authorize(m: Model, op: ModelOperation, item: Item) returns (denying: Option<Host>)
      ensures denying == FirstDenying(s, s.hosts(m), op, item)
    {
      var hosts := s.hosts(m);
      for i := 0 to |hosts|
        invariant FirstDenying(s, hosts, op, item) == FirstDenying(s, hosts[i..], op, item)
      {
        if !s.hooks.allows(hosts[i], op, item) { return Some(hosts[i]); }
        assert hosts[i..][1..] == hosts[i + 1..];
      }
      return None;
    }

    method PersistReverseChild(r: Relation, parent: Key, item: Item) returns (result: Result<Saved>)
      modifies `db
      ensures Ran(ReverseChild(s, old(db), r, parent, item), db, result)
    {
      hide Persist, Visible, ChildKey;
      var existing := Lookup(db, r.child, ChildKey(s, r.child, item));
      if existing.Some? {
        var refusal := RejectHiddenRow(r.field, r.child, existing.value.key, true);
        if refusal.Some? { return Failure(refusal.value); }
        var owner := OwnerOf(existing.value.row, r.owner);
        if owner.Some? && owner.value != parent { return Failure(AtField(r.field, NotOwned(existing.value.key))); }
        if r.nullable && owner.None? {
          var serving := HostsServing(r.child, Update);
          if serving == [] { return Failure(AtField(r.field, NeedsUpdateHost)); }
        }
      }
      result := PersistChild(r.field, r.child, item, map[r.owner := Id(parent)], Some(existing), existing.Some?);
    }

    method PersistSharedChild(r: Relation, parent: Key, item: Item) returns (result: Result<Saved>)
      modifies `db
      ensures Ran(SharedChild(s, old(db), r, parent, item), db, result)
    {
      hide Persist, Visible, ChildKey;
      var existing := Lookup(db, r.child, ChildKey(s, r.child, item));
      if existing.Some? && Link(r.field, parent, existing.value.key) !in db.links {
        var refusal := RejectHiddenRow(r.field, r.child, existing.value.key, false);
        if refusal.Some? { return Failure(refusal.value); }
        return Success(existing.value);
      }
      result := PersistChild(r.field, r.child, item, map[], Some(existing), false);
    }

    /** Persists the children of one field and ties them to the saved parent. */
    method AttachChildren(r: Relation, parent: Key, items: seq<Item>) returns (result: Result<seq<Key>>)
      requires r.kind != Forward
      modifies `db
      ensures Ran(Attach(s, old(db), r, parent, items), db, result)
    {
      hide ReverseChild, SharedChild;
      if r.kind == ReverseOne && |items| > 1 { return Failure(AtField(r.field, OneToOneOnly)); }
      var children: seq<Key> := [];
      assert items[|items|..] == [];
      PrependJoin([], parent, ReverseChildren(s, db, r, parent, items));
      PrependJoin([], parent, SharedChildren(s, db, r, parent, items));
      if r.kind != ManyToMany {
        for i := 0 to |items|
          invariant ReverseChildren(s, old(db), r, parent, items)
              == Prepend(children, ReverseChildren(s, db, r, parent, items[i..]))
        {
          assert items[i..][1..] == items[i + 1..];
          var child := PersistReverseChild(r, parent, items[i]);
          if child.Failure? { return Failure(child.failure); }
          PrependJoin(children, child.value.key, ReverseChildren(s, db, r, parent, items[i + 1..]));
          children := children + [child.value.key];
        }
      } else {
        for i := 0 to |items|
          invariant SharedChildren(s, old(db), r, parent, items)
              == Prepend(children, SharedChildren(s, db, r, parent, items[i..]))
        {
          assert items[i..][1..] == items[i + 1..];
          var child := PersistSharedChild(r, parent, items[i]);
          if child.Failure? { return Failure(child.failure); }
          PrependJoin(children, child.value.key, SharedChildren(s, db, r, parent, items[i + 1..]));
          children := children + [child.value.key];
        }
        db := db.(links := db.links + LinksTo(r.field, parent, children));
      }
      assert children + [] == children;
      return Success(children);
    }

    /** The keys a relation's input links rather than writes. */
    method DestinationKeys(instance: Option<Saved>, r: Relation, data: Data) returns (keys: seq<Key>)
      ensures keys == Linked(s, db, instance, r, data)
    {
      if !data.Writes(r) { return Linked(s, db, instance, r, data); }
      keys := LinkedKeys(instance, r, data.ItemsFor(r));
    }

    method LinkedKeys(instance: Option<Saved>, r: Relation, items: seq<Item>) returns (keys: seq<Key>)
      ensures keys == LinkedByItems(s, db, instance, r, items)
    {
      hide ChildKey, IsLink, LinkedByItems;
      keys := [];
      assert LinkedByItems(s, db, instance, r, items[..0]) == [] by { NothingLinks(s, db, instance, r); }
      for i := 0 to |items|
        invariant keys == LinkedByItems(s, db, instance, r, items[..i])
      {
        LinkedSnoc(s, db, instance, r, items[..i], items[i]);
        assert items[..i + 1] == items[..i] + [items[i]];
        var key := ChildKey(s, r.child, items[i]);
        if key.Some? && IsLink(db, instance, r, key.value) { keys := keys + [key.value]; }
      }
      assert items[..|items|] == items;
    }

    /** Refuses the first linked key that its output type's row scope hides, before anything is written. */
    method ValidateDestinationLinks(instance: Option<Saved>, data: Data) returns (refusal: Option<Failure>)
      ensures refusal == RefusedLink(s, db, instance, s.relations, data)
    {
      hide Linked, Exposed;
      var relations := s.relations;
      for i := 0 to |relations|
        invariant RefusedLink(s, db, instance, relations, data) == RefusedLink(s, db, instance, relations[i..], data)
      {
        assert relations[i..][1..] == relations[i + 1..];
        var keys := DestinationKeys(instance, relations[i], data);
        for j := 0 to |keys|
          invariant FirstHidden(s, db, relations[i].child, keys) == FirstHidden(s, db, relations[i].child, keys[j..])
        {
          assert keys[j..][1..] == keys[j + 1..];
          if !Exposed(s, db, RowId(relations[i].child, keys[j])) {
            return Some(AtField(relations[i].field, InvalidKey(keys[j])));
          }
        }
      }
      return None;
    }

    /** One forward field: links the row its item names, or writes the child; gives the column's value. */
    method ForwardField(instance: Option<Saved>, r: Relation, items: seq<Item>) returns (result: Result<Datum>)
      requires items != []
      modifies `db
      ensures Ran(ForwardValue(s, old(db), instance, r, items), db, result)
    {
      hide Persist, Visible, ChildKey, IdentityColumns;
      if |items| > 1 { return Failure(AtField(r.field, ToOneOnly)); }
      var item := items[0];
      var key := ChildKey(s, r.child, item);
      var current := CurrentTarget(instance, r.field);
      if key.Some? && key.value.text != TextOf(current) {
        var serving := HostsServing(r.child, Update);
        if serving != [] {
          var refusal := RejectHiddenRow(r.field, r.child, key.value, false);
          if refusal.Some? { return Failure(AtField(r.field, InvalidKey(key.value))); }
        }
        return Success(Id(key.value));
      }
      if key.Some? && item.Keys <= IdentityColumns(s, r.child) { return Success(Reference(current)); }
      var child := PersistChild(r.field, r.child, item, map[], None, false);
      return match child case Failure(f) => Failure(f) case Success(saved) => Success(Id(saved.key));
    }

    /** Whether any nested field carries a payload. */
    method HasNestedWork(data: Data) returns (work: bool)
      ensures work <==> exists r <- s.nested :: data.Writes(r)
    {
      for i := 0 to |s.nested|
        invariant forall r <- s.nested[..i] :: !data.Writes(r)
      {
        if data.Writes(s.nested[i]) {
          assert s.nested[i] in s.nested;
          return true;
        }
        assert s.nested[..i + 1] == s.nested[..i] + [s.nested[i]];
      }
      assert s.nested[..|s.nested|] == s.nested;
      return false;
    }

    /** The forward fields are written; the others wait for the parent's key. */
    method WriteForwards(instance: Option<Saved>, data: Data) returns (result: Result<Item>, deferred: seq<Relation>)
      modifies `db
      ensures Ran(Forwards(s, old(db), instance, s.nested, data, data.values), db, result)
      ensures result.Success? ==> deferred == Deferred(s.nested, data)
      ensures (forall r <- s.nested :: !data.Writes(r)) ==> db == old(db) && deferred == []
    {
      hide ForwardValue, Data.Writes, Data.ItemsFor, Deferred;
      var values := data.values;
      deferred := [];
      assert Deferred(s.nested[..0], data) == [] by { NothingDeferred(data); }
      for i := 0 to |s.nested|
        invariant Forwards(s, old(db), instance, s.nested, data, data.values)
            == Forwards(s, db, instance, s.nested[i..], data, values)
        invariant deferred == Deferred(s.nested[..i], data)
        invariant (forall r <- s.nested :: !data.Writes(r)) ==> db == old(db) && deferred == []
      {
        var r := s.nested[i];
        assert s.nested[i..][1..] == s.nested[i + 1..];
        assert s.nested[..i + 1] == s.nested[..i] + [r];
        DeferredSnoc(s.nested[..i], r, data);
        if data.Writes(r) {
          if r.kind == Forward {
            PayloadHasItems(data, r);
            var value := ForwardField(instance, r, data.ItemsFor(r));
            if value.Failure? { return Failure(value.failure), []; }
            values := values[r.field := value.value];
          } else {
            deferred := deferred + [r];
          }
        }
      }
      assert s.nested[..|s.nested|] == s.nested;
      result := Success(values);
    }

    /** Links checked, forward fields, the parent, then the fields that need its key. Without nested work
        only the parent is written, so a failure has changed nothing. */
    method WriteAll(instance: Option<Saved>, data: Data) returns (result: Result<Saved>)
      modifies `db
      ensures Ran(SaveNested(s, old(db), instance, data), db, result)
      ensures result.Failure? && (forall r <- s.nested :: !data.Writes(r)) ==> db == old(db)
    {
      hide RefusedLink, Forwards, Save, AttachAll, Data.Writes, Deferred;
      var refusal := ValidateDestinationLinks(instance, data);
      if refusal.Some? { return Failure(refusal.value); }
      var values, deferred := WriteForwards(instance, data);
      if values.Failure? { return Failure(values.failure); }
      var saved := SaveObject(s.model, instance, values.value, map[]);
      if saved.Failure? { return saved; }
      DeferredIsEnough(s, db, s.nested, saved.value.key, data);
      DeferredAreWritten(s.nested, data);
      var attached := AttachDeferred(deferred, saved.value.key, data);
      if attached.Failure? { return Failure(attached.failure); }
      return saved;
    }

    method AttachDeferred(deferred: seq<Relation>, parent: Key, data: Data) returns (result: Result<()>)
      requires forall r <- deferred :: r.kind != Forward && data.Writes(r)
      modifies `db
      ensures Ran(AttachAll(s, old(db), deferred, parent, data), db, result)
      ensures deferred == [] ==> db == old(db) && result == Success(())
    {
      hide Attach, Data.Writes, Data.ItemsFor;
      for i := 0 to |deferred|
        invariant AttachAll(s, old(db), deferred, parent, data) == AttachAll(s, db, deferred[i..], parent, data)
        invariant deferred == [] ==> db == old(db)
      {
        assert deferred[i..][1..] == deferred[i + 1..];
        var attached := AttachChildren(deferred[i], parent, data.ItemsFor(deferred[i]));
        if attached.Failure? { return Failure(attached.failure); }
      }
      return Success(());
    }

    /** The whole nested save: all of it happens, or nothing does. */
    method SaveWithNested(instance: Option<Saved>, data: Data) returns (result: Result<Saved>)
      modifies `db
      ensures Ran(SaveNested(s, old(db), instance, data), db, result)
      ensures result.Failure? ==> db == old(db)
      ensures result.Success? ==> exists log: seq<Write> ::
        Logged(s, old(db).rows, log, db.rows) && IsLogOf(s, old(db).links, instance, data, result.value, log)
    {
      hide SaveNested, Data.Writes, Logged, IsLogOf;
      if SaveNested(s, db, instance, data).Done? { ghost var log := SaveIsLogged(s, db, instance, data); }
      var nestedWork := HasNestedWork(data);
      var before := db;
      result := WriteAll(instance, data);
      if nestedWork && result.Failure? { db := before; }
    }
  }

  lemma PayloadHasItems(data: Data, r: Relation)
    requires data.Writes(r)
    ensures data.ItemsFor(r) != []
  {
  }

  lemma DeferredAreWritten(relations: seq<Relation>, data: Data)
    ensures forall r <- Deferred(relations, data) :: r.kind != Forward && data.Writes(r)
  {
  }
}