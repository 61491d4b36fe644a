/** Hooks that refuse nothing, and saves that do no more than they are asked to: what concrete cases are
    built from. */
module NestedWitnesses {
  import opened Options
  import opened NestedInputs
  import opened NestedWrites

  // ------------------------------------------------------------------------------ hooks

  ghost function Longest(rows: set<RowId>): (n: nat)
    ensures forall id <- rows :: |id.key.text| <= n
  {
    if rows == {} then 0
    else
      var id :| id in rows;
      var n := Longest(rows - {id});
      if |id.key.text| <= n then n else |id.key.text|
  }

  /** A key longer than every key in use. */
  ghost function UnusedKey(rows: set<RowId>, m: Model): (key: Key)
    ensures RowId(m, key) !in rows
  {
    Key(seq(Longest(rows) + 1, i => '0'))
  }

  ghost const PERMISSIVE := Hooks(
    (h, db, id) => true, m => false, (db, id) => true, (h, op, item) => true, (db, m, existing, item) => Valid(item),
    m => map[], (rows, m) => UnusedKey(rows, m))

  /** The same, but no output type exposes a row. */
  ghost const SECRETIVE := PERMISSIVE.(scoped := m => true, exposes := (db, id) => false)

  lemma PermissiveAllocates()
    ensures Allocates(PERMISSIVE) && Allocates(SECRETIVE)
  {
    forall rows: set<RowId>, m: Model ensures RowId(m, PERMISSIVE.allocate(rows, m)) !in rows {
      assert PERMISSIVE.allocate(rows, m) == UnusedKey(rows, m);
    }
  }

  // ------------------------------------------------------------------------ parts of a save

  /** An item that names a row is written over it. */
  lemma NamedRowIsWritten(s: Setup, db: Database, field: Column, m: Model, item: Item, extra: Row, key: Key,
      checked: bool)
    requires s.hooks == PERMISSIVE && ChildKey(s, m, item) == Some(key) && RowId(m, key) in db.rows
    requires var row := db.rows[RowId(m, key)] + Written(s, m, item, item) + extra;
             Resolves(s, db.Put(RowId(m, key), row), m, row)
    ensures var existing := Saved(key, db.rows[RowId(m, key)]);
            var row := existing.row + Written(s, m, item, item) + extra;
            Persist(s, db, field, m, item, extra, Some(existing), checked)
            == Done(db.Put(RowId(m, key), row), Saved(key, row))
  {
    hide Resolves, Written, ChildKey;
    assert FirstDenying(s, s.hosts(m), Update, item) == None;
  }

  lemma {:induction false} NothingForwarded(s: Setup, db: Database, instance: Option<Saved>, relations: seq<Relation>,
      data: Data, values: Item)
    requires forall r <- relations :: r.kind == Forward ==> !data.Writes(r)
    ensures Forwards(s, db, instance, relations, data, values) == Done(db, values)
    decreases |relations|
  {
    hide Data.Writes, Data.ItemsFor, ForwardValue;
    if relations != [] { NothingForwarded(s, db, instance, relations[1..], data, values); }
  }

  lemma {:induction false} NothingRefused(s: Setup, db: Database, instance: Option<Saved>, relations: seq<Relation>,
      data: Data)
    requires forall r <- relations, k <- Linked(s, db, instance, r, data) :: Exposed(s, db, RowId(r.child, k))
    ensures RefusedLink(s, db, instance, relations, data) == None
    decreases |relations|
  {
    hide Linked, Exposed;
    if relations != [] {
      assert relations[0] in relations;
      NothingRefused(s, db, instance, relations[1..], data);
    }
  }

  /** Fields that hold nothing are passed over. */
  lemma {:induction false} UnwrittenAreSkipped(s: Setup, db: Database, relations: seq<Relation>, i: nat, parent: Key,
      data: Data)
    requires i <= |relations| && forall r <- relations[..i] :: !data.Writes(r)
    ensures AttachAll(s, db, relations, parent, data) == AttachAll(s, db, relations[i..], parent, data)
    decreases |relations|
  {
    hide Data.Writes, Data.ItemsFor, Attach;
    if i == 0 {
      assert relations[0..] == relations;
    } else {
      assert relations[0] == relations[..i][0];
      assert relations[1..][..i - 1] == relations[..i][1..];
      assert relations[1..][i - 1..] == relations[i..];
      UnwrittenAreSkipped(s, db, relations[1..], i - 1, parent, data);
    }
  }

  lemma NothingAttached(s: Setup, db: Database, relations: seq<Relation>, parent: Key, data: Data)
    requires forall r <- relations :: !data.Writes(r)
    ensures AttachAll(s, db, relations, parent, data) == Done(db, ())
  {
    hide Data.Writes;
    assert relations[..|relations|] == relations;
    UnwrittenAreSkipped(s, db, relations, |relations|, parent, data);
    assert relations[|relations|..] == [];
  }

  /** The field at a position, when those before it hold nothing. */
  lemma FieldIsAttached(s: Setup, db: Database, relations: seq<Relation>, i: nat, parent: Key, data: Data)
    requires i < |relations| && relations[i].kind != Forward && data.Writes(relations[i])
    requires forall r <- relations[..i] :: !data.Writes(r)
    requires Attach(s, db, relations[i], parent, data.ItemsFor(relations[i])).Done?
    ensures var after := Attach(s, db, relations[i], parent, data.ItemsFor(relations[i])).db;
            AttachAll(s, db, relations, parent, data) == AttachAll(s, after, relations[i + 1..], parent, data)
  {
    hide Data.Writes, Data.ItemsFor, Attach;
    UnwrittenAreSkipped(s, db, relations, i, parent, data);
    assert relations[i..][1..] == relations[i + 1..];
  }

  /** Updating an empty parent with nothing but deferred fields is attaching them. */
  lemma SavingAttaches(s: Setup, db: Database, parent: Key, data: Data)
    requires s.hooks in {PERMISSIVE, SECRETIVE} && data.values == map[]
    requires db.Find(s.model, parent) == Some(Saved(parent, map[]))
    requires forall r <- s.nested :: r.kind == Forward ==> !data.Writes(r)
    requires RefusedLink(s, db, Some(Saved(parent, map[])), s.relations, data) == None
    requires AttachAll(s, db, s.nested, parent, data).Done?
    ensures SaveNested(s, db, Some(Saved(parent, map[])), data)
         == Done(AttachAll(s, db, s.nested, parent, data).db, Saved(parent, map[]))
  {
    hide AttachAll, Data.Writes, RefusedLink, Forwards;
    var empty: Row := map[];
    var instance := Saved(parent, empty);
    NothingForwarded(s, db, Some(instance), s.nested, data, data.values);
    assert Written(s, s.model, empty, empty) == empty;
    assert empty + empty + empty == empty;
    assert db.Put(RowId(s.model, parent), empty) == db;
    assert Save(s, db, s.model, Some(instance), empty, empty) == Done(db, instance);
  }
}
