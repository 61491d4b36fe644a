/** What a nested save leaves in the rows it writes: a log of all its writes, each holding column by column what
    validation made of its payload. */
module NestedStores {
  import opened Options
  import opened NestedInputs
  import opened NestedWrites
  import opened NestedFrame

  /** A row written in some state of the save: over an existing row, or a new one. */
  datatype Write = Write(
    during: Database, model: Model, existing: Option<Saved>, item: Item, extra: Row, key: Key, row: Row)
  {
    function Id(): RowId { RowId(model, key) }
  }

  function At(row: Row, c: Column): Option<Datum> { if c in row then Some(row[c]) else None }

  /** An injected column holds what is injected, a given reference is stored as given, and any other given column
      holds its validated value; one that validation drops, and one that was not given, keep what was there, or get
      the default on a create. Identity columns are not written. */
  ghost predicate HoldsValidated(s: Setup, w: Write, values: Item, c: Column) {
    if c in w.extra then At(w.row, c) == Some(w.extra[c])
    else if c in w.item && c != IDENTITY && c != s.keyColumn(w.model) && w.item[c].Id? then
      At(w.row, c) == Some(w.item[c])
    else if c in w.item && c != IDENTITY && c != s.keyColumn(w.model) && c in values then
      At(w.row, c) == Some(values[c])
    else At(w.row, c) == At(if w.existing.Some? then w.existing.value.row else s.hooks.defaults(w.model), c)
  }

  /** An existing row keeps its key; a new one has the key its payload gives, else one the database hands out. */
  ghost predicate HasItsKey(s: Setup, w: Write) {
    if w.existing.Some? then w.key == w.existing.value.key
    else if s.keyColumn(w.model) in w.item && w.item[s.keyColumn(w.model)].Id? then
      w.item[s.keyColumn(w.model)] == Id(w.key)
    else w.key == s.hooks.allocate(w.during.rows.Keys, w.model)
  }

  /** Validation accepted the payload, and the row holds what it made of it, with all its references to rows. */
  ghost predicate Stored(s: Setup, w: Write) {
    && HasItsKey(s, w)
    && (exists values: Item :: s.hooks.clean(w.during, w.model, w.existing, w.item) == Valid(values)
                               && forall c: Column :: HoldsValidated(s, w, values, c))
    && forall c <- w.row :: w.row[c].Id? && s.target(w.model, c).Some? ==>
         RowId(s.target(w.model, c).value, w.row[c].key) in w.during.rows.Keys + {w.Id()}
  }

  lemma SaveStores(s: Setup, db: Database, m: Model, instance: Option<Saved>, item: Item, extra: Row)
    requires Save(s, db, m, instance, item, extra).Done?
    ensures var Done(after, saved) := Save(s, db, m, instance, item, extra);
            var w := Write(db, m, instance, item, extra, saved.key, saved.row);
            Stored(s, w) && after == db.Put(w.Id(), w.row)
  {
    var Done(after, saved) := Save(s, db, m, instance, item, extra);
    var w := Write(db, m, instance, item, extra, saved.key, saved.row);
    var values := s.hooks.clean(db, m, instance, item).values;
    forall c: Column ensures HoldsValidated(s, w, values, c) { }
  }

  // ----------------------------------------------------------------------------- logs

  /** The rows after these writes, one after the other, each of them in the state the earlier ones left. */
  ghost predicate Logged(s: Setup, before: map<RowId, Row>, log: seq<Write>, after: map<RowId, Row>)
    decreases |log|
  {
    if log == [] then before == after
    else log[0].during.rows == before && Stored(s, log[0])
         && Logged(s, before[log[0].Id() := log[0].row], log[1..], after)
  }

  lemma {:induction false} LogsJoin(s: Setup, before: map<RowId, Row>, a: seq<Write>, mid: map<RowId, Row>,
      b: seq<Write>, after: map<RowId, Row>)
    requires Logged(s, before, a, mid) && Logged(s, mid, b, after)
    ensures Logged(s, before, a + b, after)
    decreases |a|
  {
    hide Stored;
    if a == [] {
      assert a + b == b;
    } else {
      assert (a + b)[1..] == a[1..] + b;
      LogsJoin(s, before[a[0].Id() := a[0].row], a[1..], mid, b, after);
    }
  }

  /** The last write of a row is what it holds; a row nobody writes is as it was. */
  lemma {:induction false} LastWriteStays(s: Setup, before: map<RowId, Row>, log: seq<Write>, after: map<RowId, Row>,
      id: RowId)
    requires Logged(s, before, log, after)
    ensures (forall w <- log :: w.Id() != id) ==>
              (id in after <==> id in before) && (id in after ==> after[id] == before[id])
    ensures (exists w <- log :: w.Id() == id) ==>
              exists i :: LastWriteOf(log, id, i) && id in after && after[id] == log[i].row
    decreases |log|
  {
    hide Stored;
    if log != [] {
      var rest := log[1..];
      var next := before[log[0].Id() := log[0].row];
      LastWriteStays(s, next, rest, after, id);
      if exists w <- rest :: w.Id() == id {
        var i :| LastWriteOf(rest, id, i) && id in after && after[id] == rest[i].row;
        assert log[i + 1] == rest[i];
        forall j | i + 1 < j < |log| ensures log[j].Id() != id { assert log[j] == rest[j - 1]; }
        assert LastWriteOf(log, id, i + 1);
      } else if log[0].Id() == id {
        forall j | 0 < j < |log| ensures log[j].Id() != id { assert log[j] == rest[j - 1] && rest[j - 1] in rest; }
        assert LastWriteOf(log, id, 0);
      }
    }
  }

  ghost predicate LastWriteOf(log: seq<Write>, id: RowId, i: int) {
    0 <= i < |log| && log[i].Id() == id && forall j :: i < j < |log| ==> log[j].Id() != id
  }

  /** A payload was written as a row of the model, with these columns injected. */
  ghost predicate Wrote(log: seq<Write>, m: Model, item: Item, extra: Row) {
    exists w <- log :: w.model == m && w.item == item && w.extra == extra
  }

  lemma WroteIn(a: seq<Write>, b: seq<Write>, m: Model, item: Item, extra: Row)
    ensures Wrote(a, m, item, extra) || Wrote(b, m, item, extra) ==> Wrote(a + b, m, item, extra)
  {
    if w :| w in a && w.model == m && w.item == item && w.extra == extra { assert w in a + b; }
    if w :| w in b && w.model == m && w.item == item && w.extra == extra { assert w in a + b; }
  }

  // ----------------------------------------------------------------------- one child

  lemma PersistLogs(s: Setup, db: Database, field: Column, m: Model, item: Item, extra: Row, existing: Option<Saved>,
      checked: bool) returns (log: seq<Write>)
    requires Persist(s, db, field, m, item, extra, existing, checked).Done?
    ensures var Done(after, _) := Persist(s, db, field, m, item, extra, existing, checked);
            Logged(s, db.rows, log, after.rows) && Wrote(log, m, item, extra)
    ensures forall w <- log :: w.model == m && w.item == item && w.extra == extra
  {
    hide Save, Visible, ChildKey, Stored;
    SaveStores(s, db, m, existing, item, extra);
    var Done(_, saved) := Save(s, db, m, existing, item, extra);
    var w := Write(db, m, existing, item, extra, saved.key, saved.row);
    log := [w];
    assert log[1..] == [] && w in log;
  }

  /** A write of one of a field's items. */
  ghost predicate IsItemOf(w: Write, r: Relation, items: seq<Item>, extra: Row) {
    w.model == r.child && w.item in items && w.extra == extra
  }

  function Injected(r: Relation, parent: Key): Row {
    if r.kind in {Forward, ManyToMany} then map[] else map[r.owner := Id(parent)]
  }

  /** A write of an item of the payload, with its owner injected for a reverse field. */
  ghost predicate IsFromPayload(s: Setup, data: Data, parent: Key, w: Write) {
    exists r <- s.nested :: IsItemOf(w, r, data.ItemsFor(r), Injected(r, parent))
  }

  /** A forward item is written unless it only links or names the current target and nothing else. */
  lemma ForwardLogs(s: Setup, db: Database, instance: Option<Saved>, r: Relation, items: seq<Item>)
      returns (log: seq<Write>)
    requires items != [] && ForwardValue(s, db, instance, r, items).Done?
    ensures var Done(after, _) := ForwardValue(s, db, instance, r, items);
            Logged(s, db.rows, log, after.rows)
    ensures WritesForward(s, instance, r, items[0]) ==> Wrote(log, r.child, items[0], map[])
    ensures forall w <- log :: IsItemOf(w, r, items, map[])
  {
    hide Persist, Visible, ChildKey, Stored;
    var item := items[0];
    var key := ChildKey(s, r.child, item);
    var current := TextOf(CurrentTarget(instance, r.field));
    if key.Some? && (key.value.text != current || item.Keys <= IdentityColumns(s, r.child)) {
      log := [];
    } else {
      log := PersistLogs(s, db, r.field, r.child, item, map[], Lookup(db, r.child, key), false);
    }
  }

  /** It names no row, or the current target with something to write. */
  ghost predicate WritesForward(s: Setup, instance: Option<Saved>, r: Relation, item: Item) {
    || ChildKey(s, r.child, item).None?
    || (ChildKey(s, r.child, item) == CurrentTarget(instance, r.field)
        && exists c <- item :: c != IDENTITY && c != s.keyColumn(r.child))
  }

  lemma {:induction false} ForwardsLog(s: Setup, db: Database, instance: Option<Saved>, relations: seq<Relation>,
      data: Data, values: Item) returns (log: seq<Write>)
    requires Forwards(s, db, instance, relations, data, values).Done?
    ensures var Done(after, _) := Forwards(s, db, instance, relations, data, values);
            Logged(s, db.rows, log, after.rows)
    ensures forall r <- relations | r.kind == Forward && data.Writes(r) :: ForwardWritten(s, instance, data, r, log)
    ensures forall w <- log :: exists r <- relations :: r.kind == Forward && IsItemOf(w, r, data.ItemsFor(r), map[])
    decreases |relations|
  {
    hide ForwardValue, Data.ItemsFor, Data.Writes, Logged, Wrote, WritesForward, IsItemOf;
    if relations == [] {
      log := [];
      NothingLogged(s, db.rows);
    } else {
      var r := relations[0];
      if r.kind != Forward || !data.Writes(r) {
        log := ForwardsLog(s, db, instance, relations[1..], data, values);
      } else {
        ItemsOfPayload(data, r);
        var first := ForwardLogs(s, db, instance, r, data.ItemsFor(r));
        var Done(next, value) := ForwardValue(s, db, instance, r, data.ItemsFor(r));
        var rest := ForwardsLog(s, next, instance, relations[1..], data, values[r.field := value]);
        log := first + rest;
        var Done(after, _) := Forwards(s, next, instance, relations[1..], data, values[r.field := value]);
        LogsJoin(s, db.rows, first, next.rows, rest, after.rows);
        forall x <- relations | x.kind == Forward && data.Writes(x) ensures ForwardWritten(s, instance, data, x, log) {
          if data.ItemsFor(x) != [] { WroteIn(first, rest, x.child, data.ItemsFor(x)[0], map[]); }
        }
      }
    }
  }

  ghost predicate ForwardWritten(s: Setup, instance: Option<Saved>, data: Data, r: Relation, log: seq<Write>) {
    data.ItemsFor(r) != [] && WritesForward(s, instance, r, data.ItemsFor(r)[0]) ==>
      Wrote(log, r.child, data.ItemsFor(r)[0], map[])
  }

  lemma NothingLogged(s: Setup, rows: map<RowId, Row>)
    ensures Logged(s, rows, [], rows)
  {
  }

  // ------------------------------------------------------------------- deferred children

  lemma {:induction false} ReverseLogs(s: Setup, db: Database, r: Relation, parent: Key, items: seq<Item>)
      returns (log: seq<Write>)
    requires ReverseChildren(s, db, r, parent, items).Done?
    ensures var Done(after, _) := ReverseChildren(s, db, r, parent, items);
            Logged(s, db.rows, log, after.rows)
    ensures forall item <- items :: Wrote(log, r.child, item, map[r.owner := Id(parent)])
    ensures forall w <- log :: IsItemOf(w, r, items, map[r.owner := Id(parent)])
    decreases |items|
  {
    hide Persist, Visible, ChildKey, Objection, Logged, Wrote;
    if items == [] {
      log := [];
      NothingLogged(s, db.rows);
    } else {
      var existing := Lookup(db, r.child, ChildKey(s, r.child, items[0]));
      var extra: Row := map[r.owner := Id(parent)];
      var first := PersistLogs(s, db, r.field, r.child, items[0], extra, existing, existing.Some?);
      var next := ReverseChild(s, db, r, parent, items[0]).db;
      var rest := ReverseLogs(s, next, r, parent, items[1..]);
      log := first + rest;
      LogsJoin(s, db.rows, first, next.rows, rest, ReverseChildren(s, next, r, parent, items[1..]).db.rows);
      forall item <- items ensures Wrote(log, r.child, item, extra) {
        WroteIn(first, rest, r.child, item, extra);
      }
    }
  }

  /** A many-to-many item is written unless it names a row that is not linked yet. */
  ghost predicate WritesShared(s: Setup, links: set<Link>, r: Relation, parent: Key, item: Item) {
    var key := ChildKey(s, r.child, item);
    key.Some? ==> Link(r.field, parent, key.value) in links
  }

  lemma {:induction false} SharedLogs(s: Setup, db: Database, r: Relation, parent: Key, items: seq<Item>)
      returns (log: seq<Write>)
    requires SharedChildren(s, db, r, parent, items).Done?
    ensures var Done(after, _) := SharedChildren(s, db, r, parent, items);
            Logged(s, db.rows, log, after.rows) && after.links == db.links
    ensures forall item <- items | WritesShared(s, db.links, r, parent, item) :: Wrote(log, r.child, item, map[])
    ensures forall w <- log :: IsItemOf(w, r, items, map[])
    decreases |items|
  {
    hide Persist, Visible, ChildKey, Logged, Wrote;
    if items == [] {
      log := [];
      NothingLogged(s, db.rows);
    } else {
      var item := items[0];
      var existing := Lookup(db, r.child, ChildKey(s, r.child, item));
      var first: seq<Write> := [];
      if existing.Some? && Link(r.field, parent, existing.value.key) !in db.links {
        NothingLogged(s, db.rows);
      } else {
        first := PersistLogs(s, db, r.field, r.child, item, map[], existing, false);
        PersistLeavesLinks(s, db, r.field, r.child, item, map[], existing, false);
      }
      var next := SharedChild(s, db, r, parent, item).db;
      var rest := SharedLogs(s, next, r, parent, items[1..]);
      log := first + rest;
      LogsJoin(s, db.rows, first, next.rows, rest, SharedChildren(s, next, r, parent, items[1..]).db.rows);
      forall x <- items | WritesShared(s, db.links, r, parent, x) ensures Wrote(log, r.child, x, map[]) {
        WroteIn(first, rest, r.child, x, map[]);
      }
    }
  }

  lemma PersistLeavesLinks(s: Setup, db: Database, field: Column, m: Model, item: Item, extra: Row,
      existing: Option<Saved>, checked: bool)
    requires Persist(s, db, field, m, item, extra, existing, checked).Done?
    ensures Persist(s, db, field, m, item, extra, existing, checked).db.links == db.links
  {
    hide Visible, ChildKey, Written, Resolves;
  }

  lemma {:induction false} ReverseLeavesLinks(s: Setup, db: Database, r: Relation, parent: Key, items: seq<Item>)
    requires ReverseChildren(s, db, r, parent, items).Done?
    ensures ReverseChildren(s, db, r, parent, items).db.links == db.links
    decreases |items|
  {
    hide Persist, Visible, ChildKey, Objection;
    if items != [] {
      var existing := Lookup(db, r.child, ChildKey(s, r.child, items[0]));
      PersistLeavesLinks(s, db, r.field, r.child, items[0], map[r.owner := Id(parent)], existing, existing.Some?);
      ReverseLeavesLinks(s, ReverseChild(s, db, r, parent, items[0]).db, r, parent, items[1..]);
    }
  }

  /** The deferred items of a field that are written. */
  ghost predicate DeferredWritten(s: Setup, links: set<Link>, data: Data, r: Relation, parent: Key, log: seq<Write>) {
    forall item <- data.ItemsFor(r) ::
      if r.kind == ManyToMany then WritesShared(s, links, r, parent, item) ==> Wrote(log, r.child, item, map[])
      else Wrote(log, r.child, item, map[r.owner := Id(parent)])
  }

  lemma AttachLogs(s: Setup, db: Database, links: set<Link>, r: Relation, parent: Key, data: Data)
      returns (log: seq<Write>)
    requires r.kind != Forward && links <= db.links && Attach(s, db, r, parent, data.ItemsFor(r)).Done?
    ensures var Done(after, _) := Attach(s, db, r, parent, data.ItemsFor(r));
            Logged(s, db.rows, log, after.rows) && db.links <= after.links
    ensures DeferredWritten(s, links, data, r, parent, log)
    ensures forall w <- log :: IsItemOf(w, r, data.ItemsFor(r), Injected(r, parent))
  {
    hide SharedChildren, ReverseChildren, Data.ItemsFor, Logged, Wrote, ChildKey;
    if r.kind == ManyToMany {
      log := SharedLogs(s, db, r, parent, data.ItemsFor(r));
    } else {
      log := ReverseLogs(s, db, r, parent, data.ItemsFor(r));
      ReverseLeavesLinks(s, db, r, parent, data.ItemsFor(r));
    }
  }

  lemma WrittenInMore(s: Setup, links: set<Link>, data: Data, r: Relation, parent: Key, a: seq<Write>, b: seq<Write>)
    requires DeferredWritten(s, links, data, r, parent, a) || DeferredWritten(s, links, data, r, parent, b)
    ensures DeferredWritten(s, links, data, r, parent, a + b)
  {
    hide Wrote, WritesShared, Data.ItemsFor;
    forall item <- data.ItemsFor(r), extra: Row
      ensures Wrote(a, r.child, item, extra) || Wrote(b, r.child, item, extra) ==> Wrote(a + b, r.child, item, extra)
    {
      WroteIn(a, b, r.child, item, extra);
    }
  }

  lemma {:induction false} AttachAllLogs(s: Setup, db: Database, links: set<Link>, relations: seq<Relation>,
      parent: Key, data: Data) returns (log: seq<Write>)
    requires links <= db.links && AttachAll(s, db, relations, parent, data).Done?
    ensures Logged(s, db.rows, log, AttachAll(s, db, relations, parent, data).db.rows)
    ensures forall r <- relations | r.kind != Forward && data.Writes(r) ::
              DeferredWritten(s, links, data, r, parent, log)
    ensures forall w <- log :: exists r <- relations :: IsItemOf(w, r, data.ItemsFor(r), Injected(r, parent))
    decreases |relations|
  {
    hide Attach, Data.ItemsFor, Data.Writes, Logged, DeferredWritten, IsItemOf, Injected;
    if relations == [] {
      log := [];
      NothingLogged(s, db.rows);
    } else if relations[0].kind == Forward || !data.Writes(relations[0]) {
      log := AttachAllLogs(s, db, links, relations[1..], parent, data);
    } else {
      var r := relations[0];
      var first := AttachLogs(s, db, links, r, parent, data);
      var next := Attach(s, db, r, parent, data.ItemsFor(r)).db;
      var rest := AttachAllLogs(s, next, links, relations[1..], parent, data);
      log := first + rest;
      LogsJoin(s, db.rows, first, next.rows, rest, AttachAll(s, next, relations[1..], parent, data).db.rows);
      forall x <- relations | x.kind != Forward && data.Writes(x)
        ensures DeferredWritten(s, links, data, x, parent, log)
      {
        WrittenInMore(s, links, data, x, parent, first, rest);
      }
    }
  }

  // ------------------------------------------------------------------------- the save

  /** The columns given for the parent, with one more for each forward field that is written. */
  ghost predicate CarriesGiven(relations: seq<Relation>, data: Data, given: Item, item: Item) {
    && (forall c: Column :: !NamesForward(relations, data, c) ==> At(item, c) == At(given, c))
    && forall r <- relations | r.kind == Forward && data.Writes(r) :: r.field in item
  }

  ghost predicate NamesForward(relations: seq<Relation>, data: Data, c: Column) {
    exists r <- relations :: r.kind == Forward && data.Writes(r) && r.field == c
  }

  lemma {:induction false} ForwardsCarry(s: Setup, db: Database, instance: Option<Saved>, relations: seq<Relation>,
      data: Data, values: Item)
    requires Forwards(s, db, instance, relations, data, values).Done?
    ensures CarriesGiven(relations, data, values, Forwards(s, db, instance, relations, data, values).value)
    decreases |relations|
  {
    hide ForwardValue, Data.ItemsFor, Data.Writes, NamesForward;
    if relations != [] {
      var r, rest := relations[0], relations[1..];
      forall c ensures NamesForward(relations, data, c) <==>
          (r.kind == Forward && data.Writes(r) && r.field == c) || NamesForward(rest, data, c)
      {
        NamedByFirstOrRest(relations, data, c);
      }
      if r.kind != Forward || !data.Writes(r) {
        ForwardsCarry(s, db, instance, rest, data, values);
      } else {
        ItemsOfPayload(data, r);
        var Done(after, value) := ForwardValue(s, db, instance, r, data.ItemsFor(r));
        ForwardsCarry(s, after, instance, rest, data, values[r.field := value]);
        FieldStays(rest, data, values, Forwards(s, db, instance, relations, data, values).value, r.field, value);
      }
    }
  }

  lemma FieldStays(rest: seq<Relation>, data: Data, values: Item, item: Item, c: Column, value: Datum)
    requires CarriesGiven(rest, data, values[c := value], item)
    ensures c in item
  {
    hide Data.Writes;
    if !NamesForward(rest, data, c) { assert At(item, c) == At(values[c := value], c); }
  }

  lemma NamedByFirstOrRest(relations: seq<Relation>, data: Data, c: Column)
    requires relations != []
    ensures NamesForward(relations, data, c) <==>
      (relations[0].kind == Forward && data.Writes(relations[0]) && relations[0].field == c)
      || NamesForward(relations[1..], data, c)
  {
    hide Data.Writes;
    assert relations == [relations[0]] + relations[1..];
  }

  /** The write of the parent: its given columns with those of the forward fields. */
  ghost predicate ParentWrite(s: Setup, instance: Option<Saved>, data: Data, parent: Saved, w: Write) {
    && w.model == s.model && w.key == parent.key && w.row == parent.row && w.existing == instance && w.extra == map[]
    && CarriesGiven(s.nested, data, data.values, w.item)
  }

  /** A log of a save's writes: the parent's, with all its given columns, and those of every item that is not merely
      linked, and no other. */
  ghost predicate IsLogOf(s: Setup, links: set<Link>, instance: Option<Saved>, data: Data, parent: Saved,
      log: seq<Write>)
  {
    && (exists w <- log :: ParentWrite(s, instance, data, parent, w))
    && (forall w <- log :: ParentWrite(s, instance, data, parent, w) || IsFromPayload(s, data, parent.key, w))
    && (forall r <- s.nested | r.kind == Forward && data.Writes(r) :: ForwardWritten(s, instance, data, r, log))
    && forall r <- s.nested | r.kind != Forward && data.Writes(r) ::
         DeferredWritten(s, links, data, r, parent.key, log)
  }

  /** The rows after a completed save are those before it with a log of its writes, each of which holds what
      validation made of its payload. */
  lemma SaveIsLogged(s: Setup, db: Database, instance: Option<Saved>, data: Data) returns (log: seq<Write>)
    requires SaveNested(s, db, instance, data).Done?
    ensures Logged(s, db.rows, log, SaveNested(s, db, instance, data).db.rows)
    ensures IsLogOf(s, db.links, instance, data, SaveNested(s, db, instance, data).value, log)
  {
    hide RefusedLink, Forwards, AttachAll, Save, Stored, ForwardWritten, DeferredWritten, Data.Writes, Logged,
         CarriesGiven;
    var Done(linked, values) := Forwards(s, db, instance, s.nested, data, data.values);
    var Done(parented, parent) := Save(s, linked, s.model, instance, values, map[]);
    var after := AttachAll(s, parented, s.nested, parent.key, data).db;
    var forwards := ForwardsLog(s, db, instance, s.nested, data, data.values);
    ForwardsLeaveLinks(s, db, instance, s.nested, data, data.values);
    SaveStores(s, linked, s.model, instance, values, map[]);
    var w := Write(linked, s.model, instance, values, map[], parent.key, parent.row);
    OneLogged(s, w);
    var deferred := AttachAllLogs(s, parented, db.links, s.nested, parent.key, data);
    LogsJoin(s, db.rows, forwards, linked.rows, [w], parented.rows);
    LogsJoin(s, db.rows, forwards + [w], parented.rows, deferred, after.rows);
    log := (forwards + [w]) + deferred;
    ForwardsCarry(s, db, instance, s.nested, data, data.values);
    assert w in log && ParentWrite(s, instance, data, parent, w);
    forall r <- s.nested | r.kind == Forward && data.Writes(r) ensures ForwardWritten(s, instance, data, r, log) {
      ForwardInMore(s, instance, data, r, forwards, [w] + deferred);
      assert forwards + ([w] + deferred) == log;
    }
    forall r <- s.nested | r.kind != Forward && data.Writes(r)
      ensures DeferredWritten(s, db.links, data, r, parent.key, log)
    {
      WrittenInMore(s, db.links, data, r, parent.key, forwards + [w], deferred);
    }
  }

  lemma OneLogged(s: Setup, w: Write)
    requires Stored(s, w)
    ensures Logged(s, w.during.rows, [w], w.during.rows[w.Id() := w.row])
  {
    assert [w][1..] == [];
  }

  lemma ForwardInMore(s: Setup, instance: Option<Saved>, data: Data, r: Relation, a: seq<Write>, b: seq<Write>)
    requires ForwardWritten(s, instance, data, r, a)
    ensures ForwardWritten(s, instance, data, r, a + b)
  {
    hide Wrote, WritesForward, Data.ItemsFor;
    if data.ItemsFor(r) != [] { WroteIn(a, b, r.child, data.ItemsFor(r)[0], map[]); }
  }

  lemma {:induction false} ForwardsLeaveLinks(s: Setup, db: Database, instance: Option<Saved>,
      relations: seq<Relation>, data: Data, values: Item)
    requires Forwards(s, db, instance, relations, data, values).Done?
    ensures Forwards(s, db, instance, relations, data, values).db.links == db.links
    decreases |relations|
  {
    hide Persist, Visible, ChildKey, Data.ItemsFor, Data.Writes, IdentityColumns;
    if relations != [] {
      var r := relations[0];
      if r.kind != Forward || !data.Writes(r) {
        ForwardsLeaveLinks(s, db, instance, relations[1..], data, values);
      } else {
        ItemsOfPayload(data, r);
        ForwardLeavesLinks(s, db, instance, r, data.ItemsFor(r));
        var Done(after, value) := ForwardValue(s, db, instance, r, data.ItemsFor(r));
        ForwardsLeaveLinks(s, after, instance, relations[1..], data, values[r.field := value]);
      }
    }
  }

  lemma ForwardLeavesLinks(s: Setup, db: Database, instance: Option<Saved>, r: Relation, items: seq<Item>)
    requires items != [] && ForwardValue(s, db, instance, r, items).Done?
    ensures ForwardValue(s, db, instance, r, items).db.links == db.links
  {
    hide Persist, Visible, ChildKey, IdentityColumns;
    var key := ChildKey(s, r.child, items[0]);
    var current := TextOf(CurrentTarget(instance, r.field));
    if !(key.Some? && (key.value.text != current || items[0].Keys <= IdentityColumns(s, r.child))) {
      PersistLeavesLinks(s, db, r.field, r.child, items[0], map[], Lookup(db, r.child, key), false);
    }
  }

  /** So every row after a save is as it was, or holds what validation made of the last payload written over it: the
      parent's, or an item's. */
  lemma RowsHoldWhatWasValidated(s: Setup, db: Database, instance: Option<Saved>, data: Data, id: RowId)
    requires SaveNested(s, db, instance, data).Done? && id in SaveNested(s, db, instance, data).db.rows
    ensures var row := SaveNested(s, db, instance, data).db.rows[id];
            || (id in db.rows && row == db.rows[id])
            || exists w :: Stored(s, w) && w.Id() == id && w.row == row
                 && (ParentWrite(s, instance, data, SaveNested(s, db, instance, data).value, w)
                     || IsFromPayload(s, data, SaveNested(s, db, instance, data).value.key, w))
  {
    hide SaveNested, Stored, Logged, ForwardWritten, DeferredWritten, ParentWrite, IsFromPayload;
    var log := SaveIsLogged(s, db, instance, data);
    var after := SaveNested(s, db, instance, data).db.rows;
    LastWriteStays(s, db.rows, log, after, id);
    if exists w <- log :: w.Id() == id {
      var i :| LastWriteOf(log, id, i) && id in after && after[id] == log[i].row;
      AllStored(s, db.rows, log, after, i);
      assert Stored(s, log[i]) && log[i] in log;
    }
  }

  lemma {:induction false} AllStored(s: Setup, before: map<RowId, Row>, log: seq<Write>, after: map<RowId, Row>, i: nat)
    requires Logged(s, before, log, after) && i < |log|
    ensures Stored(s, log[i])
    decreases |log|
  {
    hide Stored;
    if i > 0 { AllStored(s, before[log[0].Id() := log[0].row], log[1..], after, i - 1); }
  }
}
