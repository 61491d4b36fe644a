/** When a nested write is refused, with what error, and that it is otherwise done: each step read off the hosts,
    the scopes, the permissions and the rows themselves. */
module NestedRefusals {
  import opened Options
  import opened NestedInputs
  import opened NestedWrites
  import opened NestedStores

  // ----------------------------------------------------------------------------- readings

  /** The key an item names: in the model's key column, or under "id" when that column names none. */
  ghost predicate IsNamed(s: Setup, m: Model, item: Item, key: Key) {
    var c := s.keyColumn(m);
    || (c in item && item[c] == Id(key))
    || (!(c in item && item[c].Id?) && IDENTITY in item && item[IDENTITY] == Id(key))
  }

  ghost predicate NamesNone(s: Setup, m: Model, item: Item) { forall key :: !IsNamed(s, m, item, key) }

  lemma KeyReading(s: Setup, m: Model, item: Item)
    ensures forall key :: ChildKey(s, m, item) == Some(key) <==> IsNamed(s, m, item, key)
    ensures ChildKey(s, m, item) == None <==> NamesNone(s, m, item)
  {
    if ChildKey(s, m, item).Some? { assert IsNamed(s, m, item, ChildKey(s, m, item).value); }
  }

  /** Every host that serves updates of the model shows the row. */
  ghost predicate HostsShow(s: Setup, db: Database, id: RowId) {
    forall h <- s.hosts(id.model) :: Update in h.operations ==> id in db.rows && s.hooks.sees(h, db, id)
  }

  /** The model's output type shows the row, unless it has no scope of its own. */
  ghost predicate TypeShows(s: Setup, db: Database, id: RowId) {
    s.hooks.scoped(id.model) ==> id in db.rows && s.hooks.exposes(db, id)
  }

  lemma {:induction false} ServingReading(hosts: seq<Host>, op: ModelOperation)
    ensures forall h :: h in Serving(hosts, op) <==> h in hosts && op in h.operations
  {
    if hosts != [] {
      ServingReading(hosts[1..], op);
      assert hosts == [hosts[0]] + hosts[1..];
    }
  }

  lemma VisibleReading(s: Setup, db: Database, id: RowId, outputScope: bool)
    ensures Visible(s, db, id, outputScope) <==> HostsShow(s, db, id) && (outputScope ==> TypeShows(s, db, id))
    ensures HasUpdateHost(s, id.model) <==> exists h <- s.hosts(id.model) :: Update in h.operations
  {
    ServingReading(s.hosts(id.model), Update);
    var serving := Serving(s.hosts(id.model), Update);
    if serving != [] { assert serving[0] in serving; }
  }

  /** The first of the model's hosts that does not grant the operation. */
  ghost predicate DeniesFirst(s: Setup, m: Model, op: ModelOperation, item: Item, host: Host) {
    exists i :: 0 <= i < |s.hosts(m)| && s.hosts(m)[i] == host && !s.hooks.allows(host, op, item)
                && forall j :: 0 <= j < i ==> s.hooks.allows(s.hosts(m)[j], op, item)
  }

  ghost predicate Granted(s: Setup, m: Model, op: ModelOperation, item: Item) {
    forall h <- s.hosts(m) :: s.hooks.allows(h, op, item)
  }

  lemma {:induction false} DenyingReading(s: Setup, hosts: seq<Host>, op: ModelOperation, item: Item)
    ensures FirstDenying(s, hosts, op, item) == None <==> forall h <- hosts :: s.hooks.allows(h, op, item)
    ensures FirstDenying(s, hosts, op, item).Some? ==>
              exists i :: 0 <= i < |hosts| && hosts[i] == FirstDenying(s, hosts, op, item).value
                && !s.hooks.allows(hosts[i], op, item) && forall j :: 0 <= j < i ==> s.hooks.allows(hosts[j], op, item)
  {
    if hosts != [] && s.hooks.allows(hosts[0], op, item) {
      DenyingReading(s, hosts[1..], op, item);
      if FirstDenying(s, hosts, op, item).Some? {
        var rest := hosts[1..];
        var i :| 0 <= i < |rest| && rest[i] == FirstDenying(s, rest, op, item).value
          && !s.hooks.allows(rest[i], op, item) && forall j :: 0 <= j < i ==> s.hooks.allows(rest[j], op, item);
        assert hosts[i + 1] == rest[i];
        forall j | 0 <= j < i + 1 ensures s.hooks.allows(hosts[j], op, item) {
          if j > 0 { assert hosts[j] == rest[j - 1]; }
        }
      }
    }
  }

  /** The same errors, below a field. */
  ghost predicate Below(field: Column, errors: seq<FieldError>, under: seq<FieldError>) {
    |under| == |errors| && forall i :: 0 <= i < |errors| ==>
      under[i].path == [field] + errors[i].path && under[i].problem == errors[i].problem
  }

  predicate IsOneError<T>(o: Outcome<T>, path: seq<Column>, problem: Problem) {
    o == Failed(Refused([FieldError(path, problem)]))
  }

  // ------------------------------------------------------------------------- one child

  /** What becomes of a child payload, in this order: a named row that is missing or hidden, a host that denies,
      a payload that validation rejects, a row whose references name no rows; else it is stored. */
  ghost predicate PersistOutcome(s: Setup, db: Database, field: Column, m: Model, item: Item, extra: Row,
      existing: Option<Saved>, checked: bool, o: Outcome<Saved>)
  {
    var op := if existing.Some? then Update else Create;
    var cleaned := s.hooks.clean(db, m, existing, item);
    if existing.None? && !NamesNone(s, m, item) then
      exists key :: IsNamed(s, m, item, key) && IsOneError(o, [field, IDENTITY], NotFound(key))
    else if existing.Some? && !checked
            && !(HostsShow(s, db, RowId(m, existing.value.key)) && TypeShows(s, db, RowId(m, existing.value.key))) then
      IsOneError(o, [field, IDENTITY], NotFound(existing.value.key))
    else if !Granted(s, m, op, item) then exists host :: DeniesFirst(s, m, op, item, host) && o == Failed(Denied(host))
    else if cleaned.Invalid? then exists under :: Below(field, cleaned.errors, under) && o == Failed(Refused(under))
    else if exists key, row :: Stored(s, Write(db, m, existing, item, extra, key, row)) then
      exists key, row :: Stored(s, Write(db, m, existing, item, extra, key, row))
                         && o == Done(db.Put(RowId(m, key), row), Saved(key, row))
    else IsOneError(o, [field], Rejected("a reference names no row"))
  }

  lemma SameColumns(a: Row, b: Row)
    requires forall c: Column :: At(a, c) == At(b, c)
    ensures a == b
  {
    forall c: Column ensures c in a <==> c in b { assert At(a, c) == At(b, c); }
    forall c | c in b ensures a[c] == b[c] { assert At(a, c) == At(b, c); }
  }

  lemma BuiltRow(s: Setup, w: Write, values: Item)
    requires forall c: Column :: HoldsValidated(s, w, values, c)
    ensures w.row == (if w.existing.Some? then w.existing.value.row else s.hooks.defaults(w.model))
                     + Written(s, w.model, w.item, values) + w.extra
  {
    var base := if w.existing.Some? then w.existing.value.row else s.hooks.defaults(w.model);
    var built := base + Written(s, w.model, w.item, values) + w.extra;
    forall c: Column ensures At(w.row, c) == At(built, c) { assert HoldsValidated(s, w, values, c); }
    SameColumns(w.row, built);
  }

  lemma StoredOnce(s: Setup, db: Database, m: Model, existing: Option<Saved>, item: Item, extra: Row, key: Key,
      row: Row)
    requires Stored(s, Write(db, m, existing, item, extra, key, row))
    ensures Save(s, db, m, existing, item, extra) == Done(db.Put(RowId(m, key), row), Saved(key, row))
  {
    hide HoldsValidated, Written;
    var w := Write(db, m, existing, item, extra, key, row);
    var values := s.hooks.clean(db, m, existing, item).values;
    assert forall c: Column :: HoldsValidated(s, w, values, c);
    BuiltRow(s, w, values);
  }

  lemma SaveReading(s: Setup, db: Database, m: Model, existing: Option<Saved>, item: Item, extra: Row)
    ensures var o := Save(s, db, m, existing, item, extra);
            match s.hooks.clean(db, m, existing, item)
            case Invalid(errors) => o == Failed(Refused(errors))
            case Valid(_) =>
              if exists key, row :: Stored(s, Write(db, m, existing, item, extra, key, row)) then
                exists key, row :: Stored(s, Write(db, m, existing, item, extra, key, row))
                                   && o == Done(db.Put(RowId(m, key), row), Saved(key, row))
              else IsOneError(o, [], Rejected("a reference names no row"))
  {
    hide Stored, Written, Resolves;
    if s.hooks.clean(db, m, existing, item).Valid? {
      if Save(s, db, m, existing, item, extra).Done? {
        SaveStores(s, db, m, existing, item, extra);
        var saved := Save(s, db, m, existing, item, extra).value;
        assert Stored(s, Write(db, m, existing, item, extra, saved.key, saved.row));
      }
      if key, row :| Stored(s, Write(db, m, existing, item, extra, key, row)) {
        StoredOnce(s, db, m, existing, item, extra, key, row);
      }
    }
  }

  lemma PersistReading(s: Setup, db: Database, field: Column, m: Model, item: Item, extra: Row,
      existing: Option<Saved>, checked: bool)
    ensures PersistOutcome(s, db, field, m, item, extra, existing, checked,
                           Persist(s, db, field, m, item, extra, existing, checked))
  {
    hide Stored, Visible, ChildKey, IsNamed, Save, HostsShow, TypeShows;
    var op := if existing.Some? then Update else Create;
    KeyReading(s, m, item);
    DenyingReading(s, s.hosts(m), op, item);
    SaveReading(s, db, m, existing, item, extra);
    if existing.Some? { VisibleReading(s, db, RowId(m, existing.value.key), true); }
    if existing.None? && ChildKey(s, m, item).Some? {
      var key := ChildKey(s, m, item).value;
      assert Missing(field, key) == Refused([FieldError([field, IDENTITY], NotFound(key))]) by {
        MissingReading(field, key);
      }
      assert IsNamed(s, m, item, key);
    } else if existing.Some? && !checked && !Visible(s, db, RowId(m, existing.value.key), true) {
      MissingReading(field, existing.value.key);
    } else if FirstDenying(s, s.hosts(m), op, item).Some? {
      assert DeniesFirst(s, m, op, item, FirstDenying(s, s.hosts(m), op, item).value);
    } else {
      RejectedReading(s, db, field, m, existing, item, extra);
    }
  }

  lemma MissingReading(field: Column, key: Key)
    ensures Missing(field, key) == Refused([FieldError([field, IDENTITY], NotFound(key))])
  {
    assert [field] + [IDENTITY] == [field, IDENTITY];
    assert Prefixed(field, [FieldError([IDENTITY], NotFound(key))]) == [FieldError([field, IDENTITY], NotFound(key))];
  }

  lemma RejectedReading(s: Setup, db: Database, field: Column, m: Model, existing: Option<Saved>, item: Item,
      extra: Row)
    ensures var saved := Save(s, db, m, existing, item, extra);
            saved.Failed? && saved.failure.Refused? ==>
              Below(field, saved.failure.errors, Prefixed(field, saved.failure.errors))
    ensures Prefixed(field, [FieldError([], Rejected("a reference names no row"))])
         == [FieldError([field], Rejected("a reference names no row"))]
    ensures var saved := Save(s, db, m, existing, item, extra); saved.Failed? ==> saved.failure.Refused?
  {
    assert [field] + [] == [field];
  }

  // --------------------------------------------------------------------- deferred children

  predicate HasRow(db: Database, m: Model, key: Key, row: Row) {
    RowId(m, key) in db.rows && db.rows[RowId(m, key)] == row
  }

  /** An item of a reverse field that names a row: hidden, owned by another parent, or an orphan that nobody's
      updates may adopt, it is refused; else it is written with the parent for its owner. */
  lemma ReverseReading(s: Setup, db: Database, r: Relation, parent: Key, item: Item, key: Key, row: Row)
    requires IsNamed(s, r.child, item, key) && HasRow(db, r.child, key, row)
    ensures var o := ReverseChild(s, db, r, parent, item);
            var id := RowId(r.child, key);
            if !(HostsShow(s, db, id) && TypeShows(s, db, id)) then IsOneError(o, [r.field, IDENTITY], NotFound(key))
            else if r.owner in row && row[r.owner].Id? && row[r.owner] != Id(parent) then
              IsOneError(o, [r.field], NotOwned(key))
            else if r.nullable && !(r.owner in row && row[r.owner].Id?)
                    && (forall h <- s.hosts(r.child) :: Update !in h.operations) then
              IsOneError(o, [r.field], NeedsUpdateHost)
            else PersistOutcome(s, db, r.field, r.child, item, map[r.owner := Id(parent)],
                                Some(Saved(key, row)), true, o)
  {
    hide Visible, ChildKey, IsNamed, Persist, PersistOutcome, HostsShow, TypeShows, HasUpdateHost;
    KeyReading(s, r.child, item);
    VisibleReading(s, db, RowId(r.child, key), true);
    MissingReading(r.field, key);
    PersistReading(s, db, r.field, r.child, item, map[r.owner := Id(parent)], Some(Saved(key, row)), true);
  }

  /** Any other item creates a row, or names one that is missing. */
  lemma ReverseCreates(s: Setup, db: Database, r: Relation, parent: Key, item: Item)
    requires forall key :: IsNamed(s, r.child, item, key) ==> RowId(r.child, key) !in db.rows
    ensures PersistOutcome(s, db, r.field, r.child, item, map[r.owner := Id(parent)], None, false,
                           ReverseChild(s, db, r, parent, item))
  {
    hide Visible, ChildKey, IsNamed, Persist, PersistOutcome, HostsShow, TypeShows, HasUpdateHost;
    KeyReading(s, r.child, item);
    PersistReading(s, db, r.field, r.child, item, map[r.owner := Id(parent)], None, false);
  }

  /** A to-one reverse field takes one item. */
  lemma OneToOneTakesOne(s: Setup, db: Database, r: Relation, parent: Key, items: seq<Item>)
    requires r.kind == ReverseOne && |items| > 1
    ensures IsOneError(Attach(s, db, r, parent, items), [r.field], OneToOneOnly)
  {
  }

  /** An item of a many-to-many field that names a row not linked yet is only linked, when every update host shows
      the row; any other item is written. */
  lemma SharedReading(s: Setup, db: Database, r: Relation, parent: Key, item: Item, key: Key, row: Row)
    requires IsNamed(s, r.child, item, key) && HasRow(db, r.child, key, row)
    ensures var o := SharedChild(s, db, r, parent, item);
            if Link(r.field, parent, key) in db.links then
              PersistOutcome(s, db, r.field, r.child, item, map[], Some(Saved(key, row)), false, o)
            else if HostsShow(s, db, RowId(r.child, key)) then o == Done(db, Saved(key, row))
            else IsOneError(o, [r.field, IDENTITY], NotFound(key))
  {
    hide Visible, ChildKey, IsNamed, Persist, PersistOutcome, HostsShow, TypeShows;
    KeyReading(s, r.child, item);
    VisibleReading(s, db, RowId(r.child, key), false);
    MissingReading(r.field, key);
    PersistReading(s, db, r.field, r.child, item, map[], Some(Saved(key, row)), false);
  }

  lemma SharedCreates(s: Setup, db: Database, r: Relation, parent: Key, item: Item)
    requires forall key :: IsNamed(s, r.child, item, key) ==> RowId(r.child, key) !in db.rows
    ensures PersistOutcome(s, db, r.field, r.child, item, map[], None, false, SharedChild(s, db, r, parent, item))
  {
    hide Visible, ChildKey, IsNamed, Persist, PersistOutcome, HostsShow, TypeShows;
    KeyReading(s, r.child, item);
    PersistReading(s, db, r.field, r.child, item, map[], None, false);
  }

  // ------------------------------------------------------------------------ forward fields

  /** What the parent points at, as text; "None" when it points at nothing. */
  ghost predicate IsTargetText(instance: Option<Saved>, c: Column, text: string) {
    if instance.Some? && c in instance.value.row && instance.value.row[c].Id?
    then instance.value.row[c] == Id(Key(text)) else text == "None"
  }

  /** A forward item: one only; a key that differs as text from the target is a link, if every update host shows the
      row; the target's key alone leaves the column as it is; anything else is written, and the column gets its key. */
  lemma ForwardReading(s: Setup, db: Database, instance: Option<Saved>, r: Relation, items: seq<Item>)
    requires items != []
    ensures var o, item := ForwardValue(s, db, instance, r, items), items[0];
            var target := CurrentTarget(instance, r.field);
            if |items| > 1 then IsOneError(o, [r.field], ToOneOnly)
            else if exists key :: IsNamed(s, r.child, item, key) && !IsTargetText(instance, r.field, key.text) then
              exists key :: IsNamed(s, r.child, item, key)
                && if HostsShow(s, db, RowId(r.child, key)) then o == Done(db, Id(key))
                   else IsOneError(o, [r.field], InvalidKey(key))
            else if !NamesNone(s, r.child, item) && (forall c <- item :: c in {IDENTITY, s.keyColumn(r.child)}) then
              o == Done(db, if target.Some? then Id(target.value) else Null)
            else
              exists existing: Option<Saved>, saved: Outcome<Saved> ::
                && (existing.Some? ==> IsNamed(s, r.child, item, existing.value.key)
                                       && HasRow(db, r.child, existing.value.key, existing.value.row))
                && (existing.None? ==> forall key :: IsNamed(s, r.child, item, key) ==> RowId(r.child, key) !in db.rows)
                && PersistOutcome(s, db, r.field, r.child, item, map[], existing, false, saved)
                && o == match saved case Failed(f) => Failed(f) case Done(after, child) => Done(after, Id(child.key))
  {
    hide Visible, ChildKey, IsNamed, Persist, PersistOutcome, HostsShow, TypeShows, HasUpdateHost, CurrentTarget;
    var item := items[0];
    var key := ChildKey(s, r.child, item);
    KeyReading(s, r.child, item);
    if key.Some? {
      VisibleReading(s, db, RowId(r.child, key.value), false);
      assert IsNamed(s, r.child, item, key.value);
      TargetReading(instance, r.field, key.value);
      UnservedAreShown(s, db, RowId(r.child, key.value));
    }
    var existing := Lookup(db, r.child, key);
    PersistReading(s, db, r.field, r.child, item, map[], existing, false);
  }

  lemma TargetReading(instance: Option<Saved>, c: Column, key: Key)
    ensures key.text == TextOf(CurrentTarget(instance, c)) <==> IsTargetText(instance, c, key.text)
  {
  }

  lemma UnservedAreShown(s: Setup, db: Database, id: RowId)
    ensures !HasUpdateHost(s, id.model) ==> HostsShow(s, db, id)
  {
    VisibleReading(s, db, id, false);
  }

  // ----------------------------------------------------------- links checked before writing

  /** The payload links this key through the field: an item names it and is not of what the instance points at or
      links already, or the column's own plain value holds it. */
  ghost predicate LinksKey(s: Setup, db: Database, instance: Option<Saved>, r: Relation, data: Data, key: Key) {
    if data.Writes(r) then
      (exists item <- data.ItemsFor(r) :: IsNamed(s, r.child, item, key))
      && (instance.Some? ==> if r.kind == Forward then !IsTargetText(instance, r.field, key.text)
                             else Link(r.field, instance.value.key, key) !in db.links)
    else
      r.field in data.values
      && ((r.kind == Forward && data.values[r.field] == Id(key))
          || (r.kind == ManyToMany && data.values[r.field].Ids? && key in data.values[r.field].keys))
  }

  lemma {:induction false} ItemLinksReading(s: Setup, db: Database, instance: Option<Saved>, r: Relation,
      items: seq<Item>, key: Key)
    ensures key in LinkedByItems(s, db, instance, r, items) <==>
              IsLink(db, instance, r, key) && exists item <- items :: IsNamed(s, r.child, item, key)
  {
    hide IsNamed, ChildKey, IsLink;
    if items != [] {
      KeyReading(s, r.child, items[0]);
      ItemLinksReading(s, db, instance, r, items[1..], key);
      assert items == [items[0]] + items[1..];
    }
  }

  lemma LinkedReading(s: Setup, db: Database, instance: Option<Saved>, r: Relation, data: Data, key: Key)
    ensures key in Linked(s, db, instance, r, data) <==> LinksKey(s, db, instance, r, data, key)
  {
    hide IsNamed, IsTargetText, CurrentTarget, TextOf, Data.ItemsFor, Data.Writes;
    TargetReading(instance, r.field, key);
    if data.Writes(r) { ItemLinksReading(s, db, instance, r, data.ItemsFor(r), key); }
  }

  /** A field that links a row which its output type hides. */
  ghost predicate LinksHidden(s: Setup, db: Database, instance: Option<Saved>, r: Relation, data: Data, key: Key) {
    LinksKey(s, db, instance, r, data, key) && !TypeShows(s, db, RowId(r.child, key))
  }

  /** The links are refused exactly when some field links a hidden row, for the first such field, in the model's
      order, and one of its hidden keys. */
  lemma {:induction false} RefusedLinkReading(s: Setup, db: Database, instance: Option<Saved>,
      relations: seq<Relation>, data: Data)
    ensures var refused := RefusedLink(s, db, instance, relations, data);
            if refused.None? then forall r <- relations, key :: !LinksHidden(s, db, instance, r, data, key)
            else exists i, key :: RefusedAt(s, db, instance, relations, data, i, key)
                   && refused.value == Refused([FieldError([relations[i].field], InvalidKey(key))])
    decreases |relations|
  {
    hide LinksKey, TypeShows, Linked, Exposed;
    if relations != [] {
      var r, rest := relations[0], relations[1..];
      RefusedLinkReading(s, db, instance, rest, data);
      forall key ensures key in Linked(s, db, instance, r, data) <==> LinksKey(s, db, instance, r, data, key) {
        LinkedReading(s, db, instance, r, data, key);
      }
      forall key ensures Exposed(s, db, RowId(r.child, key)) <==> TypeShows(s, db, RowId(r.child, key)) {
        ExposedReading(s, db, RowId(r.child, key));
      }
      match FirstHidden(s, db, r.child, Linked(s, db, instance, r, data)) {
        case Some(key) =>
          FirstHiddenIsOne(s, db, r.child, Linked(s, db, instance, r, data));
          assert RefusedAt(s, db, instance, relations, data, 0, key);
        case None =>
          if RefusedLink(s, db, instance, rest, data).Some? {
            var failure := RefusedLink(s, db, instance, rest, data).value;
            var i, key :| RefusedAt(s, db, instance, rest, data, i, key)
              && failure == Refused([FieldError([rest[i].field], InvalidKey(key))]);
            assert relations[i + 1] == rest[i];
            forall j, k | 0 <= j < i + 1 ensures !LinksHidden(s, db, instance, relations[j], data, k) {
              if j > 0 { assert relations[j] == rest[j - 1]; }
            }
            assert RefusedAt(s, db, instance, relations, data, i + 1, key);
          }
      }
    }
  }

  lemma {:induction false} FirstHiddenIsOne(s: Setup, db: Database, m: Model, keys: seq<Key>)
    requires FirstHidden(s, db, m, keys).Some?
    ensures FirstHidden(s, db, m, keys).value in keys && !Exposed(s, db, RowId(m, FirstHidden(s, db, m, keys).value))
  {
    hide Exposed;
    if Exposed(s, db, RowId(m, keys[0])) { FirstHiddenIsOne(s, db, m, keys[1..]); }
  }

  lemma ExposedReading(s: Setup, db: Database, id: RowId)
    ensures Exposed(s, db, id) <==> TypeShows(s, db, id)
  {
  }

  ghost predicate RefusedAt(s: Setup, db: Database, instance: Option<Saved>, relations: seq<Relation>, data: Data,
      i: int, key: Key)
  {
    0 <= i < |relations| && LinksHidden(s, db, instance, relations[i], data, key)
    && forall j, k :: 0 <= j < i ==> !LinksHidden(s, db, instance, relations[j], data, k)
  }

  // ------------------------------------------------------------------- fields left alone

  /** A payload with nothing in it: null, an object without keys or an empty list. */
  predicate HoldsNothing(p: Payload) { p in {Nothing, One(map[]), Many([])} }

  /** The items a client gives for a relation. */
  function Given(data: Data, r: Relation): seq<Item> {
    if r.field !in data.nested then []
    else if data.nested[r.field].Many? then data.nested[r.field].items
    else if data.nested[r.field].One? && data.nested[r.field].item.Keys != {} then [data.nested[r.field].item]
    else []
  }

  ghost predicate SameItems(a: Data, b: Data) {
    a.values == b.values && forall r: Relation :: a.ItemsFor(r) == b.ItemsFor(r) && a.Writes(r) == b.Writes(r)
  }

  /** Just the given items are written, and a field that holds none is as good as absent. */
  lemma OnlyGivenItemsCount(s: Setup, db: Database, instance: Option<Saved>, data: Data, field: Column)
    ensures forall r: Relation :: data.ItemsFor(r) == Given(data, r) && (data.Writes(r) <==> Given(data, r) != [])
    ensures field in data.nested && HoldsNothing(data.nested[field]) ==>
              SaveNested(s, db, instance, data)
              == SaveNested(s, db, instance, data.(nested := data.nested - {field}))
  {
    hide SaveNested;
    forall r: Relation ensures data.ItemsFor(r) == Given(data, r) && (data.Writes(r) <==> Given(data, r) != []) {
      GivenItems(data, r);
    }
    if field in data.nested && HoldsNothing(data.nested[field]) {
      var without := data.(nested := data.nested - {field});
      SameSave(s, db, instance, data, without);
    }
  }

  lemma GivenItems(data: Data, r: Relation)
    ensures data.ItemsFor(r) == Given(data, r) && (data.Writes(r) <==> Given(data, r) != [])
  {
    if r.field in data.nested && data.nested[r.field].One? {
      assert data.nested[r.field].item.Keys == {} <==> data.nested[r.field].item == map[];
    }
  }

  lemma SameSave(s: Setup, db: Database, instance: Option<Saved>, a: Data, b: Data)
    requires SameItems(a, b)
    ensures SaveNested(s, db, instance, a) == SaveNested(s, db, instance, b)
  {
    hide Forwards, Save, AttachAll, RefusedLink, SameItems;
    SameRefusal(s, db, instance, s.relations, a, b);
    SameForwards(s, db, instance, s.nested, a, b, a.values);
    assert a.values == b.values by { SameValues(a, b); }
    forall parented: Database, parent: Key
      ensures AttachAll(s, parented, s.nested, parent, a) == AttachAll(s, parented, s.nested, parent, b)
    {
      SameAttached(s, parented, s.nested, parent, a, b);
    }
  }

  lemma SameValues(a: Data, b: Data)
    requires SameItems(a, b)
    ensures a.values == b.values
  {
  }

  lemma {:induction false} SameRefusal(s: Setup, db: Database, instance: Option<Saved>, relations: seq<Relation>,
      a: Data, b: Data)
    requires SameItems(a, b)
    ensures RefusedLink(s, db, instance, relations, a) == RefusedLink(s, db, instance, relations, b)
  {
    hide Data.ItemsFor, Data.Writes, FirstHidden, LinkedByItems;
    if relations != [] { SameRefusal(s, db, instance, relations[1..], a, b); }
  }

  lemma {:induction false} SameForwards(s: Setup, db: Database, instance: Option<Saved>, relations: seq<Relation>,
      a: Data, b: Data, values: Item)
    requires SameItems(a, b)
    ensures Forwards(s, db, instance, relations, a, values) == Forwards(s, db, instance, relations, b, values)
    decreases |relations|
  {
    hide Data.ItemsFor, Data.Writes, ForwardValue;
    if relations != [] {
      var r := relations[0];
      GivenItems(a, r);
      if r.kind != Forward || !a.Writes(r) {
        SameForwards(s, db, instance, relations[1..], a, b, values);
      } else {
        match ForwardValue(s, db, instance, r, a.ItemsFor(r))
        case Failed(_) =>
        case Done(after, value) => SameForwards(s, after, instance, relations[1..], a, b, values[r.field := value]);
      }
    }
  }

  lemma {:induction false} SameAttached(s: Setup, db: Database, relations: seq<Relation>, parent: Key, a: Data, b: Data)
    requires SameItems(a, b)
    ensures AttachAll(s, db, relations, parent, a) == AttachAll(s, db, relations, parent, b)
    decreases |relations|
  {
    hide Data.ItemsFor, Data.Writes, Attach;
    if relations != [] {
      var r := relations[0];
      if r.kind == Forward || !a.Writes(r) {
        SameAttached(s, db, relations[1..], parent, a, b);
      } else {
        match Attach(s, db, r, parent, a.ItemsFor(r))
        case Failed(_) =>
        case Done(after, _) => SameAttached(s, after, relations[1..], parent, a, b);
      }
    }
  }
}
