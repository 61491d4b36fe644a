/** Which rows a nested save links, and that it leaves every reference naming a row. */
module NestedLinks {
  import opened Options
  import opened NestedInputs
  import opened NestedWrites
  import opened NestedWitnesses
  import opened NestedFrame
  import opened NestedEffects

  // ----------------------------------------------------------- references stay whole

  /** Every reference held by a row names a row. */
  ghost predicate RowsResolve(s: Setup, db: Database) {
    forall id <- db.rows :: Resolves(s, db, id.model, db.rows[id])
  }

  lemma SaveStaysWhole(s: Setup, db: Database, m: Model, instance: Option<Saved>, item: Item, extra: Row)
    requires RowsResolve(s, db) && Save(s, db, m, instance, item, extra).Done?
    ensures RowsResolve(s, Save(s, db, m, instance, item, extra).db)
  {
    hide Written;
    var Done(after, saved) := Save(s, db, m, instance, item, extra);
    forall id <- after.rows ensures Resolves(s, after, id.model, after.rows[id]) {
      if id != RowId(m, saved.key) {
        assert Resolves(s, db, id.model, db.rows[id]);
      }
    }
  }

  lemma PersistStaysWhole(s: Setup, db: Database, field: Column, m: Model, item: Item, extra: Row,
      existing: Option<Saved>, checked: bool)
    requires RowsResolve(s, db) && Persist(s, db, field, m, item, extra, existing, checked).Done?
    ensures RowsResolve(s, Persist(s, db, field, m, item, extra, existing, checked).db)
  {
    hide Save, RowsResolve, Visible, ChildKey;
    SaveStaysWhole(s, db, m, existing, item, extra);
  }

  lemma {:induction false} ReverseChildrenStayWhole(s: Setup, db: Database, r: Relation, parent: Key, items: seq<Item>)
    requires RowsResolve(s, db) && ReverseChildren(s, db, r, parent, items).Done?
    ensures RowsResolve(s, ReverseChildren(s, db, r, parent, items).db)
    decreases |items|
  {
    hide Persist, RowsResolve, Visible, ChildKey, Objection;
    if items != [] {
      var existing := Lookup(db, r.child, ChildKey(s, r.child, items[0]));
      PersistStaysWhole(s, db, r.field, r.child, items[0], map[r.owner := Id(parent)], existing, existing.Some?);
      ReverseChildrenStayWhole(s, ReverseChild(s, db, r, parent, items[0]).db, r, parent, items[1..]);
    }
  }

  lemma {:induction false} SharedChildrenStayWhole(s: Setup, db: Database, r: Relation, parent: Key, items: seq<Item>)
    requires RowsResolve(s, db) && SharedChildren(s, db, r, parent, items).Done?
    ensures RowsResolve(s, SharedChildren(s, db, r, parent, items).db)
    decreases |items|
  {
    hide Persist, RowsResolve, Visible, ChildKey;
    if items != [] {
      var existing := Lookup(db, r.child, ChildKey(s, r.child, items[0]));
      if !(existing.Some? && Link(r.field, parent, existing.value.key) !in db.links) {
        PersistStaysWhole(s, db, r.field, r.child, items[0], map[], existing, false);
      }
      SharedChildrenStayWhole(s, SharedChild(s, db, r, parent, items[0]).db, r, parent, items[1..]);
    }
  }

  lemma {:induction false} AttachAllStaysWhole(s: Setup, db: Database, relations: seq<Relation>, parent: Key,
      data: Data)
    requires RowsResolve(s, db) && AttachAll(s, db, relations, parent, data).Done?
    ensures RowsResolve(s, AttachAll(s, db, relations, parent, data).db)
    decreases |relations|
  {
    hide ReverseChildren, SharedChildren, RowsResolve;
    if relations != [] {
      var r := relations[0];
      if r.kind == Forward || !data.Writes(r) {
        AttachAllStaysWhole(s, db, relations[1..], parent, data);
      } else {
        var items := data.ItemsFor(r);
        if r.kind == ManyToMany {
          SharedChildrenStayWhole(s, db, r, parent, items);
          var Done(after, children) := SharedChildren(s, db, r, parent, items);
          LinksLeaveWhole(s, after, after.links + LinksTo(r.field, parent, children));
        } else {
          ReverseChildrenStayWhole(s, db, r, parent, items);
        }
        AttachAllStaysWhole(s, Attach(s, db, r, parent, items).db, relations[1..], parent, data);
      }
    }
  }

  lemma LinksLeaveWhole(s: Setup, db: Database, links: set<Link>)
    requires RowsResolve(s, db)
    ensures RowsResolve(s, db.(links := links))
  {
    forall id <- db.rows ensures Resolves(s, db.(links := links), id.model, db.rows[id]) {
      assert Resolves(s, db, id.model, db.rows[id]);
    }
  }

  lemma {:induction false} ForwardsStayWhole(s: Setup, db: Database, instance: Option<Saved>,
      relations: seq<Relation>, data: Data, values: Item)
    requires RowsResolve(s, db) && Forwards(s, db, instance, relations, data, values).Done?
    ensures RowsResolve(s, Forwards(s, db, instance, relations, data, values).db)
    decreases |relations|
  {
    hide Persist, RowsResolve, Visible, ChildKey, CurrentTarget, IdentityColumns;
    if relations != [] {
      var r := relations[0];
      if r.kind != Forward || !data.Writes(r) {
        ForwardsStayWhole(s, db, instance, relations[1..], data, values);
      } else {
        ForwardStaysWhole(s, db, instance, r, data.ItemsFor(r));
        var Done(after, value) := ForwardValue(s, db, instance, r, data.ItemsFor(r));
        ForwardsStayWhole(s, after, instance, relations[1..], data, values[r.field := value]);
      }
    }
  }

  lemma ForwardStaysWhole(s: Setup, db: Database, instance: Option<Saved>, r: Relation, items: seq<Item>)
    requires items != [] && RowsResolve(s, db) && ForwardValue(s, db, instance, r, items).Done?
    ensures RowsResolve(s, ForwardValue(s, db, instance, r, items).db)
  {
    hide Persist, RowsResolve, Visible, ChildKey, IdentityColumns;
    var item := items[0];
    var key := ChildKey(s, r.child, item);
    var current := CurrentTarget(instance, r.field);
    if !(key.Some? && (key.value.text != TextOf(current) || item.Keys <= IdentityColumns(s, r.child))) {
      PersistStaysWhole(s, db, r.field, r.child, item, map[], Lookup(db, r.child, key), false);
    }
  }

  // ---------------------------------------------------------------- links stay whole

  /** Both ends of every link name rows. */
  ghost predicate LinksJoinRows(s: Setup, db: Database) {
    forall l <- db.links ::
      && RowId(s.model, l.parent) in db.rows
      && forall r <- s.nested | r.field == l.field :: RowId(r.child, l.child) in db.rows
  }

  lemma LinksJoinMoreRows(s: Setup, db: Database, after: Database)
    requires LinksJoinRows(s, db) && Grown(db, after) && after.links == db.links
    ensures LinksJoinRows(s, after)
  {
  }

  lemma SharedChildExists(s: Setup, db: Database, r: Relation, parent: Key, item: Item)
    requires Allocates(s.hooks) && SharedChild(s, db, r, parent, item).Done?
    ensures var Done(after, child) := SharedChild(s, db, r, parent, item);
            RowId(r.child, child.key) in after.rows
  {
    hide Visible, Persist, ChildKey;
    var existing := Lookup(db, r.child, ChildKey(s, r.child, item));
    if !(existing.Some? && Link(r.field, parent, existing.value.key) !in db.links) {
      PersistedRow(s, db, r.field, r.child, item, map[], existing, false);
    }
  }

  lemma {:induction false} SharedChildrenExist(s: Setup, db: Database, r: Relation, parent: Key, items: seq<Item>)
    requires Allocates(s.hooks) && SharedChildren(s, db, r, parent, items).Done?
    ensures var Done(after, children) := SharedChildren(s, db, r, parent, items);
            forall k <- children :: RowId(r.child, k) in after.rows
    decreases |items|
  {
    hide SharedChild, Allocates, Answers;
    if items != [] {
      SharedChildExists(s, db, r, parent, items[0]);
      var Done(first, child) := SharedChild(s, db, r, parent, items[0]);
      SharedChildrenExist(s, first, r, parent, items[1..]);
      SharedChildrenAnswer(s, first, r, parent, items[1..]);
    }
  }

  lemma {:induction false} AttachAllJoinsRows(s: Setup, db: Database, relations: seq<Relation>, parent: Key, data: Data)
    requires Allocates(s.hooks) && DistinctFields(s.nested) && forall r <- relations :: r in s.nested
    requires LinksJoinRows(s, db) && RowId(s.model, parent) in db.rows
    requires AttachAll(s, db, relations, parent, data).Done?
    ensures LinksJoinRows(s, AttachAll(s, db, relations, parent, data).db)
    decreases |relations|
  {
    hide Attach, Allocates, LinksJoinRows, DistinctFields, Data.ItemsFor, Data.Writes, Answers, TiedTo;
    if relations != [] {
      var r := relations[0];
      if r.kind == Forward || !data.Writes(r) {
        AttachAllJoinsRows(s, db, relations[1..], parent, data);
      } else {
        AttachJoinsRows(s, db, r, parent, data.ItemsFor(r));
        AttachTies(s, db, r, parent, data.ItemsFor(r));
        AttachAllJoinsRows(s, Attach(s, db, r, parent, data.ItemsFor(r)).db, relations[1..], parent, data);
      }
    }
  }

  lemma AttachJoinsRows(s: Setup, db: Database, r: Relation, parent: Key, items: seq<Item>)
    requires Allocates(s.hooks) && DistinctFields(s.nested) && r in s.nested && r.kind != Forward
    requires LinksJoinRows(s, db) && RowId(s.model, parent) in db.rows
    requires Attach(s, db, r, parent, items).Done?
    ensures LinksJoinRows(s, Attach(s, db, r, parent, items).db)
  {
    hide SharedChildren, ReverseChildren, Allocates, Answers, PointsAt;
    if r.kind == ManyToMany {
      SharedChildrenExist(s, db, r, parent, items);
      SharedChildrenAnswer(s, db, r, parent, items);
      SharedChildrenLeaveLinks(s, db, r, parent, items);
    } else {
      ReverseChildrenTied(s, db, r, parent, items);
      ReverseChildrenLeaveLinks(s, db, r, parent, items);
      LinksJoinMoreRows(s, db, ReverseChildren(s, db, r, parent, items).db);
    }
  }

  /** No reference dangles: those that rows hold name rows, and both ends of every link do. */
  ghost predicate Whole(s: Setup, db: Database) { RowsResolve(s, db) && LinksJoinRows(s, db) }

  /** A save never leaves a reference to a row that is not there, in a row or in a link. */
  lemma SaveKeepsReferencesWhole(s: Setup, db: Database, instance: Option<Saved>, data: Data)
    requires Allocates(s.hooks) && DistinctFields(s.nested)
    requires Whole(s, db) && SaveNested(s, db, instance, data).Done?
    ensures Whole(s, SaveNested(s, db, instance, data).db)
  {
    hide RowsResolve, LinksJoinRows, RefusedLink, Forwards, AttachAll, Save, Allocates, DistinctFields;
    ForwardsStayWhole(s, db, instance, s.nested, data, data.values);
    var Done(linked, values) := Forwards(s, db, instance, s.nested, data, data.values);
    SaveStaysWhole(s, linked, s.model, instance, values, map[]);
    var Done(parented, parent) := Save(s, linked, s.model, instance, values, map[]);
    AttachAllStaysWhole(s, parented, s.nested, parent.key, data);
    SaveGrows(s, db, instance, data);
    LinksBeforeAttaching(s, db, instance, data);
    LinksJoinMoreRows(s, db, parented);
    SavedRow(s, linked, s.model, instance, values, map[]);
    AttachAllJoinsRows(s, parented, s.nested, parent.key, data);
  }

  // ------------------------------------------------------------ links to rows in scope

  /** The links the relations added come from their items: to the row an item names, or to a new row. */
  ghost predicate FromItems(s: Setup, before: Database, relations: seq<Relation>, data: Data, l: Link) {
    exists r <- relations, item ::
      && r.kind == ManyToMany && r.field == l.field && item in data.ItemsFor(r)
      && (ChildKey(s, r.child, item) == Some(l.child) || RowId(r.child, l.child) !in before.rows)
  }

  lemma AttachedLinks(s: Setup, db: Database, r: Relation, parent: Key, data: Data, l: Link)
    requires Allocates(s.hooks) && r.kind == ManyToMany
    requires Attach(s, db, r, parent, data.ItemsFor(r)).Done?
    requires l in Attach(s, db, r, parent, data.ItemsFor(r)).db.links && l !in db.links
    ensures FromItems(s, db, [r], data, l)
  {
    hide SharedChildren, ChildKey, Data.ItemsFor, Allocates;
    var items := data.ItemsFor(r);
    SharedChildrenAnswer(s, db, r, parent, items);
    SharedChildrenLeaveLinks(s, db, r, parent, items);
    var Done(_, children) := SharedChildren(s, db, r, parent, items);
    var i :| 0 <= i < |children| && children[i] == l.child;
    assert items[i] in items && r in [r];
  }

  lemma {:induction false} AttachAllLinks(s: Setup, before: Database, db: Database, relations: seq<Relation>,
      parent: Key, data: Data, l: Link)
    requires Allocates(s.hooks) && Grown(before, db)
    requires AttachAll(s, db, relations, parent, data).Done?
    requires l in AttachAll(s, db, relations, parent, data).db.links && l !in db.links
    ensures FromItems(s, before, relations, data, l)
    decreases |relations|
  {
    hide Attach, ChildKey, Data.ItemsFor, Data.Writes, Allocates, FromItems;
    var r := relations[0];
    if r.kind == Forward || !data.Writes(r) {
      AttachAllLinks(s, before, db, relations[1..], parent, data, l);
      FromItemsWider(s, before, before, relations[1..], relations, data, l);
    } else {
      AttachTies(s, db, r, parent, data.ItemsFor(r));
      var Done(next, _) := Attach(s, db, r, parent, data.ItemsFor(r));
      if l in next.links {
        ReverseAttachLeavesLinks(s, db, r, parent, data.ItemsFor(r));
        AttachedLinks(s, db, r, parent, data, l);
        FromItemsWider(s, before, db, [r], relations, data, l);
      } else {
        AttachAllLinks(s, before, next, relations[1..], parent, data, l);
        FromItemsWider(s, before, before, relations[1..], relations, data, l);
      }
    }
  }

  lemma ReverseAttachLeavesLinks(s: Setup, db: Database, r: Relation, parent: Key, items: seq<Item>)
    requires Attach(s, db, r, parent, items).Done?
    ensures r.kind != ManyToMany ==> Attach(s, db, r, parent, items).db.links == db.links
  {
    if r.kind in {ReverseOne, ReverseMany} { ReverseChildrenLeaveLinks(s, db, r, parent, items); }
  }

  lemma FromItemsWider(s: Setup, before: Database, now: Database, some: seq<Relation>, all: seq<Relation>,
      data: Data, l: Link)
    requires FromItems(s, now, some, data, l) && Grown(before, now)
    requires forall r <- some :: r in all
    ensures FromItems(s, before, all, data, l)
  {
    hide ChildKey, Data.ItemsFor;
    var r, item :| r in some && r.kind == ManyToMany && r.field == l.field && item in data.ItemsFor(r)
                   && (ChildKey(s, r.child, item) == Some(l.child) || RowId(r.child, l.child) !in now.rows);
    assert r in all && item in data.ItemsFor(r);
  }

  lemma {:induction false} NamedKeys(s: Setup, db: Database, instance: Option<Saved>, r: Relation,
      items: seq<Item>, item: Item)
    requires item in items && ChildKey(s, r.child, item).Some?
        && IsLink(db, instance, r, ChildKey(s, r.child, item).value)
    ensures ChildKey(s, r.child, item).value in LinkedByItems(s, db, instance, r, items)
    decreases |items|
  {
    hide ChildKey, IsLink;
    if item != items[0] { NamedKeys(s, db, instance, r, items[1..], item); }
  }

  lemma {:induction false} CheckedLinks(s: Setup, db: Database, instance: Option<Saved>,
      relations: seq<Relation>, data: Data, r: Relation)
    requires RefusedLink(s, db, instance, relations, data).None? && r in relations
    ensures forall k <- Linked(s, db, instance, r, data) :: Exposed(s, db, RowId(r.child, k))
  {
    hide Exposed, Linked;
    if r != relations[0] { CheckedLinks(s, db, instance, relations[1..], data, r); }
  }

  /** A link that a save adds to a row that existed before goes to a row its output type exposes. */
  lemma NewLinksAreExposed(s: Setup, db: Database, instance: Option<Saved>, data: Data, r: Relation, l: Link)
    requires Allocates(s.hooks) && DistinctFields(s.nested)
    requires SaveNested(s, db, instance, data).Done?
    requires r in s.nested && r in s.relations && r.field == l.field && RowId(r.child, l.child) in db.rows
    requires l in SaveNested(s, db, instance, data).db.links && l !in db.links
    ensures Exposed(s, db, RowId(r.child, l.child))
  {
    hide Allocates, RefusedLink, Forwards, AttachAll, Save, ChildKey, Exposed, Data.ItemsFor, DistinctFields, FromItems;
    var Done(after, parent) := SaveNested(s, db, instance, data);
    var Done(linked, values) := Forwards(s, db, instance, s.nested, data, data.values);
    var parented := Save(s, linked, s.model, instance, values, map[]).db;
    SaveGrows(s, db, instance, data);
    LinksBeforeAttaching(s, db, instance, data);
    AttachAllLinks(s, db, parented, s.nested, parent.key, data, l);
    RowFrame(s, db, instance, data);
    SavedRow(s, linked, s.model, instance, values, map[]);
    LinkedItem(s, db, instance, data, r, l);
    CheckedLinks(s, db, instance, s.relations, data, r);
  }

  lemma LinksBeforeAttaching(s: Setup, db: Database, instance: Option<Saved>, data: Data)
    requires Allocates(s.hooks) && SaveNested(s, db, instance, data).Done?
    ensures var Done(linked, values) := Forwards(s, db, instance, s.nested, data, data.values);
            Save(s, linked, s.model, instance, values, map[]).db.links == db.links
  {
    hide Allocates, RefusedLink, Forwards, AttachAll, Save;
    var Done(linked, values) := Forwards(s, db, instance, s.nested, data, data.values);
    var call := Call(s, db, instance, data, Save(s, linked, s.model, instance, values, map[]).value.key);
    FramedAtFirst(call);
    ForwardsFramed(call, db, s.nested, data.values);
    SavedRow(s, linked, s.model, instance, values, map[]);
  }

  lemma LinkedItem(s: Setup, db: Database, instance: Option<Saved>, data: Data, r: Relation, l: Link)
    requires FromItems(s, db, s.nested, data, l) && DistinctFields(s.nested)
    requires r in s.nested && r.field == l.field && RowId(r.child, l.child) in db.rows
    requires l !in db.links && (instance.Some? ==> l.parent == instance.value.key)
    ensures l.child in Linked(s, db, instance, r, data)
  {
    hide ChildKey, Data.ItemsFor;
    var x, item :| x in s.nested && x.kind == ManyToMany && x.field == l.field && item in data.ItemsFor(x)
                   && (ChildKey(s, x.child, item) == Some(l.child) || RowId(x.child, l.child) !in db.rows);
    assert x == r;
    ItemMeansPayload(data, r, item);
    NamedKeys(s, db, instance, r, data.ItemsFor(r), item);
  }

  lemma ItemMeansPayload(data: Data, r: Relation, item: Item)
    requires item in data.ItemsFor(r)
    ensures data.Writes(r)
  {
  }

  // -------------------------------------------------------------- links to rows shown

  /** A new row, or one that every update host shows in one of these states. */
  ghost predicate ShownToLink(s: Setup, before: Database, states: set<Database>, id: RowId) {
    id !in before.rows || exists during <- states :: SeenBy(s, during, id, Serving(s.hosts(id.model), Update))
  }

  lemma {:induction false} SharedLinksAreShown(s: Setup, before: Database, db: Database, r: Relation, parent: Key,
      items: seq<Item>)
    requires Allocates(s.hooks) && Grown(before, db) && SharedChildren(s, db, r, parent, items).Done?
    ensures forall k <- SharedChildren(s, db, r, parent, items).value ::
              Link(r.field, parent, k) in db.links
                  || ShownToLink(s, before, SharedStates(s, db, r, parent, items), RowId(r.child, k))
    decreases |items|
  {
    hide SharedChild, Allocates, ShownToLink;
    if items != [] {
      var Done(first, child) := SharedChild(s, db, r, parent, items[0]);
      SharedChildIsShown(s, before, db, r, parent, items[0]);
      SharedChildAnswers(s, db, r, parent, items[0]);
      SharedChildrenLeaveLinks(s, db, r, parent, [items[0]]);
      SharedLinksAreShown(s, before, first, r, parent, items[1..]);
      var rest := SharedStates(s, first, r, parent, items[1..]);
      var Done(_, children) := SharedChildren(s, first, r, parent, items[1..]);
      SharedChildLeavesLinks(s, db, r, parent, items[0]);
      forall k <- [child.key] + children
        ensures Link(r.field, parent, k) in db.links || ShownToLink(s, before, {db} + rest, RowId(r.child, k))
      {
        if k in children && Link(r.field, parent, k) !in db.links {
          ShownInMore(s, before, rest, {db} + rest, RowId(r.child, k));
        } else if Link(r.field, parent, k) !in db.links {
          ShownInMore(s, before, {db}, {db} + rest, RowId(r.child, k));
        }
      }
    }
  }

  lemma ShownInMore(s: Setup, before: Database, some: set<Database>, more: set<Database>, id: RowId)
    requires ShownToLink(s, before, some, id) && some <= more
    ensures ShownToLink(s, before, more, id)
  {
    hide SeenBy;
  }

  lemma SharedChildLeavesLinks(s: Setup, db: Database, r: Relation, parent: Key, item: Item)
    requires SharedChild(s, db, r, parent, item).Done?
    ensures SharedChild(s, db, r, parent, item).db.links == db.links
  {
    hide Visible, ChildKey, Resolves, Written;
  }

  lemma SharedChildIsShown(s: Setup, before: Database, db: Database, r: Relation, parent: Key, item: Item)
    requires Allocates(s.hooks) && Grown(before, db) && SharedChild(s, db, r, parent, item).Done?
    ensures var k := SharedChild(s, db, r, parent, item).value.key;
            Link(r.field, parent, k) in db.links || ShownToLink(s, before, {db}, RowId(r.child, k))
  {
    hide SeenBy, Exposed, Persist, ChildKey;
    var key := ChildKey(s, r.child, item);
    var existing := Lookup(db, r.child, key);
    if existing.Some? && Link(r.field, parent, existing.value.key) !in db.links {
      assert SeenBy(s, db, RowId(r.child, existing.value.key), Serving(s.hosts(r.child), Update));
    } else {
      PersistedRow(s, db, r.field, r.child, item, map[], existing, false);
    }
  }

  lemma {:induction false} AttachedLinksAreShown(s: Setup, before: Database, db: Database, relations: seq<Relation>,
      parent: Key, data: Data, l: Link)
      returns (r: Relation)
    requires Allocates(s.hooks) && Grown(before, db)
    requires AttachAll(s, db, relations, parent, data).Done?
    requires l in AttachAll(s, db, relations, parent, data).db.links && l !in db.links
    ensures r in relations && r.field == l.field
    ensures ShownToLink(s, before, AttachAllStates(s, db, relations, parent, data), RowId(r.child, l.child))
    decreases |relations|
  {
    hide Attach, AttachStates, Data.ItemsFor, Data.Writes, Allocates, ShownToLink, Answers, TiedTo;
    var head, states := relations[0], AttachAllStates(s, db, relations, parent, data);
    if head.kind == Forward || !data.Writes(head) {
      r := AttachedLinksAreShown(s, before, db, relations[1..], parent, data, l);
    } else {
      AttachTies(s, db, head, parent, data.ItemsFor(head));
      var Done(next, _) := Attach(s, db, head, parent, data.ItemsFor(head));
      if l in next.links {
        r := head;
        HeadLinksAreShown(s, before, db, head, parent, data.ItemsFor(head), l);
        ShownInMore(s, before, AttachStates(s, db, head, parent, data.ItemsFor(head)), states, RowId(r.child, l.child));
      } else {
        r := AttachedLinksAreShown(s, before, next, relations[1..], parent, data, l);
        ShownInMore(s, before, AttachAllStates(s, next, relations[1..], parent, data), states, RowId(r.child, l.child));
      }
    }
  }

  lemma HeadLinksAreShown(s: Setup, before: Database, db: Database, r: Relation, parent: Key, items: seq<Item>, l: Link)
    requires Allocates(s.hooks) && Grown(before, db) && Attach(s, db, r, parent, items).Done?
    requires l in Attach(s, db, r, parent, items).db.links && l !in db.links
    ensures r.field == l.field && ShownToLink(s, before, AttachStates(s, db, r, parent, items), RowId(r.child, l.child))
  {
    hide SharedChildren, ReverseChildren, Allocates, ShownToLink;
    ReverseAttachLeavesLinks(s, db, r, parent, items);
    SharedChildrenLeaveLinks(s, db, r, parent, items);
    SharedLinksAreShown(s, before, db, r, parent, items);
  }

  /** A link that a save adds to a row that existed before goes to a row that every update host shows in
      a state the save passes through. */
  lemma NewLinksAreShown(s: Setup, db: Database, instance: Option<Saved>, data: Data, r: Relation, l: Link)
    requires Allocates(s.hooks) && DistinctFields(s.nested)
    requires SaveNested(s, db, instance, data).Done?
    requires r in s.nested && r.field == l.field
    requires l in SaveNested(s, db, instance, data).db.links && l !in db.links
    ensures ShownToLink(s, db, SaveStates(s, db, instance, data), RowId(r.child, l.child))
  {
    hide Allocates, RefusedLink, Forwards, AttachAll, Save, ShownToLink, AttachAllStates, ForwardStates;
    var Done(after, parent) := SaveNested(s, db, instance, data);
    var Done(linked, values) := Forwards(s, db, instance, s.nested, data, data.values);
    var parented := Save(s, linked, s.model, instance, values, map[]).db;
    SaveGrows(s, db, instance, data);
    LinksBeforeAttaching(s, db, instance, data);
    var x := AttachedLinksAreShown(s, db, parented, s.nested, parent.key, data, l);
    assert x == r;
    ShownInMore(s, db, AttachAllStates(s, parented, s.nested, parent.key, data), SaveStates(s, db, instance, data),
        RowId(r.child, l.child));
  }

  // ----------------------------------------------------- accessors that nobody checks

  const OWNER := Key("1")
  const TAG := Key("2")

  /** The parent and a row its many-to-many field does not link yet. */
  function TwoRows(s: Setup, r: Relation): Database {
    Database(map[RowId(s.model, OWNER) := map[], RowId(r.child, TAG) := map[]], {})
  }

  function LinkingIt(r: Relation): Data { Data(map[], map[r.field := One(map[IDENTITY := Id(TAG)])]) }

  lemma NamedIsLinked(s: Setup, db: Database, r: Relation, item: Item)
    requires s.hooks == SECRETIVE && r.kind == ManyToMany && ChildKey(s, r.child, item) == Some(TAG)
    requires RowId(r.child, TAG) in db.rows && Link(r.field, OWNER, TAG) !in db.links
    ensures Attach(s, db, r, OWNER, [item]) == Done(db.(links := db.links + {Link(r.field, OWNER, TAG)}), [TAG])
  {
    hide ChildKey;
    var row := db.rows[RowId(r.child, TAG)];
    assert SharedChild(s, db, r, OWNER, item) == Done(db, Saved(TAG, row));
    var nobody: seq<Item> := [];
    assert [item][1..] == nobody;
    assert SharedChildren(s, db, r, OWNER, nobody) == Done(db, []);
    assert [TAG] + [] == [TAG];
    assert LinksTo(r.field, OWNER, [TAG]) == {Link(r.field, OWNER, TAG)};
  }

  lemma LinkingMeans(s: Setup, r: Relation)
    ensures var data, item: Item := LinkingIt(r), map[IDENTITY := Id(TAG)];
            && data.Writes(r) && data.ItemsFor(r) == [item] && ChildKey(s, r.child, item) == Some(TAG)
            && forall x: Relation :: data.Writes(x) ==> x.field == r.field
    ensures var db := TwoRows(s, r);
            && db.Find(s.model, OWNER) == Some(Saved(OWNER, map[])) && RowId(r.child, TAG) in db.rows
  {
    var item: Item := map[IDENTITY := Id(TAG)];
    assert IDENTITY in item;
    assert OWNER.text[0] != TAG.text[0];
  }

  /** In every project in which a nested many-to-many field is not among the fields that are checked, a save may
      link a row through it that its output type does not expose. */
  lemma AccessorLinksAreUnchecked(s: Setup, r: Relation)
    requires DistinctFields(s.nested) && r in s.nested && r.kind == ManyToMany
    requires forall x <- s.relations :: x.field != r.field
    ensures var hiding, db := s.(hooks := SECRETIVE), TwoRows(s, r);
            var o := SaveNested(hiding, db, Some(Saved(OWNER, map[])), LinkingIt(r));
            && o.Done? && RowId(r.child, TAG) in db.rows && Link(r.field, OWNER, TAG) in o.db.links - db.links
            && !Exposed(hiding, db, RowId(r.child, TAG))
  {
    hide Attach, AttachAll, RefusedLink, Data.Writes, Data.ItemsFor, SaveNested;
    var hiding, db, data := s.(hooks := SECRETIVE), TwoRows(s, r), LinkingIt(r);
    LinkingMeans(hiding, r);
    NamedIsLinked(hiding, db, r, map[IDENTITY := Id(TAG)]);
    var after := Attach(hiding, db, r, OWNER, data.ItemsFor(r)).db;
    var i :| 0 <= i < |s.nested| && s.nested[i] == r;
    forall x | x in s.nested[..i] || x in s.nested[i + 1..] ensures !data.Writes(x) { }
    FieldIsAttached(hiding, db, s.nested, i, OWNER, data);
    NothingAttached(hiding, after, s.nested[i + 1..], OWNER, data);
    forall x <- s.relations ensures Linked(hiding, db, Some(Saved(OWNER, map[])), x, data) == [] {
      assert !data.Writes(x);
    }
    NothingRefused(hiding, db, Some(Saved(OWNER, map[])), s.relations, data);
    SavingAttaches(hiding, db, OWNER, data);
  }

  /** If the save completes, a link it adds to a row that existed goes to a row its output type exposes. */
  ghost predicate Exposes(s: Setup, db: Database, instance: Option<Saved>, data: Data, r: Relation, l: Link) {
    Allocates(s.hooks) && SaveNested(s, db, instance, data).Done? && l.field == r.field
    && RowId(r.child, l.child) in db.rows && l in SaveNested(s, db, instance, data).db.links && l !in db.links ==>
      Exposed(s, db, RowId(r.child, l.child))
  }

  /** Every link a completed save adds through a many-to-many field to a row that existed, whatever the hooks, the
      database and the payload, goes to a row its output type exposes, exactly when the field is among those that
      are checked: the model's own. */
  lemma LinksExposedWhenChecked(s: Setup, r: Relation)
    requires DistinctFields(s.nested) && r in s.nested && r.kind == ManyToMany
    requires forall x <- s.relations :: x.field == r.field ==> x == r
    ensures (forall hooks, db, instance, data, l :: Exposes(s.(hooks := hooks), db, instance, data, r, l))
       <==> r in s.relations
  {
    hide Allocates, SaveNested, DistinctFields, Exposed;
    if r in s.relations {
      forall hooks, db, instance, data, l ensures Exposes(s.(hooks := hooks), db, instance, data, r, l) {
        var given := s.(hooks := hooks);
        if !Exposes(given, db, instance, data, r, l) { NewLinksAreExposed(given, db, instance, data, r, l); }
      }
    } else {
      AccessorLinksAreUnchecked(s, r);
      PermissiveAllocates();
      assert !Exposes(s.(hooks := SECRETIVE), TwoRows(s, r), Some(Saved(OWNER, map[])), LinkingIt(r), r,
                      Link(r.field, OWNER, TAG));
    }
  }
}
