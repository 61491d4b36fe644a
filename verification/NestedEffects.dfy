/** What a nested save brings about: every item is answered by a row, and that row is tied to the parent. */
module NestedEffects {
  import opened Options
  import opened NestedInputs
  import opened NestedWrites
  import opened NestedFrame

  /** The child row names the parent in its owner column. */
  predicate PointsAt(db: Database, id: RowId, c: Column, parent: Key) {
    id in db.rows && OwnerOf(db.rows[id], c) == Some(parent)
  }

  /** The keys belong to the items, one for one: an item that names a row gets that row, any other a row
      that did not exist before. */
  ghost predicate Answers(s: Setup, before: Database, m: Model, items: seq<Item>, children: seq<Key>) {
    && |children| == |items|
    && forall i :: 0 <= i < |items| ==>
         (match ChildKey(s, m, items[i])
          case Some(key) => children[i] == key
          case None => RowId(m, children[i]) !in before.rows)
  }

  predicate Grown(before: Database, now: Database) { before.rows.Keys <= now.rows.Keys }

  lemma AnswersEarlier(s: Setup, before: Database, now: Database, m: Model, items: seq<Item>, children: seq<Key>)
    requires Answers(s, now, m, items, children) && Grown(before, now)
    ensures Answers(s, before, m, items, children)
  {
    hide ChildKey;
    forall i | 0 <= i < |items| && ChildKey(s, m, items[i]).None? ensures RowId(m, children[i]) !in before.rows {
      assert RowId(m, children[i]) !in now.rows;
    }
  }

  // --------------------------------------------------------------------- reverse kinds

  /** A row keeps pointing at the parent unless the item names it and gives the column another value; what it
      gives an identity column is not written. */
  lemma PersistKeepsPointing(s: Setup, db: Database, field: Column, m: Model, item: Item, extra: Row, checked: bool,
                             id: RowId, c: Column, parent: Key)
    requires Allocates(s.hooks)
    requires Persist(s, db, field, m, item, extra, Lookup(db, m, ChildKey(s, m, item)), checked).Done?
    requires PointsAt(db, id, c, parent)
    requires id.model == m && ChildKey(s, m, item) == Some(id.key) ==>
               c !in item || c in extra || c in IdentityColumns(s, m) || item[c] == Id(parent)
    requires c in extra ==> extra[c] == Id(parent)
    ensures PointsAt(Persist(s, db, field, m, item, extra, Lookup(db, m, ChildKey(s, m, item)), checked).db, id, c,
        parent)
    ensures Grown(db, Persist(s, db, field, m, item, extra, Lookup(db, m, ChildKey(s, m, item)), checked).db)
  {
    hide Visible, Resolves;
    PersistedRow(s, db, field, m, item, extra, Lookup(db, m, ChildKey(s, m, item)), checked);
  }

  lemma ReverseChildTied(s: Setup, db: Database, r: Relation, parent: Key, item: Item)
    requires Allocates(s.hooks)
    requires ReverseChild(s, db, r, parent, item).Done?
    ensures var Done(after, child) := ReverseChild(s, db, r, parent, item);
            && Answers(s, db, r.child, [item], [child.key])
            && PointsAt(after, RowId(r.child, child.key), r.owner, parent)
            && Grown(db, after)
  {
    hide Visible, Persist;
    var extra := map[r.owner := Id(parent)];
    var existing := Lookup(db, r.child, ChildKey(s, r.child, item));
    PersistedRow(s, db, r.field, r.child, item, extra, existing, existing.Some?);
    assert r.owner in extra;
  }

  /** A deferred relation may write the column of a model's rows: it writes them, the column is none that
      identifies them, and not the relation's own owner column. */
  predicate MayWrite(s: Setup, r: Relation, m: Model, c: Column) {
    && r.kind != Forward && r.child == m && c !in IdentityColumns(s, m)
    && !(r.kind in {ReverseOne, ReverseMany} && r.owner == c)
  }

  /** An item of such a relation names the row and gives the column something else than the parent. */
  predicate Reowns(s: Setup, r: Relation, items: seq<Item>, id: RowId, c: Column, parent: Key) {
    && MayWrite(s, r, id.model, c)
    && exists item <- items :: ChildKey(s, r.child, item) == Some(id.key) && c in item && item[c] != Id(parent)
  }

  lemma {:induction false} ReverseChildrenKeep(s: Setup, db: Database, r: Relation, parent: Key,
      items: seq<Item>, id: RowId, c: Column)
    requires Allocates(s.hooks) && r.kind in {ReverseOne, ReverseMany}
    requires ReverseChildren(s, db, r, parent, items).Done?
    requires PointsAt(db, id, c, parent) && !Reowns(s, r, items, id, c, parent)
    ensures PointsAt(ReverseChildren(s, db, r, parent, items).db, id, c, parent)
    decreases |items|
  {
    hide Persist, Visible, Allocates, PointsAt, ChildKey, Objection;
    if items != [] {
      var item := items[0];
      var existing := Lookup(db, r.child, ChildKey(s, r.child, item));
      PersistKeepsPointing(s, db, r.field, r.child, item, map[r.owner := Id(parent)], existing.Some?, id, c, parent);
      ReverseChildrenKeep(s, ReverseChild(s, db, r, parent, item).db, r, parent, items[1..], id, c);
    }
  }

  lemma {:induction false} SharedChildrenKeep(s: Setup, db: Database, r: Relation, parent: Key, items: seq<Item>,
      id: RowId, c: Column)
    requires Allocates(s.hooks) && r.kind == ManyToMany
    requires SharedChildren(s, db, r, parent, items).Done?
    requires PointsAt(db, id, c, parent) && !Reowns(s, r, items, id, c, parent)
    ensures PointsAt(SharedChildren(s, db, r, parent, items).db, id, c, parent)
    decreases |items|
  {
    hide Persist, Visible, Allocates, PointsAt, ChildKey;
    if items != [] {
      var item := items[0];
      var existing := Lookup(db, r.child, ChildKey(s, r.child, item));
      if !(existing.Some? && Link(r.field, parent, existing.value.key) !in db.links) {
        PersistKeepsPointing(s, db, r.field, r.child, item, map[], false, id, c, parent);
      }
      SharedChildrenKeep(s, SharedChild(s, db, r, parent, item).db, r, parent, items[1..], id, c);
    }
  }

  lemma {:induction false} AttachAllKeeps(s: Setup, db: Database, relations: seq<Relation>, parent: Key,
      data: Data, id: RowId, c: Column)
    requires Allocates(s.hooks)
    requires AttachAll(s, db, relations, parent, data).Done?
    requires PointsAt(db, id, c, parent) && forall r <- relations :: !Reowns(s, r, data.ItemsFor(r), id, c, parent)
    ensures PointsAt(AttachAll(s, db, relations, parent, data).db, id, c, parent)
    decreases |relations|
  {
    hide ReverseChildren, SharedChildren, Allocates, Reowns, Data.ItemsFor, Data.Writes;
    if relations != [] {
      var r := relations[0];
      var items := data.ItemsFor(r);
      if r.kind == Forward || !data.Writes(r) {
        AttachAllKeeps(s, db, relations[1..], parent, data, id, c);
      } else {
        if r.kind == ManyToMany {
          SharedChildrenKeep(s, db, r, parent, items, id, c);
        } else {
          ReverseChildrenKeep(s, db, r, parent, items, id, c);
        }
        AttachAllKeeps(s, Attach(s, db, r, parent, items).db, relations[1..], parent, data, id, c);
      }
    }
  }

  lemma {:induction false} ReverseChildrenTied(s: Setup, db: Database, r: Relation, parent: Key, items: seq<Item>)
    requires Allocates(s.hooks) && r.kind in {ReverseOne, ReverseMany}
    requires ReverseChildren(s, db, r, parent, items).Done?
    ensures var Done(after, children) := ReverseChildren(s, db, r, parent, items);
            && Answers(s, db, r.child, items, children)
            && (forall k <- children :: PointsAt(after, RowId(r.child, k), r.owner, parent))
            && Grown(db, after)
    decreases |items|
  {
    hide ReverseChild, Allocates, PointsAt, ChildKey;
    if items != [] {
      ReverseChildTied(s, db, r, parent, items[0]);
      var Done(first, child) := ReverseChild(s, db, r, parent, items[0]);
      ReverseChildrenTied(s, first, r, parent, items[1..]);
      var Done(after, rest) := ReverseChildren(s, first, r, parent, items[1..]);
      ReverseChildrenKeep(s, first, r, parent, items[1..], RowId(r.child, child.key), r.owner);
      AnswersEarlier(s, db, first, r.child, items[1..], rest);
      AnswersJoin(s, db, r.child, items, child.key, rest);
    }
  }

  lemma AnswersJoin(s: Setup, before: Database, m: Model, items: seq<Item>, first: Key, rest: seq<Key>)
    requires items != [] && Answers(s, before, m, [items[0]], [first]) && Answers(s, before, m, items[1..], rest)
    ensures Answers(s, before, m, items, [first] + rest)
  {
    hide ChildKey;
    var children := [first] + rest;
    forall i | 0 <= i < |items|
      ensures match ChildKey(s, m, items[i])
              case Some(key) => children[i] == key
              case None => RowId(m, children[i]) !in before.rows
    {
      if i == 0 { assert [items[0]][0] == items[0]; } else { assert items[1..][i - 1] == items[i]; }
    }
  }

  // -------------------------------------------------------------------- shared children

  lemma SharedChildAnswers(s: Setup, db: Database, r: Relation, parent: Key, item: Item)
    requires Allocates(s.hooks)
    requires SharedChild(s, db, r, parent, item).Done?
    ensures var Done(after, child) := SharedChild(s, db, r, parent, item);
            Answers(s, db, r.child, [item], [child.key]) && Grown(db, after)
  {
    hide Visible, Persist, ChildKey;
    var existing := Lookup(db, r.child, ChildKey(s, r.child, item));
    if !(existing.Some? && Link(r.field, parent, existing.value.key) !in db.links) {
      PersistedRow(s, db, r.field, r.child, item, map[], existing, false);
    }
  }

  lemma {:induction false} SharedChildrenAnswer(s: Setup, db: Database, r: Relation, parent: Key, items: seq<Item>)
    requires Allocates(s.hooks)
    requires SharedChildren(s, db, r, parent, items).Done?
    ensures var Done(after, children) := SharedChildren(s, db, r, parent, items);
            Answers(s, db, r.child, items, children) && Grown(db, after)
    decreases |items|
  {
    hide SharedChild, Allocates, ChildKey;
    if items != [] {
      SharedChildAnswers(s, db, r, parent, items[0]);
      var Done(first, child) := SharedChild(s, db, r, parent, items[0]);
      SharedChildrenAnswer(s, first, r, parent, items[1..]);
      var Done(_, rest) := SharedChildren(s, first, r, parent, items[1..]);
      AnswersEarlier(s, db, first, r.child, items[1..], rest);
      AnswersJoin(s, db, r.child, items, child.key, rest);
    }
  }

  // ------------------------------------------------------------------ nothing is lost

  lemma {:induction false} SharedChildrenLeaveLinks(s: Setup, db: Database, r: Relation, parent: Key, items: seq<Item>)
    requires SharedChildren(s, db, r, parent, items).Done?
    ensures SharedChildren(s, db, r, parent, items).db.links == db.links
    decreases |items|
  {
    hide Visible, ChildKey, Resolves, Written;
    if items != [] {
      SharedChildrenLeaveLinks(s, SharedChild(s, db, r, parent, items[0]).db, r, parent, items[1..]);
    }
  }

  lemma {:induction false} ReverseChildrenLeaveLinks(s: Setup, db: Database, r: Relation, parent: Key, items: seq<Item>)
    requires ReverseChildren(s, db, r, parent, items).Done?
    ensures ReverseChildren(s, db, r, parent, items).db.links == db.links
    decreases |items|
  {
    hide Visible, ChildKey, Resolves, Written, Objection;
    if items != [] {
      ReverseChildrenLeaveLinks(s, ReverseChild(s, db, r, parent, items[0]).db, r, parent, items[1..]);
    }
  }

  // --------------------------------------------------------------------------- the whole

  predicate TiedTo(db: Database, r: Relation, parent: Key, child: Key) {
    if r.kind == ManyToMany then Link(r.field, parent, child) in db.links
    else PointsAt(db, RowId(r.child, child), r.owner, parent)
  }

  /** An item of a later field names the reverse child, too, and gives the column that names its owner
      something else than the parent. */
  predicate Reowned(s: Setup, relations: seq<Relation>, data: Data, r: Relation, parent: Key, child: Key) {
    r.kind != ManyToMany
    && exists i, j :: 0 <= i < j < |relations| && relations[i] == r
         && Reowns(s, relations[j], data.ItemsFor(relations[j]), RowId(r.child, child), r.owner, parent)
  }

  /** The children that answer a field's items are tied to the parent, or given something else for an owner by
      an item of a later one of these relations. */
  ghost predicate Attached(s: Setup, before: Database, now: Database, relations: seq<Relation>, data: Data, r: Relation,
      parent: Key, children: seq<Key>)
  {
    && Answers(s, before, r.child, data.ItemsFor(r), children)
    && forall k <- children :: TiedTo(now, r, parent, k) || Reowned(s, relations, data, r, parent, k)
  }

  lemma AttachTies(s: Setup, db: Database, r: Relation, parent: Key, items: seq<Item>)
    requires Allocates(s.hooks) && r.kind != Forward
    requires Attach(s, db, r, parent, items).Done?
    ensures var Done(after, children) := Attach(s, db, r, parent, items);
            && Answers(s, db, r.child, items, children) && (forall k <- children :: TiedTo(after, r, parent, k))
            && Grown(db, after) && db.links <= after.links
  {
    hide SharedChildren, ReverseChildren, Allocates, Answers, PointsAt;
    if r.kind == ManyToMany {
      SharedChildrenAnswer(s, db, r, parent, items);
      SharedChildrenLeaveLinks(s, db, r, parent, items);
    } else {
      ReverseChildrenTied(s, db, r, parent, items);
      ReverseChildrenLeaveLinks(s, db, r, parent, items);
    }
  }

  lemma {:induction false} AttachAllGrows(s: Setup, db: Database, relations: seq<Relation>, parent: Key, data: Data)
    requires Allocates(s.hooks)
    requires AttachAll(s, db, relations, parent, data).Done?
    ensures var after := AttachAll(s, db, relations, parent, data).db;
            Grown(db, after) && db.links <= after.links
    decreases |relations|
  {
    hide Attach, Allocates, Answers, TiedTo, Data.ItemsFor, Data.Writes;
    if relations != [] {
      var r := relations[0];
      if r.kind == Forward || !data.Writes(r) {
        AttachAllGrows(s, db, relations[1..], parent, data);
      } else {
        AttachTies(s, db, r, parent, data.ItemsFor(r));
        AttachAllGrows(s, Attach(s, db, r, parent, data.ItemsFor(r)).db, relations[1..], parent, data);
      }
    }
  }

  lemma {:induction false} AttachAllTies(s: Setup, db: Database, relations: seq<Relation>, parent: Key, data: Data,
      r: Relation)
    requires Allocates(s.hooks)
    requires AttachAll(s, db, relations, parent, data).Done?
    requires r in relations && r.kind != Forward && data.Writes(r)
    ensures exists children :: Attached(s, db, AttachAll(s, db, relations, parent, data).db, relations, data, r, parent,
        children)
    decreases |relations|
  {
    hide Attach, Allocates, Data.ItemsFor, Data.Writes, Attached, Answers, TiedTo, Reowned;
    var head := relations[0];
    var after := AttachAll(s, db, relations, parent, data).db;
    if head.kind == Forward || !data.Writes(head) {
      AttachAllTies(s, db, relations[1..], parent, data, r);
      var children :| Attached(s, db, after, relations[1..], data, r, parent, children);
      AttachedEarlier(s, db, db, after, relations[1..], relations, data, r, parent, children);
    } else {
      AttachTies(s, db, head, parent, data.ItemsFor(head));
      var Done(next, children) := Attach(s, db, head, parent, data.ItemsFor(head));
      if r == head {
        AttachedStays(s, db, next, relations, parent, data, children);
      } else {
        AttachAllTies(s, next, relations[1..], parent, data, r);
        var later :| Attached(s, next, after, relations[1..], data, r, parent, later);
        AttachedEarlier(s, db, next, after, relations[1..], relations, data, r, parent, later);
      }
    }
  }

  lemma AttachedEarlier(s: Setup, before: Database, now: Database, after: Database, some: seq<Relation>,
      all: seq<Relation>, data: Data, r: Relation, parent: Key, children: seq<Key>)
    requires Attached(s, now, after, some, data, r, parent, children) && Grown(before, now)
    requires some == all || (all != [] && some == all[1..])
    ensures Attached(s, before, after, all, data, r, parent, children)
  {
    hide Answers, TiedTo, Reowns, Data.ItemsFor;
    AnswersEarlier(s, before, now, r.child, data.ItemsFor(r), children);
    forall k <- children | Reowned(s, some, data, r, parent, k) ensures Reowned(s, all, data, r, parent, k) {
      if some != all { ReownedLater(s, all, data, r, parent, k); }
    }
  }

  lemma ReownedLater(s: Setup, relations: seq<Relation>, data: Data, r: Relation, parent: Key, child: Key)
    requires relations != [] && Reowned(s, relations[1..], data, r, parent, child)
    ensures Reowned(s, relations, data, r, parent, child)
  {
    hide Reowns, Data.ItemsFor;
    var rest := relations[1..];
    var i, j :| 0 <= i < j < |rest| && rest[i] == r
                && Reowns(s, rest[j], data.ItemsFor(rest[j]), RowId(r.child, child), r.owner, parent);
    assert relations[i + 1] == rest[i] && relations[j + 1] == rest[j];
  }

  /** What the first relation tied stays tied while the others are written, unless they reown it. */
  lemma AttachedStays(s: Setup, db: Database, next: Database, relations: seq<Relation>, parent: Key, data: Data,
      children: seq<Key>)
    requires Allocates(s.hooks)
    requires relations != [] && relations[0].kind != Forward
    requires AttachAll(s, next, relations[1..], parent, data).Done?
    requires Answers(s, db, relations[0].child, data.ItemsFor(relations[0]), children)
    requires forall k <- children :: TiedTo(next, relations[0], parent, k)
    ensures Attached(s, db, AttachAll(s, next, relations[1..], parent, data).db, relations, data, relations[0], parent,
        children)
  {
    hide AttachAll, Allocates, Data.ItemsFor, Answers, PointsAt, Reowns;
    var r, after := relations[0], AttachAll(s, next, relations[1..], parent, data).db;
    AttachAllGrows(s, next, relations[1..], parent, data);
    if r.kind != ManyToMany {
      forall k <- children
        ensures PointsAt(after, RowId(r.child, k), r.owner, parent) || Reowned(s, relations, data, r, parent, k)
      {
        var id := RowId(r.child, k);
        if forall x <- relations[1..] :: !Reowns(s, x, data.ItemsFor(x), id, r.owner, parent) {
          AttachAllKeeps(s, next, relations[1..], parent, data, id, r.owner);
        } else {
          var x :| x in relations[1..] && Reowns(s, x, data.ItemsFor(x), id, r.owner, parent);
          var j :| 0 <= j < |relations[1..]| && relations[1..][j] == x;
          assert relations[j + 1] == x;
        }
      }
    }
  }

  /** After a completed save, every item of every reverse or many-to-many field is answered by a row, the
      one it names or a new one, and each of those rows is tied to the saved parent; only a reverse child
      that a later field's item names, too, may have been given something else for an owner by that item. */
  lemma ChildrenAreTied(s: Setup, db: Database, instance: Option<Saved>, data: Data, r: Relation)
    requires Allocates(s.hooks)
    requires SaveNested(s, db, instance, data).Done?
    requires r in s.nested && r.kind != Forward && data.Writes(r)
    ensures var Done(after, parent) := SaveNested(s, db, instance, data);
            exists children :: Attached(s, db, after, s.nested, data, r, parent.key, children)
  {
    hide Allocates, RefusedLink, Forwards, AttachAll, Save, Attached, Data.Writes;
    var Done(after, parent) := SaveNested(s, db, instance, data);
    var Done(linked, values) := Forwards(s, db, instance, s.nested, data, data.values);
    var parented := Save(s, linked, s.model, instance, values, map[]).db;
    SaveGrows(s, db, instance, data);
    AttachAllTies(s, parented, s.nested, parent.key, data, r);
    var children :| Attached(s, parented, after, s.nested, data, r, parent.key, children);
    AttachedEarlier(s, db, parented, after, s.nested, s.nested, data, r, parent.key, children);
  }

  lemma SaveGrows(s: Setup, db: Database, instance: Option<Saved>, data: Data)
    requires Allocates(s.hooks)
    requires Forwards(s, db, instance, s.nested, data, data.values).Done?
    requires var Done(linked, values) := Forwards(s, db, instance, s.nested, data, data.values);
             Save(s, linked, s.model, instance, values, map[]).Done?
    ensures var Done(linked, values) := Forwards(s, db, instance, s.nested, data, data.values);
            Grown(db, Save(s, linked, s.model, instance, values, map[]).db)
  {
    hide Allocates, Forwards, Save;
    var Done(linked, values) := Forwards(s, db, instance, s.nested, data, data.values);
    var parent := Save(s, linked, s.model, instance, values, map[]).value;
    var call := Call(s, db, instance, data, parent.key);
    FramedAtFirst(call);
    ForwardsFramed(call, db, s.nested, data.values);
    SavedRow(s, linked, s.model, instance, values, map[]);
  }
}
