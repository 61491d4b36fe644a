/** When a nested save keeps every child it ties: exactly when no later field may write the column that names
    the child's owner. */
module NestedOwners {
  import opened Options
  import opened NestedInputs
  import opened NestedWrites
  import opened NestedWitnesses
  import opened NestedFrame
  import opened NestedEffects

  /** A field declared after this one may write the column that names the owner of this one's children. */
  predicate Contested(s: Setup, r: Relation) {
    r.kind != ManyToMany
    && exists i, j :: 0 <= i < j < |s.nested| && s.nested[i] == r && MayWrite(s, s.nested[j], r.child, r.owner)
  }

  /** If the save completes, the field's items are answered by rows tied to the saved parent. */
  ghost predicate Ties(s: Setup, db: Database, instance: Option<Saved>, data: Data, r: Relation) {
    Allocates(s.hooks) && data.Writes(r) && SaveNested(s, db, instance, data).Done? ==>
      var Done(after, parent) := SaveNested(s, db, instance, data);
      exists children :: AllTied(s, db, after, data, r, parent.key, children)
  }

  ghost predicate AllTied(s: Setup, before: Database, now: Database, data: Data, r: Relation, parent: Key,
      children: seq<Key>)
  {
    Answers(s, before, r.child, data.ItemsFor(r), children) && forall k <- children :: TiedTo(now, r, parent, k)
  }

  lemma UncontestedTies(s: Setup, db: Database, instance: Option<Saved>, data: Data, r: Relation)
    requires r in s.nested && r.kind != Forward && !Contested(s, r)
    ensures Ties(s, db, instance, data, r)
  {
    hide Allocates, SaveNested, Answers, TiedTo, MayWrite, Data.ItemsFor, Data.Writes;
    if Allocates(s.hooks) && data.Writes(r) && SaveNested(s, db, instance, data).Done? {
      ChildrenAreTied(s, db, instance, data, r);
      var Done(after, parent) := SaveNested(s, db, instance, data);
      var children :| Attached(s, db, after, s.nested, data, r, parent.key, children);
      assert AllTied(s, db, after, data, r, parent.key, children);
    }
  }

  // ------------------------------------------------------------------ a child given away

  const OWNER := Key("1")
  const CHILD := Key("2")
  const OTHER := Key("3")

  function Targets(s: Setup, m: Model, c: Column): set<Model> {
    if s.target(m, c).Some? then {s.target(m, c).value} else {}
  }

  function RowIds(s: Setup, r: Relation, x: Relation): set<RowId> {
    var models := {s.model, r.child} + Targets(s, r.child, r.owner) + Targets(s, r.child, x.owner);
    set m <- models, k <- {OWNER, CHILD, OTHER} :: RowId(m, k)
  }

  /** A child that names the parent for both fields, with all rows it may refer to. */
  function Stage(s: Setup, r: Relation, x: Relation): Database {
    Database(map id <- RowIds(s, r, x) ::
               if id == RowId(r.child, CHILD) then map[x.owner := Id(OWNER), r.owner := Id(OWNER)] else map[],
             {Link(x.field, OWNER, CHILD)})
  }

  function Naming(): Item { map[IDENTITY := Id(CHILD)] }

  function GivingAway(r: Relation): Item { map[IDENTITY := Id(CHILD), r.owner := Id(OTHER)] }

  /** One field's item just names the child, the other's gives it another owner. */
  function BothFields(r: Relation, x: Relation): Data {
    Data(map[], map[r.field := One(Naming()), x.field := One(GivingAway(r))])
  }

  lemma ItemsSayThis(s: Setup, r: Relation, x: Relation)
    requires r.owner !in IdentityColumns(s, r.child) && r.field != x.field
    ensures ChildKey(s, r.child, Naming()) == ChildKey(s, r.child, GivingAway(r)) == Some(CHILD)
    ensures Written(s, r.child, Naming(), Naming()) == map[]
    ensures Written(s, r.child, GivingAway(r), GivingAway(r)) == map[r.owner := Id(OTHER)]
    ensures var data := BothFields(r, x);
            && data.Writes(r) && data.ItemsFor(r) == [Naming()]
            && data.Writes(x) && data.ItemsFor(x) == [GivingAway(r)]
  {
    assert IDENTITY in Naming() && IDENTITY in GivingAway(r);
  }

  lemma RowsOfStage(s: Setup, r: Relation, x: Relation)
    ensures var db, id := Stage(s, r, x), RowId(r.child, CHILD);
            && id in db.rows && db.rows[id] == map[x.owner := Id(OWNER), r.owner := Id(OWNER)]
            && db.Find(s.model, OWNER) == Some(Saved(OWNER, map[]))
  {
    assert CHILD.text[0] != OWNER.text[0];
  }

  /** A row that refers to no more than the stage has resolves. */
  lemma Resolved(s: Setup, r: Relation, x: Relation, row: Row)
    requires row.Keys <= {r.owner, x.owner} && forall c <- row :: row[c] in {Id(OWNER), Id(OTHER)}
    ensures Resolves(s, Stage(s, r, x).Put(RowId(r.child, CHILD), row), r.child, row)
  {
    forall c <- row | s.target(r.child, c).Some?
      ensures RowId(s.target(r.child, c).value, row[c].key) in Stage(s, r, x).rows
    {
      assert s.target(r.child, c).value in Targets(s, r.child, r.owner) + Targets(s, r.child, x.owner);
    }
  }

  lemma OneIsAttached(s: Setup, db: Database, r: Relation, parent: Key, item: Item, after: Database, child: Saved)
    requires r.kind in {ReverseOne, ReverseMany} && ReverseChild(s, db, r, parent, item) == Done(after, child)
    ensures Attach(s, db, r, parent, [item]) == Done(after, [child.key])
  {
    hide ReverseChild;
    var nobody: seq<Item> := [];
    assert [item][1..] == nobody;
    assert ReverseChildren(s, after, r, parent, nobody) == Done(after, []);
    assert [child.key] + [] == [child.key];
  }

  lemma OneIsLinked(s: Setup, db: Database, r: Relation, parent: Key, item: Item, after: Database, child: Saved)
    requires r.kind == ManyToMany && SharedChild(s, db, r, parent, item) == Done(after, child)
    ensures Attach(s, db, r, parent, [item])
         == Done(after.(links := after.links + LinksTo(r.field, parent, [child.key])), [child.key])
  {
    hide SharedChild;
    var nobody: seq<Item> := [];
    assert [item][1..] == nobody;
    assert SharedChildren(s, after, r, parent, nobody) == Done(after, []);
    assert [child.key] + [] == [child.key];
  }

  lemma FirstTies(s: Setup, r: Relation, x: Relation)
    requires s.hooks == PERMISSIVE && r.kind in {ReverseOne, ReverseMany} && r.field != x.field
    requires r.owner !in IdentityColumns(s, r.child)
    ensures Attach(s, Stage(s, r, x), r, OWNER, [Naming()]) == Done(Stage(s, r, x), [CHILD])
  {
    hide ChildKey, Written, Resolves, Persist;
    var db, id := Stage(s, r, x), RowId(r.child, CHILD);
    var extra: Row := map[r.owner := Id(OWNER)];
    ItemsSayThis(s, r, x);
    RowsOfStage(s, r, x);
    var nothing: Row := map[];
    assert db.rows[id] + nothing + extra == db.rows[id];
    assert db.Put(id, db.rows[id]) == db;
    Resolved(s, r, x, db.rows[id]);
    NamedRowIsWritten(s, db, r.field, r.child, Naming(), extra, CHILD, true);
    OneIsAttached(s, db, r, OWNER, Naming(), db, Saved(CHILD, db.rows[id]));
  }

  lemma SecondGivesAway(s: Setup, r: Relation, x: Relation)
    requires s.hooks == PERMISSIVE && r.field != x.field && MayWrite(s, x, r.child, r.owner)
    ensures var o, id := Attach(s, Stage(s, r, x), x, OWNER, [GivingAway(r)]), RowId(r.child, CHILD);
            o.Done? && id in o.db.rows && OwnerOf(o.db.rows[id], r.owner) == Some(OTHER)
  {
    hide ChildKey, Written, Resolves, Persist;
    var db, id, item := Stage(s, r, x), RowId(r.child, CHILD), GivingAway(r);
    var extra: Row := if x.kind == ManyToMany then map[] else map[x.owner := Id(OWNER)];
    ItemsSayThis(s, r, x);
    RowsOfStage(s, r, x);
    var given: Row := map[r.owner := Id(OTHER)];
    var row: Row := db.rows[id] + given + extra;
    Resolved(s, r, x, row);
    NamedRowIsWritten(s, db, x.field, r.child, item, extra, CHILD, x.kind != ManyToMany);
    if x.kind == ManyToMany {
      OneIsLinked(s, db, x, OWNER, item, db.Put(id, row), Saved(CHILD, row));
    } else {
      OneIsAttached(s, db, x, OWNER, item, db.Put(id, row), Saved(CHILD, row));
    }
  }

  lemma OnlyTwoWritten(s: Setup, i: nat, j: nat)
    requires DistinctFields(s.nested) && i < j < |s.nested|
    ensures var data := BothFields(s.nested[i], s.nested[j]);
            forall k :: 0 <= k < |s.nested| && k != i && k != j ==> !data.Writes(s.nested[k])
  {
  }

  /** In every project with such a field, a completed save may end with another owner for a child it tied. */
  lemma ChildIsGivenAway(s: Setup, i: nat, j: nat)
    requires DistinctFields(s.nested) && i < j < |s.nested| && s.nested[i].kind in {ReverseOne, ReverseMany}
    requires MayWrite(s, s.nested[j], s.nested[i].child, s.nested[i].owner)
    ensures var r, x := s.nested[i], s.nested[j];
            var o := SaveNested(s.(hooks := PERMISSIVE), Stage(s, r, x), Some(Saved(OWNER, map[])), BothFields(r, x));
            && o.Done? && o.value.key == OWNER && RowId(r.child, CHILD) in o.db.rows
            && OwnerOf(o.db.rows[RowId(r.child, CHILD)], r.owner) == Some(OTHER)
  {
    hide Attach, AttachAll, RefusedLink, Data.Writes, Data.ItemsFor, Stage, SaveNested;
    var lenient, r, x := s.(hooks := PERMISSIVE), s.nested[i], s.nested[j];
    var db, data := Stage(s, r, x), BothFields(r, x);
    StageIgnoresHooks(s, r, x);
    ItemsSayThis(lenient, r, x);
    RowsOfStage(lenient, r, x);
    OnlyTwoWritten(s, i, j);
    FirstTies(lenient, r, x);
    SecondGivesAway(lenient, r, x);
    var after := Attach(lenient, db, x, OWNER, [GivingAway(r)]).db;
    FieldIsAttached(lenient, db, s.nested, i, OWNER, data);
    var rest := s.nested[i + 1..];
    assert rest[j - i - 1] == x;
    forall k <- rest[..j - i - 1] ensures !data.Writes(k) {
      var n :| 0 <= n < j - i - 1 && rest[n] == k;
      assert s.nested[n + i + 1] == k;
    }
    FieldIsAttached(lenient, db, rest, j - i - 1, OWNER, data);
    assert rest[j - i..] == s.nested[j + 1..];
    NothingAttached(lenient, after, s.nested[j + 1..], OWNER, data);
    forall q <- s.relations, k <- Linked(lenient, db, Some(Saved(OWNER, map[])), q, data)
      ensures Exposed(lenient, db, RowId(q.child, k))
    {
    }
    NothingRefused(lenient, db, Some(Saved(OWNER, map[])), s.relations, data);
    SavingAttaches(lenient, db, OWNER, data);
  }

  lemma StageIgnoresHooks(s: Setup, r: Relation, x: Relation)
    ensures Stage(s.(hooks := PERMISSIVE), r, x) == Stage(s, r, x)
  {
  }

  lemma GivenAwayIsUntied(s: Setup, i: nat, j: nat)
    requires DistinctFields(s.nested) && i < j < |s.nested| && s.nested[i].kind in {ReverseOne, ReverseMany}
    requires MayWrite(s, s.nested[j], s.nested[i].child, s.nested[i].owner)
    ensures var r, x := s.nested[i], s.nested[j];
            !Ties(s.(hooks := PERMISSIVE), Stage(s, r, x), Some(Saved(OWNER, map[])), BothFields(r, x), r)
  {
    hide SaveNested, Stage, Data.Writes, Data.ItemsFor, ChildKey;
    var lenient, r, x := s.(hooks := PERMISSIVE), s.nested[i], s.nested[j];
    var db, data := Stage(s, r, x), BothFields(r, x);
    PermissiveAllocates();
    ChildIsGivenAway(s, i, j);
    var Done(after, parent) := SaveNested(lenient, db, Some(Saved(OWNER, map[])), data);
    ItemsSayThis(lenient, r, x);
    assert OTHER.text[0] != OWNER.text[0];
    forall children: seq<Key> ensures !AllTied(lenient, db, after, data, r, OWNER, children) {
      NamedChildAnswers(lenient, db, r, children);
    }
  }

  lemma NamedChildAnswers(s: Setup, db: Database, r: Relation, children: seq<Key>)
    requires ChildKey(s, r.child, Naming()) == Some(CHILD)
    ensures Answers(s, db, r.child, [Naming()], children) ==> CHILD in children
  {
    hide ChildKey;
    if Answers(s, db, r.child, [Naming()], children) {
      assert ChildKey(s, r.child, [Naming()][0]) == Some(CHILD);
      assert children[0] == CHILD;
    }
  }

  /** Every completed save, whatever the hooks, the database and the payload, leaves the children of a field tied
      to the parent exactly when no later field may write the column that names their owner. */
  lemma TiedUnlessContested(s: Setup, r: Relation)
    requires DistinctFields(s.nested) && r in s.nested && r.kind != Forward
    ensures (forall hooks, db, instance, data :: Ties(s.(hooks := hooks), db, instance, data, r)) <==> !Contested(s, r)
  {
    hide Ties, MayWrite, DistinctFields;
    if !Contested(s, r) {
      forall hooks, db, instance, data ensures Ties(s.(hooks := hooks), db, instance, data, r) {
        ContestIgnoresHooks(s, hooks, r);
        UncontestedTies(s.(hooks := hooks), db, instance, data, r);
      }
    } else {
      var i, j :| 0 <= i < j < |s.nested| && s.nested[i] == r && MayWrite(s, s.nested[j], r.child, r.owner);
      GivenAwayIsUntied(s, i, j);
    }
  }

  lemma ContestIgnoresHooks(s: Setup, hooks: Hooks, r: Relation)
    ensures Contested(s.(hooks := hooks), r) <==> Contested(s, r)
  {
    assert forall x, m, c :: MayWrite(s.(hooks := hooks), x, m, c) == MayWrite(s, x, m, c);
  }
}
