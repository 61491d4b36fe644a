/** One numbered pass over the children of all parents, against a sort and a slice for each parent. */
module WindowSlice {
  import opened Options
  import opened Sequences
  import opened RowOrder

  // --------------------------------------------------------------- the database's order

  datatype Nulls = NullsFirst | NullsLast | BackendDefault

  datatype SqlTerm<C> = SqlTerm(term: Term<C>, nulls: Nulls)

  /** Nullable columns get their nulls placed explicitly: last ascending, first descending. */
  function PlaceNulls<C(==)>(t: Table<C>, term: Term<C>): SqlTerm<C> {
    SqlTerm(term, if term.column !in t.nullable then BackendDefault
                  else if term.descending then NullsFirst else NullsLast)
  }

  function SqlTerms<C(==)>(t: Table<C>, terms: seq<Term<C>>): seq<SqlTerm<C>> {
    seq(|terms|, i requires 0 <= i < |terms| => PlaceNulls(t, terms[i]))
  }

  /** Without a placement, a database takes nulls for its smallest or for its largest values. */
  predicate NullsComeFirst<C(==)>(nullsAreSmall: bool, sql: SqlTerm<C>) {
    match sql.nulls
    case NullsFirst => true
    case NullsLast => false
    case BackendDefault => nullsAreSmall != sql.term.descending
  }

  predicate SqlBefore<C(==)>(nullsAreSmall: bool, t: Table<C>, sql: SqlTerm<C>, a: Row<C>, b: Row<C>) {
    var x, y := ValueOf(t, a, sql.term.column), ValueOf(t, b, sql.term.column);
    if x.Some? && y.Some? then (if sql.term.descending then y.value < x.value else x.value < y.value)
    else if x.None? && y.None? then false
    else x.None? == NullsComeFirst(nullsAreSmall, sql)
  }

  predicate SqlPrecedes<C(==)>(nullsAreSmall: bool, t: Table<C>, terms: seq<SqlTerm<C>>, a: Row<C>, b: Row<C>) {
    terms != [] &&
    (|| SqlBefore(nullsAreSmall, t, terms[0], a, b)
     || (!SqlBefore(nullsAreSmall, t, terms[0], b, a) && SqlPrecedes(nullsAreSmall, t, terms[1..], a, b)))
  }

  /** Whatever the database does with nulls by itself, its order is the one sorting in memory uses. */
  lemma {:induction false} SqlOrderAgrees<C(!new)>(nullsAreSmall: bool, t: Table<C>, terms: seq<Term<C>>,
      a: Row<C>, b: Row<C>)
    requires Conforms(t, a) && Conforms(t, b) && forall term <- terms :: term.column in t.attnames
    ensures SqlPrecedes(nullsAreSmall, t, SqlTerms(t, terms), a, b) <==> Precedes(t, terms, a, b)
  {
    hide ValueOf;
    if terms != [] {
      assert terms[0] in terms;
      assert SqlTerms(t, terms)[1..] == SqlTerms(t, terms[1..]);
      SqlOrderAgrees(nullsAreSmall, t, terms[1..], a, b);
    }
  }

  // ------------------------------------------------------------------------ the window

  /** A row as the window returns it, with its number and the size of its partition. */
  datatype Numbered<C> = Numbered(row: Row<C>, number: nat, total: nat)

  ghost function Siblings<C>(rows: set<Row<C>>, parent: Option<int>): set<Row<C>> {
    set r <- rows | r.parent == parent
  }

  ghost function Number<C>(nullsAreSmall: bool, t: Table<C>, terms: seq<Term<C>>, rows: set<Row<C>>,
      r: Row<C>): Numbered<C>
  {
    Numbered(r, 1 + |set x <- Siblings(rows, r.parent) | SqlPrecedes(nullsAreSmall, t, SqlTerms(t, terms), x, r)|,
             |Siblings(rows, r.parent)|)
  }

  /** The window query: every row of every parent whose number falls into the page. */
  ghost function Window<C>(nullsAreSmall: bool, t: Table<C>, terms: seq<Term<C>>, rows: set<Row<C>>,
      offset: int, limit: int): set<Numbered<C>>
  {
    set r <- rows | offset < Number(nullsAreSmall, t, terms, rows, r).number <= offset + limit ::
      Number(nullsAreSmall, t, terms, rows, r)
  }

  ghost function PageOf<C>(window: set<Numbered<C>>, parent: int): set<Numbered<C>> {
    set w <- window | w.row.parent == Some(parent)
  }

  /** Python's slice: negative bounds count from the end, bounds beyond the end stop there. */
  function Slice<T>(s: seq<T>, start: int, stop: int): seq<T> {
    var a, b := Bound(|s|, start), Bound(|s|, stop);
    if a < b then s[a..b] else []
  }

  function Bound(n: nat, i: int): (b: nat)
    ensures b <= n
  {
    if i >= n then n else if i >= 0 then i else if n + i >= 0 then n + i else 0
  }

  /** A page cut out of a parent's sorted children, numbered from its offset. */
  ghost function NumberedPage<C>(page: seq<Row<C>>, offset: nat, total: nat): set<Numbered<C>> {
    set i | 0 <= i < |page| :: Numbered(page[i], offset + 1 + i, total)
  }

  /** The rows of a table and one parent's children among them, listed in any order. */
  ghost predicate ChildrenOf<C(!new)>(t: Table<C>, rows: set<Row<C>>, parent: int, children: seq<Row<C>>) {
    && (forall a <- rows, b <- rows :: a.pk == b.pk ==> a == b)
    && (forall r <- rows :: Conforms(t, r))
    && Distinct(children) && Elements(children) == Siblings(rows, Some(parent))
  }

  /** Ordering terms a window accepts: columns of the model, the key among them. */
  predicate Total<C(==)>(t: Table<C>, terms: seq<Term<C>>) {
    UsesKey(t, terms) && forall term <- terms :: term.column in t.attnames
  }

  lemma DistinctSort<C(!new)>(t: Table<C>, terms: seq<Term<C>>, rows: seq<Row<C>>)
    requires Distinct(rows)
    ensures Distinct(SortBy(t, terms, rows)) && Elements(SortBy(t, terms, rows)) == Elements(rows)
    ensures |SortBy(t, terms, rows)| == |rows|
  {
    var s := SortBy(t, terms, rows);
    SortByElements(t, terms, rows);
    forall r ensures r in s <==> r in rows { SameElements(s, rows, r); }
    DistinctSize(rows);
    assert Elements(s) == Elements(rows);
    assert |multiset(s)| == |multiset(rows)|;
    AllDistinct(s);
  }

  /** In a sorted list without ties, the rows before a position are the rows that precede it. */
  lemma SortedRank<C(!new)>(nullsAreSmall: bool, t: Table<C>, terms: seq<Term<C>>, rows: set<Row<C>>,
      parent: int, children: seq<Row<C>>, i: nat)
    requires ChildrenOf(t, rows, parent, children) && Total(t, terms)
    requires i < |children| && Sorted(t, terms, children)
    ensures Number(nullsAreSmall, t, terms, rows, children[i]) == Numbered(children[i], i + 1, |children|)
  {
    hide SqlPrecedes, Precedes, UsesKey, Conforms;
    var r := children[i];
    assert r in Elements(children);
    assert r.parent == Some(parent);
    forall a <- children ensures a in rows { assert a in Elements(children); }
    var earlier := set x <- Siblings(rows, r.parent) | SqlPrecedes(nullsAreSmall, t, SqlTerms(t, terms), x, r);
    forall x <- Siblings(rows, r.parent)
      ensures SqlPrecedes(nullsAreSmall, t, SqlTerms(t, terms), x, r) <==> x in children[..i]
    {
      assert x in Elements(children);
      SqlOrderAgrees(nullsAreSmall, t, terms, x, r);
      PositionTells(t, terms, children, i, x);
    }
    assert earlier == Elements(children[..i]) by {
      forall x | x in children[..i] ensures x in Siblings(rows, r.parent) { assert x in Elements(children); }
    }
    DistinctSize(children[..i]);
    DistinctSize(children);
  }

  lemma PositionTells<C(!new)>(t: Table<C>, terms: seq<Term<C>>, children: seq<Row<C>>, i: nat, x: Row<C>)
    requires Distinct(children) && i < |children| && x in children && Sorted(t, terms, children) && UsesKey(t, terms)
    requires forall a <- children, b <- children :: a.pk == b.pk ==> a == b
    ensures Precedes(t, terms, x, children[i]) <==> x in children[..i]
  {
    hide Precedes, UsesKey;
    var j :| 0 <= j < |children| && children[j] == x;
    if x == children[i] {
      PrecedesIsWeakOrder(t, terms, x, x, x);
    } else {
      KeyTellsRowsApart(t, terms, x, children[i]);
      PrecedesIsWeakOrder(t, terms, x, children[i], x);
      if j < i { assert children[..i][j] == x; }
    }
  }

  /** For every parent at once, the window page is that parent's children sorted and sliced, each with its
      place in the whole list and the size of the whole list. */
  lemma WindowIsSortAndSlice<C(!new)>(nullsAreSmall: bool, t: Table<C>, terms: seq<Term<C>>,
      rows: set<Row<C>>, parent: int, children: seq<Row<C>>, offset: nat, limit: nat)
    requires ChildrenOf(t, rows, parent, children) && Total(t, terms)
    ensures PageOf(Window(nullsAreSmall, t, terms, rows, offset, limit), parent)
         == NumberedPage(Slice(SortBy(t, terms, children), offset, offset + limit), offset, |children|)
  {
    hide Total, Number, Sorted, SortBy;
    var sorted := SortBy(t, terms, children);
    SortBySorted(t, terms, children);
    DistinctSort(t, terms, children);
    forall i | 0 <= i < |sorted|
      ensures Number(nullsAreSmall, t, terms, rows, sorted[i]) == Numbered(sorted[i], i + 1, |children|)
    {
      SortedRank(nullsAreSmall, t, terms, rows, parent, sorted, i);
    }
    forall r <- rows ensures Number(nullsAreSmall, t, terms, rows, r).row == r {
      NumberRow(nullsAreSmall, t, terms, rows, r);
    }
    NumberedSlice(nullsAreSmall, t, terms, rows, parent, sorted, |children|, offset, limit);
  }

  lemma NumberRow<C>(nullsAreSmall: bool, t: Table<C>, terms: seq<Term<C>>, rows: set<Row<C>>, r: Row<C>)
    ensures Number(nullsAreSmall, t, terms, rows, r).row == r
  {
  }

  lemma NumberedSlice<C(!new)>(nullsAreSmall: bool, t: Table<C>, terms: seq<Term<C>>, rows: set<Row<C>>,
      parent: int, sorted: seq<Row<C>>, total: nat, offset: nat, limit: nat)
    requires Elements(sorted) == Siblings(rows, Some(parent))
    requires forall i {:trigger sorted[i]} :: 0 <= i < |sorted| ==>
        Number(nullsAreSmall, t, terms, rows, sorted[i]) == Numbered(sorted[i], i + 1, total)
    requires forall r <- rows :: Number(nullsAreSmall, t, terms, rows, r).row == r
    ensures PageOf(Window(nullsAreSmall, t, terms, rows, offset, limit), parent)
         == NumberedPage(Slice(sorted, offset, offset + limit), offset, total)
  {
    hide Number;
    var page := Slice(sorted, offset, offset + limit);
    var window := Window(nullsAreSmall, t, terms, rows, offset, limit);
    forall w | w in PageOf(window, parent) ensures w in NumberedPage(page, offset, total) {
      var r :| r in rows && offset < Number(nullsAreSmall, t, terms, rows, r).number <= offset + limit
          && w == Number(nullsAreSmall, t, terms, rows, r);
      assert r in Elements(sorted);
      var i :| 0 <= i < |sorted| && sorted[i] == r;
      assert page[i - offset] == r;
    }
    forall w | w in NumberedPage(page, offset, total) ensures w in PageOf(window, parent) {
      var k :| 0 <= k < |page| && w == Numbered(page[k], offset + 1 + k, total);
      assert page[k] == sorted[offset + k];
      assert sorted[offset + k] in Elements(sorted);
    }
  }
}
