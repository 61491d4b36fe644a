/** In which order the rows of a window page are listed. The window numbers them by its own terms, but what is
    fetched comes in the order of the queryset, or in any order when it has none. */
module PageOrder {
  import opened Options
  import opened Sequences
  import opened RowOrder
  import opened WindowSlice
  import opened OrderForms

  /** A page as it was fetched: each of its rows once. */
  ghost predicate Lists<C>(page: seq<Numbered<C>>, rows: set<Numbered<C>>) {
    Distinct(page) && Elements(page) == rows
  }

  function RowsOf<C>(page: seq<Numbered<C>>): seq<Row<C>> {
    seq(|page|, i requires 0 <= i < |page| => page[i].row)
  }

  ghost predicate Ascending<C>(page: seq<Numbered<C>>) {
    forall i, j :: 0 <= i < j < |page| ==> page[i].number < page[j].number
  }

  // ------------------------------------------------------------- a list by its numbers

  function Numbers<C>(rows: seq<Row<C>>, offset: nat, total: nat): seq<Numbered<C>> {
    seq(|rows|, i requires 0 <= i < |rows| => Numbered(rows[i], offset + 1 + i, total))
  }

  lemma ListSize<C>(page: seq<Numbered<C>>, rows: seq<Row<C>>, offset: nat, total: nat)
    requires Lists(page, NumberedPage(rows, offset, total))
    ensures |page| == |rows|
  {
    var numbers := Numbers(rows, offset, total);
    assert Elements(numbers) == NumberedPage(rows, offset, total) by {
      forall i | 0 <= i < |rows| ensures Numbered(rows[i], offset + 1 + i, total) in Elements(numbers) {
        assert numbers[i] in numbers;
      }
    }
    DistinctSize(numbers);
    DistinctSize(page);
  }

  lemma Place<C>(page: seq<Numbered<C>>, rows: seq<Row<C>>, offset: nat, total: nat, i: nat) returns (k: nat)
    requires Lists(page, NumberedPage(rows, offset, total)) && i < |page|
    ensures k < |rows| && page[i] == Numbered(rows[k], offset + 1 + k, total)
  {
    assert page[i] in Elements(page);
    k :| 0 <= k < |rows| && page[i] == Numbered(rows[k], offset + 1 + k, total);
  }

  lemma {:induction false} Climbs<C>(page: seq<Numbered<C>>, i: nat, j: nat)
    requires Ascending(page) && i <= j < |page|
    ensures page[i].number + (j - i) <= page[j].number
    decreases j - i
  {
    if i < j { Climbs(page, i, j - 1); }
  }

  /** A fetched list is the page exactly when its row numbers ascend. */
  lemma ListIsPage<C>(page: seq<Numbered<C>>, rows: seq<Row<C>>, offset: nat, total: nat)
    requires Lists(page, NumberedPage(rows, offset, total)) && Distinct(rows)
    ensures RowsOf(page) == rows <==> Ascending(page)
  {
    hide Lists, Ascending, NumberedPage;
    ListSize(page, rows, offset, total);
    if RowsOf(page) == rows {
      AscendingPage(page, rows, offset, total);
    }
    if Ascending(page) {
      forall i | 0 <= i < |page| ensures page[i].row == rows[i] {
        var first := Place(page, rows, offset, total, 0);
        var k := Place(page, rows, offset, total, i);
        var last := Place(page, rows, offset, total, |page| - 1);
        Climbs(page, 0, i);
        Climbs(page, i, |page| - 1);
      }
    }
  }

  lemma AscendingPage<C>(page: seq<Numbered<C>>, rows: seq<Row<C>>, offset: nat, total: nat)
    requires Lists(page, NumberedPage(rows, offset, total)) && Distinct(rows) && RowsOf(page) == rows
    ensures Ascending(page)
  {
    hide Lists, NumberedPage;
    forall i | 0 <= i < |page| ensures page[i].number == offset + 1 + i {
      var k := Place(page, rows, offset, total, i);
      assert rows[i] == page[i].row == rows[k];
    }
  }

  // ------------------------------------------------------------ lists in an outer order

  /** The list came in the order of these terms; rows they do not tell apart came in any order. */
  ghost predicate InOrder<C(!new)>(nullsAreSmall: bool, t: Table<C>, outer: seq<Term<C>>, page: seq<Numbered<C>>) {
    forall i, j :: 0 <= i < j < |page| ==> !PlainPrecedes(nullsAreSmall, t, outer, page[j].row, page[i].row)
  }

  /** What outer terms have to be for every page to be listed in its order: the window's terms in another
      spelling, without nullable columns before the key on a database that takes nulls for small values. */
  predicate KeepsPages<C(==)>(nullsAreSmall: bool, t: Table<C>, outer: seq<Term<C>>, terms: seq<Term<C>>) {
    && UsesKey(t, outer) && SameOrder(t, outer, terms)
    && (nullsAreSmall ==>
          forall term <- Normal(t, outer, {}) :: term.column in t.pkAliases || term.column !in t.nullable)
  }

  /** Two rows a window orders one way, and the outer terms do not. */
  ghost predicate Clashing<C(!new)>(nullsAreSmall: bool, t: Table<C>, outer: seq<Term<C>>, terms: seq<Term<C>>,
      x: Row<C>, y: Row<C>)
  {
    && x.pk != y.pk && Conforms(t, x) && Conforms(t, y)
    && Precedes(t, terms, x, y) && !PlainPrecedes(nullsAreSmall, t, outer, x, y)
  }

  predicate Columns<C(==)>(t: Table<C>, terms: seq<Term<C>>) {
    t.pkAttname in t.pkAliases && forall term <- terms :: term.column in t.attnames + t.pkAliases
  }

  lemma {:induction false} WithoutNullsAgree<C>(nullsAreSmall: bool, t: Table<C>, terms: seq<Term<C>>,
      a: Row<C>, b: Row<C>)
    requires forall term <- terms :: ValueOf(t, a, term.column).Some? && ValueOf(t, b, term.column).Some?
    ensures PlainPrecedes(nullsAreSmall, t, terms, a, b) == Precedes(t, terms, a, b)
  {
    hide ValueOf, PlainPrecedes;
    PlainStep(nullsAreSmall, t, terms, a, b);
    if terms != [] {
      assert terms[0] in terms;
      WithoutNullsAgree(nullsAreSmall, t, terms[1..], a, b);
    }
  }

  lemma NoClash<C(!new)>(nullsAreSmall: bool, t: Table<C>, outer: seq<Term<C>>, terms: seq<Term<C>>,
      x: Row<C>, y: Row<C>)
    requires Columns(t, outer) && Columns(t, terms) && UsesKey(t, terms) && KeepsPages(nullsAreSmall, t, outer, terms)
    ensures !Clashing(nullsAreSmall, t, outer, terms, x, y)
  {
    hide Precedes, PlainPrecedes, Normal, UsesKey, ValueOf;
    if Clashing(nullsAreSmall, t, outer, terms, x, y) {
      NormalKeepsOrder(t, terms, x, y);
      NormalKeepsPlainOrder(nullsAreSmall, t, outer, {}, x, y);
      var normal := Normal(t, outer, {});
      if nullsAreSmall {
        NormalIsNormal(t, outer, {});
        forall term <- normal ensures ValueOf(t, x, term.column).Some? && ValueOf(t, y, term.column).Some? {
          HasValue(t, x, term.column);
          HasValue(t, y, term.column);
        }
        WithoutNullsAgree(nullsAreSmall, t, normal, x, y);
      } else {
        LargeNullsAgree(t, normal, x, y);
      }
    }
  }

  lemma HasValue<C(!new)>(t: Table<C>, r: Row<C>, c: C)
    requires t.pkAttname in t.pkAliases && c in t.attnames + {t.pkAttname} && Conforms(t, r)
    requires c in t.pkAliases || c !in t.nullable
    ensures ValueOf(t, r, c).Some?
  {
  }

  // ------------------------------------------------------------------- where it fails

  function Plain<C(==)>(t: Table<C>, pk: int, parent: Option<int>, column: Option<C>): Row<C> {
    Row(pk, parent, map c <- t.attnames :: if Some(c) == column then None else Some(0))
  }

  /** Without the key among them, outer terms leave rows that are alike in all columns in any order. */
  lemma {:induction false} AlikeRows<C>(nullsAreSmall: bool, t: Table<C>, outer: seq<Term<C>>, a: Row<C>, b: Row<C>)
    requires forall term <- outer :: ValueOf(t, a, term.column) == ValueOf(t, b, term.column)
    ensures !PlainPrecedes(nullsAreSmall, t, outer, a, b)
  {
    hide PlainPrecedes, ValueOf;
    PlainStep(nullsAreSmall, t, outer, a, b);
    if outer != [] {
      assert outer[0] in outer;
      AlikeRows(nullsAreSmall, t, outer[1..], a, b);
    }
  }

  lemma KeylessClash<C(!new)>(nullsAreSmall: bool, t: Table<C>, outer: seq<Term<C>>, terms: seq<Term<C>>,
      parent: Option<int>) returns (x: Row<C>, y: Row<C>)
    requires Columns(t, outer) && UsesKey(t, terms) && !UsesKey(t, outer)
    ensures Clashing(nullsAreSmall, t, outer, terms, x, y) && x.parent == y.parent == parent
  {
    hide Precedes, PlainPrecedes;
    x, y := Plain(t, 0, parent, None), Plain(t, 1, parent, None);
    KeyTellsRowsApart(t, terms, x, y);
    if !Precedes(t, terms, x, y) { x, y := y, x; }
    AlikeRows(nullsAreSmall, t, outer, x, y);
  }

  lemma FilledConforms<C(!new)>(t: Table<C>, r: Row<C>, c: C)
    requires Filled(t, r) && c in t.attnames + t.pkAliases
    ensures Conforms(t, r) && ValueOf(t, r, c).Some?
  {
  }

  lemma OrderClash<C(!new)>(nullsAreSmall: bool, t: Table<C>, outer: seq<Term<C>>, terms: seq<Term<C>>,
      parent: Option<int>) returns (x: Row<C>, y: Row<C>)
    requires Orders(t, outer) && Orders(t, terms) && !SameOrder(t, outer, terms)
    ensures Clashing(nullsAreSmall, t, outer, terms, x, y) && x.parent == y.parent == parent
  {
    hide Precedes, PlainPrecedes, Normal, UsesKey, Filled, Conforms, ValueOf;
    x, y := OrdersDiffer(t, terms, outer, parent);
    FilledConforms(t, x, t.pkAttname);
    FilledConforms(t, y, t.pkAttname);
    forall term <- outer ensures ValueOf(t, x, term.column).Some? && ValueOf(t, y, term.column).Some? {
      FilledConforms(t, x, term.column);
      FilledConforms(t, y, term.column);
    }
    WithoutNullsAgree(nullsAreSmall, t, outer, x, y);
    PrecedesIsWeakOrder(t, outer, y, x, y);
  }

  lemma NullClash<C(!new)>(t: Table<C>, outer: seq<Term<C>>, terms: seq<Term<C>>, i: nat, parent: Option<int>)
      returns (x: Row<C>, y: Row<C>)
    requires Orders(t, outer) && Orders(t, terms) && SameOrder(t, outer, terms)
    requires i < |Normal(t, outer, {})|
    requires var c := Normal(t, outer, {})[i].column; c !in t.pkAliases && c in t.nullable
    ensures Clashing(true, t, outer, terms, x, y) && x.parent == y.parent == parent
  {
    hide Precedes, PlainPrecedes, UsesKey, Normal, ValueOf;
    var normal := Normal(t, outer, {});
    var term := normal[i];
    NormalIsNormal(t, outer, {});
    x, y := Plain(t, 0, parent, None), Plain(t, 1, parent, Some(term.column));
    assert term in normal;
    PlainConforms(t, 0, parent, None);
    PlainConforms(t, 1, parent, Some(term.column));
    NullOpposes(t, term, parent);
    EarlierPlain(t, normal, i, parent);
    if term.descending { x, y := y, x; }
    PrefixDecides(t, normal, i, x, y);
    NormalKeepsOrder(t, terms, x, y);
    PlainPrefixDecides(true, t, normal, i, y, x);
    NormalKeepsPlainOrder(true, t, outer, {}, x, y);
  }

  /** A row with no value in a column comes second in memory, and first where nulls are small. */
  lemma NullOpposes<C(!new)>(t: Table<C>, term: Term<C>, parent: Option<int>)
    requires term.column in t.attnames && term.column !in t.pkAliases
    ensures var x, y := Plain(t, 0, parent, None), Plain(t, 1, parent, Some(term.column));
            if term.descending then Before(t, term, y, x) && PlainBefore(true, t, term, x, y)
            else Before(t, term, x, y) && PlainBefore(true, t, term, y, x)
  {
  }

  lemma PlainConforms<C(!new)>(t: Table<C>, pk: int, parent: Option<int>, column: Option<C>)
    requires column.Some? ==> column.value in t.nullable
    ensures Conforms(t, Plain(t, pk, parent, column))
  {
  }

  lemma EarlierPlain<C(!new)>(t: Table<C>, normal: seq<Term<C>>, i: nat, parent: Option<int>)
    requires t.pkAttname in t.pkAliases && IsNormal(t, normal, {}) && i < |normal|
    ensures var x, y := Plain(t, 0, parent, None), Plain(t, 1, parent, Some(normal[i].column));
            forall k :: 0 <= k < i ==> ValueOf(t, x, normal[k].column) == ValueOf(t, y, normal[k].column)
  {
    var x, y := Plain(t, 0, parent, None), Plain(t, 1, parent, Some(normal[i].column));
    forall k | 0 <= k < i ensures ValueOf(t, x, normal[k].column) == ValueOf(t, y, normal[k].column) {
      EarlierColumn(t, normal, normal, i, k);
    }
  }

  lemma ClashExists<C(!new)>(nullsAreSmall: bool, t: Table<C>, outer: seq<Term<C>>, terms: seq<Term<C>>,
      parent: Option<int>) returns (x: Row<C>, y: Row<C>)
    requires Columns(t, outer) && Columns(t, terms) && UsesKey(t, terms) && !KeepsPages(nullsAreSmall, t, outer, terms)
    ensures Clashing(nullsAreSmall, t, outer, terms, x, y) && x.parent == y.parent == parent
  {
    hide Normal, UsesKey, Clashing, SameOrder;
    if !UsesKey(t, outer) {
      x, y := KeylessClash(nullsAreSmall, t, outer, terms, parent);
    } else if !SameOrder(t, outer, terms) {
      x, y := OrderClash(nullsAreSmall, t, outer, terms, parent);
    } else {
      var normal := Normal(t, outer, {});
      var term :| term in normal && !(term.column in t.pkAliases || term.column !in t.nullable);
      var i :| 0 <= i < |normal| && normal[i] == term;
      x, y := NullClash(t, outer, terms, i, parent);
    }
  }

  // ------------------------------------------------------------------------ the pages

  /** Some page of some parent, fetched in an outer order. */
  datatype Fetch<C> = Fetch(rows: set<Row<C>>, parent: int, children: seq<Row<C>>, offset: nat, limit: nat,
                            page: seq<Numbered<C>>)

  ghost predicate Fetched<C(!new)>(nullsAreSmall: bool, t: Table<C>, outer: seq<Term<C>>, terms: seq<Term<C>>,
      f: Fetch<C>)
  {
    && ChildrenOf(t, f.rows, f.parent, f.children)
    && Lists(f.page, PageOf(Window(nullsAreSmall, t, terms, f.rows, f.offset, f.limit), f.parent))
    && InOrder(nullsAreSmall, t, outer, f.page)
  }

  function SlicedRows<C(==)>(t: Table<C>, terms: seq<Term<C>>, f: Fetch<C>): seq<Row<C>> {
    Slice(SortBy(t, terms, f.children), f.offset, f.offset + f.limit)
  }

  lemma SliceDistinct<C(!new)>(t: Table<C>, terms: seq<Term<C>>, f: Fetch<C>)
    requires Distinct(f.children)
    ensures Distinct(SlicedRows(t, terms, f)) && forall r <- SlicedRows(t, terms, f) :: r in Elements(f.children)
    ensures Sorted(t, terms, SlicedRows(t, terms, f))
  {
    hide SortBy, Precedes;
    DistinctSort(t, terms, f.children);
    SortBySorted(t, terms, f.children);
    forall r <- SlicedRows(t, terms, f) ensures r in Elements(f.children) {
      assert r in Elements(SortBy(t, terms, f.children));
    }
  }

  lemma OrderedFetch<C(!new)>(nullsAreSmall: bool, t: Table<C>, outer: seq<Term<C>>, terms: seq<Term<C>>, f: Fetch<C>)
    requires Columns(t, outer) && Total(t, terms) && KeepsPages(nullsAreSmall, t, outer, terms)
    requires Fetched(nullsAreSmall, t, outer, terms, f)
    ensures RowsOf(f.page) == SlicedRows(t, terms, f)
  {
    hide Total, KeepsPages, Window, PageOf, NumberedPage, SortBy, Slice, Precedes, PlainPrecedes, Lists, Conforms,
         UsesKey;
    var rows := SlicedRows(t, terms, f);
    WindowIsSortAndSlice(nullsAreSmall, t, terms, f.rows, f.parent, f.children, f.offset, f.limit);
    SliceDistinct(t, terms, f);
    TotalColumns(t, terms);
    ListIsPage(f.page, rows, f.offset, |f.children|);
    forall i, j | 0 <= i < j < |f.page| ensures f.page[i].number < f.page[j].number {
      var k := Place(f.page, rows, f.offset, |f.children|, i);
      var l := Place(f.page, rows, f.offset, |f.children|, j);
      ListedTwice(f.page, NumberedPage(rows, f.offset, |f.children|), i, j);
      assert rows[k] in rows && rows[l] in rows;
      if l < k {
        RowsOfOne(t, f, rows[l], rows[k]);
        TotalTells(t, terms, rows[l], rows[k]);
        NoClash(nullsAreSmall, t, outer, terms, rows[l], rows[k]);
        assert Precedes(t, terms, rows[l], rows[k]);
        assert false;
      }
    }
  }

  lemma ListedTwice<C>(page: seq<Numbered<C>>, rows: set<Numbered<C>>, i: nat, j: nat)
    requires Lists(page, rows) && i < j < |page|
    ensures page[i] != page[j]
  {
  }

  lemma RowsOfOne<C(!new)>(t: Table<C>, f: Fetch<C>, a: Row<C>, b: Row<C>)
    requires ChildrenOf(t, f.rows, f.parent, f.children) && a in Elements(f.children) && b in Elements(f.children)
    ensures Conforms(t, a) && Conforms(t, b) && (a != b ==> a.pk != b.pk)
  {
  }

  lemma TotalColumns<C>(t: Table<C>, terms: seq<Term<C>>)
    requires Total(t, terms) && t.pkAttname in t.pkAliases
    ensures UsesKey(t, terms) && Columns(t, terms)
  {
  }

  lemma TotalTells<C(!new)>(t: Table<C>, terms: seq<Term<C>>, a: Row<C>, b: Row<C>)
    requires Total(t, terms) && a.pk != b.pk
    ensures Precedes(t, terms, a, b) || Precedes(t, terms, b, a)
  {
    KeyTellsRowsApart(t, terms, a, b);
  }

  /** Two rows that clash are a page that may be listed the wrong way round. */
  lemma ClashShows<C(!new)>(nullsAreSmall: bool, t: Table<C>, outer: seq<Term<C>>, terms: seq<Term<C>>,
      parent: int, x: Row<C>, y: Row<C>) returns (f: Fetch<C>)
    requires Total(t, terms) && Clashing(nullsAreSmall, t, outer, terms, x, y) && x.parent == y.parent == Some(parent)
    ensures Fetched(nullsAreSmall, t, outer, terms, f) && RowsOf(f.page) != SlicedRows(t, terms, f)
  {
    hide Total, Precedes, PlainPrecedes, Window, PageOf, SortBy, Conforms;
    var page := [Numbered(y, 2, 2), Numbered(x, 1, 2)];
    f := Fetch({x, y}, parent, [x, y], 0, 2, page);
    assert Siblings(f.rows, Some(parent)) == Elements(f.children);
    WindowIsSortAndSlice(nullsAreSmall, t, terms, f.rows, parent, f.children, 0, 2);
    SortOfTwo(t, terms, x, y, f.children);
    assert SlicedRows(t, terms, f) == [x, y];
    assert NumberedPage([x, y], 0, 2) == Elements(page) by {
      assert [x, y][0] == x && [x, y][1] == y;
      assert page[0] in page && page[1] in page;
    }
    assert RowsOf(page)[0] == y;
  }

  /** Every page of every parent is listed in its order exactly when the queryset's own ordering is the window's
      in another spelling, with no nullable column before the key where the database puts nulls first. */
  lemma PagesKeepOrder<C(!new)>(nullsAreSmall: bool, t: Table<C>, outer: seq<Term<C>>, terms: seq<Term<C>>)
    requires Columns(t, outer) && Total(t, terms)
    ensures (forall f | Fetched(nullsAreSmall, t, outer, terms, f) :: RowsOf(f.page) == SlicedRows(t, terms, f))
       <==> KeepsPages(nullsAreSmall, t, outer, terms)
  {
    hide Fetched, KeepsPages, Total, RowsOf, SlicedRows, Clashing;
    if KeepsPages(nullsAreSmall, t, outer, terms) {
      forall f | Fetched(nullsAreSmall, t, outer, terms, f) ensures RowsOf(f.page) == SlicedRows(t, terms, f) {
        OrderedFetch(nullsAreSmall, t, outer, terms, f);
      }
    } else {
      TotalColumns(t, terms);
      var x, y := ClashExists(nullsAreSmall, t, outer, terms, Some(0));
      var f := ClashShows(nullsAreSmall, t, outer, terms, 0, x, y);
    }
  }
}
