/** Ordering rows by several terms: the order the terms mean, the stable sorts that realise it one term
    at a time, and the rank of a row in it. */
module RowOrder {
  import opened Options
  import opened Sequences

  /** A row with its primary key, the parent its foreign key names, and its other column values. */
  datatype Row<C> = Row(pk: int, parent: Option<int>, values: map<C, Option<int>>)

  datatype Term<C> = Term(column: C, descending: bool)

  /** What ordering needs of a model: its key's attname, every spelling of the key, and its columns. */
  datatype Table<!C> = Table(pkAttname: C, pkAliases: set<C>, attnames: set<C>, nullable: set<C>)

  // ------------------------------------------------------------ the order of the terms

  /** The value an instance has for a name; unknown names have none. */
  function ValueOf<C(==)>(t: Table<C>, r: Row<C>, c: C): Option<int> {
    if c in t.pkAliases then Some(r.pk) else if c in r.values then r.values[c] else None
  }

  /** Ascending, values before no value. */
  predicate Smaller(a: Option<int>, b: Option<int>) {
    a.Some? && (b.None? || a.value < b.value)
  }

  predicate Before<C(==)>(t: Table<C>, term: Term<C>, a: Row<C>, b: Row<C>) {
    var x, y := ValueOf(t, a, term.column), ValueOf(t, b, term.column);
    if term.descending then Smaller(y, x) else Smaller(x, y)
  }

  /** The first term that tells two rows apart decides. */
  predicate Precedes<C(==)>(t: Table<C>, terms: seq<Term<C>>, a: Row<C>, b: Row<C>) {
    terms != [] &&
    (Before(t, terms[0], a, b) || (!Before(t, terms[0], b, a) && Precedes(t, terms[1..], a, b)))
  }

  lemma BeforeIsWeakOrder<C>(t: Table<C>, term: Term<C>, a: Row<C>, b: Row<C>, c: Row<C>)
    ensures Before(t, term, a, b) ==> !Before(t, term, b, a)
    ensures Before(t, term, a, c) ==> Before(t, term, a, b) || Before(t, term, b, c)
  {
    hide ValueOf;
  }

  lemma {:induction false} PrecedesIsWeakOrder<C>(t: Table<C>, terms: seq<Term<C>>, a: Row<C>, b: Row<C>, c: Row<C>)
    ensures Precedes(t, terms, a, b) ==> !Precedes(t, terms, b, a)
    ensures Precedes(t, terms, a, c) ==> Precedes(t, terms, a, b) || Precedes(t, terms, b, c)
  {
    hide Before;
    if terms != [] {
      PrecedesIsWeakOrder(t, terms[1..], a, b, c);
      BeforeIsWeakOrder(t, terms[0], a, b, c);
      BeforeIsWeakOrder(t, terms[0], b, a, c);
      BeforeIsWeakOrder(t, terms[0], a, c, b);
      BeforeIsWeakOrder(t, terms[0], b, c, a);
      BeforeIsWeakOrder(t, terms[0], c, b, a);
      BeforeIsWeakOrder(t, terms[0], c, a, b);
    }
  }

  /** The model's key ends the terms unless one of them orders by it already. */
  function WithKey<C(==)>(t: Table<C>, terms: seq<Term<C>>): seq<Term<C>> {
    if exists term <- terms :: term.column in t.pkAliases then terms else terms + [Term(t.pkAttname, false)]
  }

  predicate UsesKey<C(==)>(t: Table<C>, terms: seq<Term<C>>) {
    exists term <- terms :: term.column in t.pkAliases
  }

  lemma WithKeyUsesKey<C>(t: Table<C>, terms: seq<Term<C>>)
    requires t.pkAttname in t.pkAliases
    ensures UsesKey(t, WithKey(t, terms))
  {
    if !UsesKey(t, terms) { assert Term(t.pkAttname, false) in WithKey(t, terms); }
  }

  /** Terms that use the key tell any two rows apart. */
  lemma {:induction false} KeyTellsRowsApart<C>(t: Table<C>, terms: seq<Term<C>>, a: Row<C>, b: Row<C>)
    requires UsesKey(t, terms) && a.pk != b.pk
    ensures Precedes(t, terms, a, b) || Precedes(t, terms, b, a)
  {
    if terms[0].column !in t.pkAliases {
      var term :| term in terms && term.column in t.pkAliases;
      assert term in terms[1..];
      KeyTellsRowsApart(t, terms[1..], a, b);
    }
  }

  /** A stored row has a value in every column that is not nullable. */
  ghost predicate Conforms<C(!new)>(t: Table<C>, r: Row<C>) {
    forall c :: c in t.attnames && c !in t.nullable ==> ValueOf(t, r, c).Some?
  }

  // --------------------------------------------------------------- one stable sort

  /** Puts a row in front of the rows of a sorted list that are not smaller than it. */
  function Insert<C(==)>(t: Table<C>, term: Term<C>, r: Row<C>, sorted: seq<Row<C>>): seq<Row<C>> {
    if sorted == [] || !Before(t, term, sorted[0], r) then [r] + sorted
    else [sorted[0]] + Insert(t, term, r, sorted[1..])
  }

  /** Rows sorted by one term; rows it does not tell apart keep their order. */
  function StableSort<C(==)>(t: Table<C>, term: Term<C>, rows: seq<Row<C>>): seq<Row<C>> {
    if rows == [] then [] else Insert(t, term, rows[0], StableSort(t, term, rows[1..]))
  }

  /** One stable sort a term, the last term first. */
  function SortBy<C(==)>(t: Table<C>, terms: seq<Term<C>>, rows: seq<Row<C>>): seq<Row<C>> {
    if terms == [] then rows else StableSort(t, terms[0], SortBy(t, terms[1..], rows))
  }

  ghost predicate Sorted<C(!new)>(t: Table<C>, terms: seq<Term<C>>, rows: seq<Row<C>>) {
    forall i, j :: 0 <= i < j < |rows| ==> !Precedes(t, terms, rows[j], rows[i])
  }

  lemma {:induction false} InsertElements<C>(t: Table<C>, term: Term<C>, r: Row<C>, sorted: seq<Row<C>>)
    ensures multiset(Insert(t, term, r, sorted)) == multiset(sorted) + multiset{r}
  {
    hide Before;
    if !(sorted == [] || !Before(t, term, sorted[0], r)) {
      InsertElements(t, term, r, sorted[1..]);
      assert sorted == [sorted[0]] + sorted[1..];
    }
  }

  lemma {:induction false} StableSortElements<C>(t: Table<C>, term: Term<C>, rows: seq<Row<C>>)
    ensures multiset(StableSort(t, term, rows)) == multiset(rows)
  {
    if rows != [] {
      StableSortElements(t, term, rows[1..]);
      InsertElements(t, term, rows[0], StableSort(t, term, rows[1..]));
      assert rows == [rows[0]] + rows[1..];
    }
  }

  /** Sorting moves rows around; it loses and invents none. */
  lemma {:induction false} SortByElements<C>(t: Table<C>, terms: seq<Term<C>>, rows: seq<Row<C>>)
    ensures multiset(SortBy(t, terms, rows)) == multiset(rows)
  {
    if terms != [] {
      SortByElements(t, terms[1..], rows);
      StableSortElements(t, terms[0], SortBy(t, terms[1..], rows));
    }
  }

  lemma SameElements<C>(a: seq<Row<C>>, b: seq<Row<C>>, r: Row<C>)
    requires multiset(a) == multiset(b)
    ensures r in a <==> r in b
  {
    assert r in a <==> r in multiset(a);
    assert r in b <==> r in multiset(b);
  }

  /** Inserting keeps a list sorted by all terms when the later terms put the row before none of it. */
  lemma {:induction false} InsertSorted<C(!new)>(t: Table<C>, terms: seq<Term<C>>, r: Row<C>, sorted: seq<Row<C>>)
    requires terms != [] && Sorted(t, terms, sorted)
    requires forall y <- sorted :: !Precedes(t, terms[1..], y, r)
    ensures Sorted(t, terms, Insert(t, terms[0], r, sorted))
  {
    hide Before;
    var result := Insert(t, terms[0], r, sorted);
    if sorted == [] {
    } else if !Before(t, terms[0], sorted[0], r) {
      forall y <- sorted ensures !Precedes(t, terms, y, r) {
        FirstIsLeast(t, terms, sorted, y);
        assert !Precedes(t, terms, sorted[0], r);
        PrecedesIsWeakOrder(t, terms, y, sorted[0], r);
      }
      SortedFront(t, terms, r, sorted);
    } else {
      InsertSorted(t, terms, r, sorted[1..]);
      forall y <- Insert(t, terms[0], r, sorted[1..]) ensures !Precedes(t, terms, y, sorted[0]) {
        InsertMembers(t, terms[0], r, sorted[1..], y);
        if y == r {
          BeforeIsWeakOrder(t, terms[0], sorted[0], r, r);
        } else {
          FirstIsLeast(t, terms, sorted, y);
        }
      }
      SortedFront(t, terms, sorted[0], Insert(t, terms[0], r, sorted[1..]));
    }
  }

  lemma FirstIsLeast<C(!new)>(t: Table<C>, terms: seq<Term<C>>, sorted: seq<Row<C>>, y: Row<C>)
    requires sorted != [] && Sorted(t, terms, sorted) && y in sorted
    ensures !Precedes(t, terms, y, sorted[0])
  {
    hide Precedes;
    PrecedesIsWeakOrder(t, terms, y, y, y);
  }

  lemma SortedFront<C(!new)>(t: Table<C>, terms: seq<Term<C>>, r: Row<C>, rest: seq<Row<C>>)
    requires Sorted(t, terms, rest) && forall y <- rest :: !Precedes(t, terms, y, r)
    ensures Sorted(t, terms, [r] + rest)
  {
    hide Precedes;
  }

  lemma InsertMembers<C>(t: Table<C>, term: Term<C>, r: Row<C>, sorted: seq<Row<C>>, y: Row<C>)
    ensures y in Insert(t, term, r, sorted) <==> y == r || y in sorted
  {
    InsertElements(t, term, r, sorted);
    assert y in Insert(t, term, r, sorted) <==> y in multiset(Insert(t, term, r, sorted));
    assert y in sorted <==> y in multiset(sorted);
  }

  /** A stable sort by the first term of rows sorted by the others sorts them by all. */
  lemma {:induction false} StableSortSorted<C(!new)>(t: Table<C>, terms: seq<Term<C>>, rows: seq<Row<C>>)
    requires terms != [] && Sorted(t, terms[1..], rows)
    ensures Sorted(t, terms, StableSort(t, terms[0], rows))
    decreases |rows|
  {
    hide Precedes;
    if rows != [] {
      StableSortSorted(t, terms, rows[1..]);
      StableSortElements(t, terms[0], rows[1..]);
      forall y <- StableSort(t, terms[0], rows[1..]) ensures !Precedes(t, terms[1..], y, rows[0]) {
        SameElements(StableSort(t, terms[0], rows[1..]), rows[1..], y);
      }
      InsertSorted(t, terms, rows[0], StableSort(t, terms[0], rows[1..]));
    }
  }

  /** The chain of stable sorts orders rows the way the terms mean. */
  lemma {:induction false} SortBySorted<C(!new)>(t: Table<C>, terms: seq<Term<C>>, rows: seq<Row<C>>)
    ensures Sorted(t, terms, SortBy(t, terms, rows))
    decreases |terms|
  {
    if terms != [] {
      SortBySorted(t, terms[1..], rows);
      StableSortSorted(t, terms, SortBy(t, terms[1..], rows));
    }
  }
}
