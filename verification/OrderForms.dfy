/** When two lists of ordering terms order all rows alike: exactly when they have the same normal form. */
module OrderForms {
  import opened Options
  import opened Sequences
  import opened RowOrder
  import opened WindowSlice

  /** Every spelling of the key stands for its attname. */
  function Canonical<C(==)>(t: Table<C>, c: C): C { if c in t.pkAliases then t.pkAttname else c }

  /** Terms without those that cannot decide anything: columns that were used before, and all that follows
      the key. */
  function Normal<C(==)>(t: Table<C>, terms: seq<Term<C>>, seen: set<C>): seq<Term<C>>
    decreases |terms|
  {
    if terms == [] then []
    else
      var c := Canonical(t, terms[0].column);
      if c in seen then Normal(t, terms[1..], seen)
      else if c == t.pkAttname then [Term(c, terms[0].descending)]
      else [Term(c, terms[0].descending)] + Normal(t, terms[1..], seen + {c})
  }

  predicate SameOrder<C(==)>(t: Table<C>, a: seq<Term<C>>, b: seq<Term<C>>) { Normal(t, a, {}) == Normal(t, b, {}) }

  /** Terms a total order can be made of: columns of the model or spellings of its key, the key among them. */
  predicate Orders<C(==)>(t: Table<C>, terms: seq<Term<C>>) {
    && t.pkAttname in t.pkAliases && UsesKey(t, terms)
    && forall term <- terms :: term.column in t.attnames + t.pkAliases
  }

  /** Rows stored in one table: they have values where they must, and differ in their keys. */
  ghost predicate Rows<C(!new)>(t: Table<C>, items: seq<Row<C>>) {
    && Distinct(items) && (forall r <- items :: Conforms(t, r))
    && forall a <- items, b <- items :: a.pk == b.pk ==> a == b
  }

  // ---------------------------------------------------------- normal terms order alike

  ghost predicate EqualOn<C(!new)>(t: Table<C>, a: Row<C>, b: Row<C>, cs: set<C>) {
    forall c <- cs :: ValueOf(t, a, c) == ValueOf(t, b, c)
  }

  lemma CanonicalValue<C>(t: Table<C>, r: Row<C>, c: C)
    requires t.pkAttname in t.pkAliases
    ensures ValueOf(t, r, Canonical(t, c)) == ValueOf(t, r, c)
  {
  }

  /** Terms as a plain ORDER BY has them: the database places nulls by itself. */
  function Unplaced<C>(terms: seq<Term<C>>): seq<SqlTerm<C>> {
    seq(|terms|, i requires 0 <= i < |terms| => SqlTerm(terms[i], BackendDefault))
  }

  predicate PlainPrecedes<C(==)>(nullsAreSmall: bool, t: Table<C>, terms: seq<Term<C>>, a: Row<C>, b: Row<C>) {
    SqlPrecedes(nullsAreSmall, t, Unplaced(terms), a, b)
  }

  predicate PlainBefore<C(==)>(nullsAreSmall: bool, t: Table<C>, term: Term<C>, a: Row<C>, b: Row<C>) {
    SqlBefore(nullsAreSmall, t, SqlTerm(term, BackendDefault), a, b)
  }

  lemma PlainStep<C>(nullsAreSmall: bool, t: Table<C>, terms: seq<Term<C>>, a: Row<C>, b: Row<C>)
    ensures PlainPrecedes(nullsAreSmall, t, terms, a, b) <==>
      terms != [] &&
      (|| PlainBefore(nullsAreSmall, t, terms[0], a, b)
       || (!PlainBefore(nullsAreSmall, t, terms[0], b, a) && PlainPrecedes(nullsAreSmall, t, terms[1..], a, b)))
  {
    hide SqlBefore;
    if terms != [] { assert Unplaced(terms)[1..] == Unplaced(terms[1..]); }
  }

  /** A database that takes nulls for its largest values orders plain terms as memory does. */
  lemma {:induction false} LargeNullsAgree<C>(t: Table<C>, terms: seq<Term<C>>, a: Row<C>, b: Row<C>)
    ensures PlainPrecedes(false, t, terms, a, b) == Precedes(t, terms, a, b)
  {
    hide PlainPrecedes, ValueOf;
    PlainStep(false, t, terms, a, b);
    if terms != [] { LargeNullsAgree(t, terms[1..], a, b); }
  }

  lemma CanonicalBefore<C>(nullsAreSmall: bool, t: Table<C>, term: Term<C>, a: Row<C>, b: Row<C>)
    requires t.pkAttname in t.pkAliases
    ensures var canonical := Term(Canonical(t, term.column), term.descending);
            PlainBefore(nullsAreSmall, t, canonical, a, b) == PlainBefore(nullsAreSmall, t, term, a, b)
  {
    CanonicalValue(t, a, term.column);
    CanonicalValue(t, b, term.column);
  }

  /** Rows with the same value are not ordered by a term; rows with different keys are, by the key. */
  lemma EqualOrKey<C>(nullsAreSmall: bool, t: Table<C>, term: Term<C>, a: Row<C>, b: Row<C>)
    requires t.pkAttname in t.pkAliases
    ensures ValueOf(t, a, term.column) == ValueOf(t, b, term.column) <==>
              !PlainBefore(nullsAreSmall, t, term, a, b) && !PlainBefore(nullsAreSmall, t, term, b, a)
    ensures PlainBefore(nullsAreSmall, t, term, a, b) ==> !PlainBefore(nullsAreSmall, t, term, b, a)
    ensures term.column == t.pkAttname && a.pk != b.pk ==> ValueOf(t, a, term.column) != ValueOf(t, b, term.column)
  {
  }

  lemma {:induction false} NormalKeepsPlainOrder<C(!new)>(nullsAreSmall: bool, t: Table<C>, terms: seq<Term<C>>,
      seen: set<C>, a: Row<C>, b: Row<C>)
    requires t.pkAttname in t.pkAliases && a.pk != b.pk && EqualOn(t, a, b, seen)
    ensures PlainPrecedes(nullsAreSmall, t, terms, a, b)
         == PlainPrecedes(nullsAreSmall, t, Normal(t, terms, seen), a, b)
    decreases |terms|
  {
    hide PlainPrecedes, PlainBefore, ValueOf;
    if terms != [] {
      var c := Canonical(t, terms[0].column);
      var canonical := Term(c, terms[0].descending);
      CanonicalBefore(nullsAreSmall, t, terms[0], a, b);
      CanonicalBefore(nullsAreSmall, t, terms[0], b, a);
      EqualOrKey(nullsAreSmall, t, canonical, a, b);
      PlainStep(nullsAreSmall, t, terms, a, b);
      PlainStep(nullsAreSmall, t, Normal(t, terms, seen), a, b);
      if c in seen {
        assert ValueOf(t, a, c) == ValueOf(t, b, c);
        NormalKeepsPlainOrder(nullsAreSmall, t, terms[1..], seen, a, b);
        PlainStep(nullsAreSmall, t, terms[1..], a, b);
      } else if c != t.pkAttname {
        var rest := Normal(t, terms[1..], seen + {c});
        assert ([canonical] + rest)[1..] == rest;
        if ValueOf(t, a, c) == ValueOf(t, b, c) {
          NormalKeepsPlainOrder(nullsAreSmall, t, terms[1..], seen + {c}, a, b);
        }
      }
    }
  }

  lemma NormalKeepsOrder<C(!new)>(t: Table<C>, terms: seq<Term<C>>, a: Row<C>, b: Row<C>)
    requires t.pkAttname in t.pkAliases && a.pk != b.pk
    ensures Precedes(t, terms, a, b) == Precedes(t, Normal(t, terms, {}), a, b)
  {
    hide Precedes, PlainPrecedes, Normal;
    LargeNullsAgree(t, terms, a, b);
    LargeNullsAgree(t, Normal(t, terms, {}), a, b);
    NormalKeepsPlainOrder(false, t, terms, {}, a, b);
  }

  // -------------------------------------------------------------- sorting is determined

  lemma FirstsAgree<C(!new)>(t: Table<C>, terms: seq<Term<C>>, s: seq<Row<C>>, u: seq<Row<C>>)
    requires s != [] && u != [] && UsesKey(t, terms) && Rows(t, s) && multiset(s) == multiset(u)
    requires Sorted(t, terms, s) && Sorted(t, terms, u)
    ensures s[0] == u[0]
  {
    hide Precedes, UsesKey, Sorted;
    SameElements(s, u, s[0]);
    SameElements(s, u, u[0]);
    FirstIsLeast(t, terms, s, u[0]);
    FirstIsLeast(t, terms, u, s[0]);
    if s[0].pk != u[0].pk { KeyTellsRowsApart(t, terms, s[0], u[0]); }
  }

  lemma RowsRest<C(!new)>(t: Table<C>, terms: seq<Term<C>>, s: seq<Row<C>>)
    requires s != []
    ensures multiset(s[1..]) == multiset(s) - multiset{s[0]}
    ensures Rows(t, s) ==> Rows(t, s[1..])
    ensures Sorted(t, terms, s) ==> Sorted(t, terms, s[1..])
  {
    hide Precedes;
    assert s == [s[0]] + s[1..];
  }

  lemma {:induction false} SortedIsUnique<C(!new)>(t: Table<C>, terms: seq<Term<C>>, s: seq<Row<C>>, u: seq<Row<C>>)
    requires UsesKey(t, terms) && Rows(t, s) && multiset(s) == multiset(u)
    requires Sorted(t, terms, s) && Sorted(t, terms, u)
    ensures s == u
    decreases |s|
  {
    hide Precedes, UsesKey, Sorted, Rows;
    assert |multiset(s)| == |multiset(u)|;
    if s != [] {
      FirstsAgree(t, terms, s, u);
      RowsRest(t, terms, s);
      RowsRest(t, terms, u);
      SortedIsUnique(t, terms, s[1..], u[1..]);
      assert s == [s[0]] + s[1..] && u == [u[0]] + u[1..];
    }
  }

  /** Terms with the same normal form sort any rows of a table alike. */
  lemma SameOrderSortsAlike<C(!new)>(t: Table<C>, a: seq<Term<C>>, b: seq<Term<C>>, items: seq<Row<C>>)
    requires Orders(t, a) && Orders(t, b) && SameOrder(t, a, b) && Rows(t, items)
    ensures SortBy(t, a, items) == SortBy(t, b, items)
  {
    hide Normal, Precedes, UsesKey;
    var s, u := SortBy(t, a, items), SortBy(t, b, items);
    SortByElements(t, a, items);
    SortByElements(t, b, items);
    SortBySorted(t, a, items);
    SortBySorted(t, b, items);
    SortedRows(t, items, s);
    SortedRows(t, items, u);
    assert Sorted(t, a, u) by {
      forall i, j | 0 <= i < j < |u| ensures !Precedes(t, a, u[j], u[i]) {
        assert u[i] in u && u[j] in u && u[i] != u[j];
        NormalKeepsOrder(t, a, u[j], u[i]);
        NormalKeepsOrder(t, b, u[j], u[i]);
      }
    }
    SortedIsUnique(t, a, s, u);
  }

  lemma SortedRows<C(!new)>(t: Table<C>, items: seq<Row<C>>, s: seq<Row<C>>)
    requires Rows(t, items) && multiset(s) == multiset(items)
    ensures Rows(t, s)
  {
    forall r ensures r in s <==> r in items { SameElements(s, items, r); }
    assert Elements(s) == Elements(items);
    DistinctSize(items);
    assert |multiset(s)| == |multiset(items)|;
    AllDistinct(s);
  }

  // -------------------------------------------------- other normal terms order otherwise

  /** What a normal form looks like: distinct canonical columns, the key as its last. */
  ghost predicate IsNormal<C(!new)>(t: Table<C>, n: seq<Term<C>>, seen: set<C>) {
    && n != [] && n[|n| - 1].column == t.pkAttname
    && (forall i, j :: 0 <= i < j < |n| ==> n[i].column != n[j].column)
    && (forall i :: 0 <= i < |n| ==> n[i].column !in seen && n[i].column == Canonical(t, n[i].column))
  }

  lemma {:induction false} NormalIsNormal<C(!new)>(t: Table<C>, terms: seq<Term<C>>, seen: set<C>)
    requires Orders(t, terms) && t.pkAttname !in seen
    ensures IsNormal(t, Normal(t, terms, seen), seen)
    ensures forall term <- Normal(t, terms, seen) :: term.column in t.attnames + {t.pkAttname}
    decreases |terms|
  {
    var c := Canonical(t, terms[0].column);
    var canonical := Term(c, terms[0].descending);
    assert terms[0] in terms;
    if c != t.pkAttname {
      assert Orders(t, terms[1..]) by { RestOrders(t, terms); }
      if c in seen {
        NormalIsNormal(t, terms[1..], seen);
      } else {
        NormalIsNormal(t, terms[1..], seen + {c});
        var rest := Normal(t, terms[1..], seen + {c});
        assert Normal(t, terms, seen) == [canonical] + rest;
        forall i, j | 0 <= i < j < |[canonical] + rest|
          ensures ([canonical] + rest)[i].column != ([canonical] + rest)[j].column
        {
          if i == 0 { assert rest[j - 1].column !in seen + {c}; }
        }
      }
    }
  }

  lemma RestOrders<C>(t: Table<C>, terms: seq<Term<C>>)
    requires Orders(t, terms) && terms[0].column !in t.pkAliases
    ensures Orders(t, terms[1..])
  {
    var term :| term in terms && term.column in t.pkAliases;
    assert terms == [terms[0]] + terms[1..];
    assert term in terms[1..];
  }

  /** How long two lists agree from the start. */
  function Common<T(==)>(m: seq<T>, n: seq<T>): (i: nat)
    ensures i <= |m| && i <= |n| && m[..i] == n[..i]
    ensures i < |m| && i < |n| ==> m[i] != n[i]
  {
    if m == [] || n == [] || m[0] != n[0] then 0
    else
      var i := Common(m[1..], n[1..]);
      assert m[..i + 1] == [m[0]] + m[1..][..i] && n[..i + 1] == [n[0]] + n[1..][..i];
      i + 1
  }

  /** A normal form is no beginning of a longer one, since it ends with the key. */
  lemma NoBeginning<C(!new)>(t: Table<C>, m: seq<Term<C>>, n: seq<Term<C>>)
    requires IsNormal(t, m, {}) && IsNormal(t, n, {}) && |m| <= |n| && m == n[..|m|]
    ensures m == n
  {
    assert n[|m| - 1] == m[|m| - 1];
    assert n == n[..|n|];
  }

  lemma FirstDifference<C(!new)>(t: Table<C>, m: seq<Term<C>>, n: seq<Term<C>>)
    requires IsNormal(t, m, {}) && IsNormal(t, n, {}) && m != n
    ensures Common(m, n) < |m| && Common(m, n) < |n|
  {
    hide IsNormal;
    if Common(m, n) == |m| {
      assert m == m[..|m|];
      NoBeginning(t, m, n);
    } else if Common(m, n) == |n| {
      assert n == n[..|n|];
      NoBeginning(t, n, m);
    }
  }

  /** The value of the row a term puts first, or second. */
  function FirstValue(descending: bool): int { if descending then 1 else 0 }

  function SecondValue(descending: bool): int { 1 - FirstValue(descending) }

  /** A row that comes first for one term and second for another, and has zero elsewhere. */
  function Witness<C(==)>(t: Table<C>, ahead: Term<C>, behind: Term<C>, pk: int, parent: Option<int>): Row<C> {
    Row(if ahead.column == t.pkAttname then FirstValue(ahead.descending)
        else if behind.column == t.pkAttname then SecondValue(behind.descending) else pk,
        parent,
        map c <- t.attnames :: Some(if c == ahead.column then FirstValue(ahead.descending)
                                    else if c == behind.column then SecondValue(behind.descending) else 0))
  }

  predicate Ordinary<C(==)>(t: Table<C>, term: Term<C>) {
    term.column in t.attnames + {t.pkAttname} && term.column == Canonical(t, term.column)
  }

  ghost predicate Filled<C(!new)>(t: Table<C>, r: Row<C>) {
    forall c <- t.attnames :: ValueOf(t, r, c).Some?
  }

  /** Two rows that two different terms put in opposite orders, equal in every other column but the key. */
  lemma WitnessesDiffer<C(!new)>(t: Table<C>, x: Term<C>, y: Term<C>, parent: Option<int>)
    requires t.pkAttname in t.pkAliases && Ordinary(t, x) && Ordinary(t, y) && x != y
    ensures var a, b := Witness(t, x, y, 0, parent), Witness(t, y, x, 1, parent);
            a.pk != b.pk && Before(t, x, a, b) && Before(t, y, b, a)
  {
    var a, b := Witness(t, x, y, 0, parent), Witness(t, y, x, 1, parent);
    ValueOfWitness(t, x, y, 0, parent, x.column);
    ValueOfWitness(t, y, x, 1, parent, x.column);
    ValueOfWitness(t, x, y, 0, parent, y.column);
    ValueOfWitness(t, y, x, 1, parent, y.column);
  }

  lemma ValueOfWitness<C>(t: Table<C>, ahead: Term<C>, behind: Term<C>, pk: int, parent: Option<int>, c: C)
    requires t.pkAttname in t.pkAliases && c in t.attnames + {t.pkAttname} && c == Canonical(t, c)
    ensures ValueOf(t, Witness(t, ahead, behind, pk, parent), c)
         == Some(if c == ahead.column then FirstValue(ahead.descending)
                 else if c == behind.column then SecondValue(behind.descending)
                 else if c == t.pkAttname then pk else 0)
  {
  }

  /** A term decides when the terms before it do not tell the rows apart. */
  lemma {:induction false} PlainPrefixDecides<C(!new)>(nullsAreSmall: bool, t: Table<C>, terms: seq<Term<C>>, i: nat,
      a: Row<C>, b: Row<C>)
    requires t.pkAttname in t.pkAliases && i < |terms| && PlainBefore(nullsAreSmall, t, terms[i], a, b)
    requires forall k :: 0 <= k < i ==> ValueOf(t, a, terms[k].column) == ValueOf(t, b, terms[k].column)
    ensures PlainPrecedes(nullsAreSmall, t, terms, a, b) && !PlainPrecedes(nullsAreSmall, t, terms, b, a)
    decreases i
  {
    hide PlainPrecedes, PlainBefore, ValueOf;
    PlainStep(nullsAreSmall, t, terms, a, b);
    PlainStep(nullsAreSmall, t, terms, b, a);
    EqualOrKey(nullsAreSmall, t, terms[0], a, b);
    if i > 0 { PlainPrefixDecides(nullsAreSmall, t, terms[1..], i - 1, a, b); }
  }

  lemma PrefixDecides<C(!new)>(t: Table<C>, terms: seq<Term<C>>, i: nat, a: Row<C>, b: Row<C>)
    requires t.pkAttname in t.pkAliases && i < |terms| && Before(t, terms[i], a, b)
    requires forall k :: 0 <= k < i ==> ValueOf(t, a, terms[k].column) == ValueOf(t, b, terms[k].column)
    ensures Precedes(t, terms, a, b)
  {
    hide Precedes, PlainPrecedes, ValueOf;
    LargeNullsAgree(t, terms, a, b);
    PlainPrefixDecides(false, t, terms, i, a, b);
  }

  /** Two rows on which different normal forms first decide in opposite ways. */
  lemma NormalsDiffer<C(!new)>(t: Table<C>, u: seq<Term<C>>, v: seq<Term<C>>, parent: Option<int>)
      returns (a: Row<C>, b: Row<C>)
    requires t.pkAttname in t.pkAliases && IsNormal(t, u, {}) && IsNormal(t, v, {}) && u != v
    requires forall term <- u + v :: term.column in t.attnames + {t.pkAttname}
    ensures a.pk != b.pk && Filled(t, a) && Filled(t, b) && a.parent == b.parent == parent
    ensures Precedes(t, u, a, b) && Precedes(t, v, b, a)
  {
    hide Precedes, IsNormal;
    FirstDifference(t, u, v);
    var i := Common(u, v);
    assert u[i] in u + v && v[i] in u + v;
    NormalTerm(t, u, i);
    NormalTerm(t, v, i);
    a, b := Witness(t, u[i], v[i], 0, parent), Witness(t, v[i], u[i], 1, parent);
    WitnessesDiffer(t, u[i], v[i], parent);
    EarlierColumnsEqual(t, u, v, i, parent);
    PrefixDecides(t, u, i, a, b);
    PrefixDecides(t, v, i, b, a);
  }

  lemma EarlierColumnsEqual<C(!new)>(t: Table<C>, u: seq<Term<C>>, v: seq<Term<C>>, i: nat, parent: Option<int>)
    requires t.pkAttname in t.pkAliases && IsNormal(t, u, {}) && IsNormal(t, v, {})
    requires i < |u| && i < |v| && u[..i] == v[..i]
    requires forall term <- u + v :: term.column in t.attnames + {t.pkAttname}
    ensures var a, b := Witness(t, u[i], v[i], 0, parent), Witness(t, v[i], u[i], 1, parent);
            forall k :: 0 <= k < i ==> && ValueOf(t, a, u[k].column) == ValueOf(t, b, u[k].column)
                                       && ValueOf(t, b, v[k].column) == ValueOf(t, a, v[k].column)
  {
    hide IsNormal, ValueOf;
    var a, b := Witness(t, u[i], v[i], 0, parent), Witness(t, v[i], u[i], 1, parent);
    forall k | 0 <= k < i
      ensures ValueOf(t, a, u[k].column) == ValueOf(t, b, u[k].column)
      ensures ValueOf(t, b, v[k].column) == ValueOf(t, a, v[k].column)
    {
      assert u[k] == u[..i][k] && v[k] == v[..i][k] && u[k] in u + v;
      EarlierColumn(t, u, v, i, k);
      ValueOfWitness(t, u[i], v[i], 0, parent, u[k].column);
      ValueOfWitness(t, v[i], u[i], 1, parent, u[k].column);
    }
  }

  /** Different normal forms: two rows, apart in their keys, that the two lists put in opposite orders. */
  lemma OrdersDiffer<C(!new)>(t: Table<C>, m: seq<Term<C>>, n: seq<Term<C>>, parent: Option<int>)
      returns (a: Row<C>, b: Row<C>)
    requires Orders(t, m) && Orders(t, n) && !SameOrder(t, m, n)
    ensures a.pk != b.pk && Filled(t, a) && Filled(t, b) && a.parent == b.parent == parent
    ensures Precedes(t, m, a, b) && Precedes(t, n, b, a)
  {
    hide Precedes, IsNormal, Normal;
    NormalIsNormal(t, m, {});
    NormalIsNormal(t, n, {});
    a, b := NormalsDiffer(t, Normal(t, m, {}), Normal(t, n, {}), parent);
    NormalKeepsOrder(t, m, a, b);
    NormalKeepsOrder(t, n, b, a);
  }

  lemma NormalTerm<C(!new)>(t: Table<C>, n: seq<Term<C>>, i: nat)
    requires IsNormal(t, n, {}) && i < |n| && n[i].column in t.attnames + {t.pkAttname}
    ensures Ordinary(t, n[i])
  {
  }

  lemma EarlierColumn<C(!new)>(t: Table<C>, u: seq<Term<C>>, v: seq<Term<C>>, i: nat, k: nat)
    requires IsNormal(t, u, {}) && IsNormal(t, v, {}) && k < i < |u| && i < |v| && u[k] == v[k]
    ensures u[k].column !in {u[i].column, v[i].column, t.pkAttname} && u[k].column == Canonical(t, u[k].column)
  {
  }

  /** Two lists of terms sort all rows of the model's tables alike exactly when they have the same normal
      form. */
  lemma SortAlikeWhenSameOrder<C(!new)>(t: Table<C>, m: seq<Term<C>>, n: seq<Term<C>>)
    requires Orders(t, m) && Orders(t, n)
    ensures (forall items: seq<Row<C>> | Rows(t, items) :: SortBy(t, m, items) == SortBy(t, n, items)) <==>
        SameOrder(t, m, n)
  {
    hide Normal, SortBy, Orders, Rows;
    if SameOrder(t, m, n) {
      forall items: seq<Row<C>> | Rows(t, items) ensures SortBy(t, m, items) == SortBy(t, n, items) {
        SameOrderSortsAlike(t, m, n, items);
      }
    } else {
      var a, b := OrdersDiffer(t, m, n, None);
      TwoSortDifferently(t, m, n, a, b);
      assert Rows(t, [a, b]) by { TwoRows(t, a, b); }
      assert SortBy(t, m, [a, b]) != SortBy(t, n, [a, b]);
    }
  }

  lemma TwoRows<C(!new)>(t: Table<C>, a: Row<C>, b: Row<C>)
    requires a.pk != b.pk && Conforms(t, a) && Conforms(t, b)
    ensures Rows(t, [a, b])
  {
  }

  lemma TwoSortDifferently<C(!new)>(t: Table<C>, m: seq<Term<C>>, n: seq<Term<C>>, a: Row<C>, b: Row<C>)
    requires a != b && Precedes(t, m, a, b) && Precedes(t, n, b, a)
    ensures SortBy(t, m, [a, b]) == [a, b] && SortBy(t, n, [a, b]) == [b, a]
  {
    hide Precedes;
    SortOfTwo(t, m, a, b, [a, b]);
    SortOfTwo(t, n, b, a, [a, b]);
  }

  lemma SortOfTwo<C(!new)>(t: Table<C>, terms: seq<Term<C>>, first: Row<C>, second: Row<C>, items: seq<Row<C>>)
    requires first != second && Precedes(t, terms, first, second)
    requires items == [first, second] || items == [second, first]
    ensures SortBy(t, terms, items) == [first, second]
  {
    hide Precedes, SortBy;
    var s := SortBy(t, terms, items);
    SortByElements(t, terms, items);
    SortBySorted(t, terms, items);
    assert |multiset(s)| == |multiset(items)| == 2;
    SameElements(s, items, s[0]);
    SameElements(s, items, s[1]);
    assert s == [s[0], s[1]];
    assert multiset(s) == multiset{s[0], s[1]} && multiset(items) == multiset{first, second};
    assert s[0] != s[1] by { assert multiset(s)[s[0]] == multiset(items)[s[0]] == 1; }
    assert !Precedes(t, terms, s[1], s[0]);
  }
}
