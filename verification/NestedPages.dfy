/** Nested pages as the two paginators cut them, in the window and in memory, and the totals reported. */
module NestedPages {
  import opened Options
  import opened Sequences
  import opened RowOrder
  import opened WindowSlice
  import opened OrderForms
  import opened PageOrder

  // ------------------------------------------------------------------- ordering terms

  /** What a window sorts by: the terms asked for or configured, else those of its queryset. */
  function WindowTerms<C(==)>(t: Table<C>, order: seq<Term<C>>, server: seq<Term<C>>): seq<Term<C>> {
    WithKey(t, if order == [] then server else order)
  }

  /** The columns of the terms an accepted window sorts by are columns of the model. */
  predicate Accepted<C(==)>(t: Table<C>, order: seq<Term<C>>, server: seq<Term<C>>) {
    && t.pkAttname in t.pkAliases && t.pkAttname in t.attnames
    && forall term <- (if order == [] then server else order) :: term.column in t.attnames
  }

  /** The terms a window sorts by: None when it declines them. Client and configured terms have to be
      columns the child type publishes, the server's own only columns of the model. */
  method WindowOrder<C(==)>(t: Table<C>, order: seq<Term<C>>, published: set<C>, server: seq<Term<C>>)
      returns (terms: Option<seq<Term<C>>>)
    requires t.pkAttname in t.pkAliases && t.pkAttname in t.attnames
    ensures terms.None? <==>
      (if order == [] then t.pkAttname !in published || exists term <- server :: term.column !in t.attnames
       else exists term <- order :: term.column !in published || term.column !in t.attnames)
    ensures terms.Some? ==> && terms.value == WindowTerms(t, order, server) && Total(t, terms.value)
                            && Accepted(t, order, server)
  {
    hide WithKey, UsesKey;
    var concrete := t.attnames * published;
    if order == [] && t.pkAttname !in concrete { return None; }
    for i := 0 to |order|
      invariant forall term <- order[..i] :: term.column in concrete
    {
      if order[i].column !in concrete {
        assert order[i] in order;
        return None;
      }
      assert order[..i + 1] == order[..i] + [order[i]];
    }
    assert order[..|order|] == order;
    var chosen := order;
    if order == [] {
      for i := 0 to |server|
        invariant forall term <- server[..i] :: term.column in t.attnames
      {
        if server[i].column !in t.attnames {
          assert server[i] in server;
          return None;
        }
        assert server[..i + 1] == server[..i] + [server[i]];
      }
      assert server[..|server|] == server;
      chosen := server;
    }
    WithKeyUsesKey(t, chosen);
    WithKeyColumns(t, chosen);
    return Some(WithKey(t, chosen));
  }

  lemma WithKeyColumns<C>(t: Table<C>, terms: seq<Term<C>>)
    ensures forall term <- WithKey(t, terms) :: term in terms || term == Term(t.pkAttname, false)
  {
  }

  /** The model's own terms, if usable, else its key. */
  function ModelOrder<C(==)>(t: Table<C>, meta: seq<Term<C>>): (terms: seq<Term<C>>)
    ensures terms != []
  {
    if meta != [] && forall term <- meta :: term.column in t.attnames + t.pkAliases then meta
    else [Term(t.pkAttname, false)]
  }

  /** Terms for rows in memory: the model's when none were resolved. */
  function TieBreak<C(==)>(t: Table<C>, items: seq<Row<C>>, order: seq<Term<C>>, meta: seq<Term<C>>): seq<Term<C>> {
    if order != [] || items == [] then order else ModelOrder(t, meta)
  }

  function SortedInMemory<C(==)>(t: Table<C>, items: seq<Row<C>>, ordering: seq<Term<C>>): seq<Row<C>> {
    if ordering == [] then items else SortBy(t, WithKey(t, ordering), items)
  }

  /** Rows ordered in memory: one in-place stable sort for each term, the last term first. None when a
      client term is not allowed. */
  method InMemoryOrder<C(==)>(t: Table<C>, items: seq<Row<C>>, ordering: seq<Term<C>>,
      allowed: Option<set<C>>) returns (ordered: Option<seq<Row<C>>>)
    ensures ordered.None? <==>
        ordering != [] && allowed.Some? && exists term <- ordering :: term.column !in allowed.value
    ensures ordered.Some? ==> ordered.value == SortedInMemory(t, items, ordering)
  {
    if ordering == [] { return Some(items); }
    if allowed.Some? {
      for i := 0 to |ordering|
        invariant forall term <- ordering[..i] :: term.column in allowed.value
      {
        if ordering[i].column !in allowed.value {
          assert ordering[i] in ordering;
          return None;
        }
        assert ordering[..i + 1] == ordering[..i] + [ordering[i]];
      }
      assert ordering[..|ordering|] == ordering;
    }
    var terms := if items == [] then ordering else WithKey(t, ordering);
    var rows := items;
    var i := |terms|;
    assert terms[|terms|..] == [];
    while i > 0
      invariant 0 <= i <= |terms|
      invariant rows == SortBy(t, terms[i..], items)
    {
      i := i - 1;
      assert terms[i..][1..] == terms[i + 1..];
      rows := StableSort(t, terms[i], rows);
    }
    assert i == 0 && terms[0..] == terms;
    if items == [] {
      SortNothing(t, terms);
      SortNothing(t, WithKey(t, ordering));
    }
    return Some(rows);
  }

  lemma {:induction false} SortNothing<C>(t: Table<C>, terms: seq<Term<C>>)
    ensures SortBy(t, terms, []) == []
  {
    if terms != [] { SortNothing(t, terms[1..]); }
  }

  /** Rows that the terms do not tell apart are listed by ascending key. */
  lemma {:induction false} TiesGoByKey<C>(t: Table<C>, terms: seq<Term<C>>, a: Row<C>, b: Row<C>)
    requires t.pkAttname in t.pkAliases && !UsesKey(t, terms)
    requires forall term <- terms :: ValueOf(t, a, term.column) == ValueOf(t, b, term.column)
    ensures Precedes(t, WithKey(t, terms), a, b) <==> a.pk < b.pk
  {
    TieDecides(t, terms, Term(t.pkAttname, false), a, b);
    assert [Term(t.pkAttname, false)][1..] == [];
  }

  lemma {:induction false} TieDecides<C>(t: Table<C>, terms: seq<Term<C>>, last: Term<C>, a: Row<C>, b: Row<C>)
    requires forall term <- terms :: ValueOf(t, a, term.column) == ValueOf(t, b, term.column)
    ensures Precedes(t, terms + [last], a, b) <==> Before(t, last, a, b)
  {
    hide ValueOf;
    if terms == [] {
      assert ([] + [last])[1..] == [];
    } else {
      assert (terms + [last])[1..] == terms[1..] + [last];
      assert terms[0] in terms;
      TieDecides(t, terms[1..], last, a, b);
    }
  }

  /** Terms that use the key already stay as they are. */
  lemma KeyedTermsStay<C>(t: Table<C>, terms: seq<Term<C>>)
    requires exists term <- terms :: term.column in t.pkAliases
    ensures WithKey(t, terms) == terms
  {
  }

  /** Without requested terms memory sorts by the model's when all of them name columns or the key, else by the
      ascending key. */
  lemma ModelOrderCounts<C(!new)>(t: Table<C>, items: seq<Row<C>>, meta: seq<Term<C>>)
    requires t.pkAttname in t.pkAliases
    ensures var rows := SortedInMemory(t, items, TieBreak(t, items, [], meta));
            if meta != [] && forall term <- meta :: term.column in t.attnames || term.column in t.pkAliases
            then rows == SortBy(t, WithKey(t, meta), items)
            else forall i, j :: 0 <= i < j < |rows| ==> rows[i].pk <= rows[j].pk
  {
    hide SortBy, Precedes;
    MemorySorts(t, items, [], meta);
    var key := [Term(t.pkAttname, false)];
    assert key[0] in key && key[1..] == [];
    KeyedTermsStay(t, key);
    SortBySorted(t, key, items);
    forall a: Row<C>, b: Row<C> ensures Precedes(t, key, a, b) <==> a.pk < b.pk {
      KeyOrder(t, a, b);
    }
  }

  lemma KeyOrder<C>(t: Table<C>, a: Row<C>, b: Row<C>)
    requires t.pkAttname in t.pkAliases
    ensures Precedes(t, [Term(t.pkAttname, false)], a, b) <==> a.pk < b.pk
  {
    assert [Term(t.pkAttname, false)][1..] == [];
  }

  // ---------------------------------------------------------- the two orders of one list

  ghost predicate SameList<C(!new)>(t: Table<C>, order: seq<Term<C>>, server: seq<Term<C>>, meta: seq<Term<C>>,
      items: seq<Row<C>>)
  {
    SortedInMemory(t, items, TieBreak(t, items, order, meta)) == SortBy(t, WindowTerms(t, order, server), items)
  }

  lemma MemorySorts<C>(t: Table<C>, items: seq<Row<C>>, order: seq<Term<C>>, meta: seq<Term<C>>)
    ensures SortedInMemory(t, items, TieBreak(t, items, order, meta))
         == SortBy(t, WithKey(t, if order == [] then ModelOrder(t, meta) else order), items)
  {
    hide SortBy, WithKey, ModelOrder;
    if items == [] {
      SortNothing(t, WithKey(t, order));
      SortNothing(t, WithKey(t, if order == [] then ModelOrder(t, meta) else order));
    }
  }

  lemma WithKeyOrders<C>(t: Table<C>, terms: seq<Term<C>>)
    requires t.pkAttname in t.pkAliases && forall term <- terms :: term.column in t.attnames + t.pkAliases
    ensures Orders(t, WithKey(t, terms))
  {
    hide WithKey, UsesKey;
    WithKeyUsesKey(t, terms);
    WithKeyColumns(t, terms);
  }

  /** The window's terms come from its queryset, where a hook may have put others than the model's; memory
      knows the model's alone. The two sort all rows alike exactly when terms were asked for or configured, or
      both have the same normal form. */
  lemma OrdersAgree<C(!new)>(t: Table<C>, order: seq<Term<C>>, server: seq<Term<C>>, meta: seq<Term<C>>)
    requires Accepted(t, order, server)
    ensures (forall items | Rows(t, items) :: SameList(t, order, server, meta, items))
       <==> order != [] || SameOrder(t, WithKey(t, server), WithKey(t, ModelOrder(t, meta)))
  {
    hide SortBy, WithKey, Rows, SameOrder, Orders, SortedInMemory, TieBreak, ModelOrder;
    var window, memory := WindowTerms(t, order, server), WithKey(t, if order == [] then ModelOrder(t, meta) else order);
    forall items
      ensures SameList(t, order, server, meta, items) <==> SortBy(t, memory, items) == SortBy(t, window, items)
    {
      MemorySorts(t, items, order, meta);
    }
    if order == [] {
      WithKeyOrders(t, server);
      ModelOrders(t, meta);
      SortAlikeWhenSameOrder(t, window, memory);
    }
  }

  lemma ModelOrders<C>(t: Table<C>, meta: seq<Term<C>>)
    requires t.pkAttname in t.pkAliases
    ensures Orders(t, WithKey(t, ModelOrder(t, meta)))
  {
    WithKeyOrders(t, ModelOrder(t, meta));
  }

  /** Without an ordering hook the queryset's terms are the model's, and the two agree. */
  lemma OrdersAgreeWithoutHook<C(!new)>(t: Table<C>, order: seq<Term<C>>, meta: seq<Term<C>>, items: seq<Row<C>>)
    requires Accepted(t, order, meta)
    ensures SameList(t, order, meta, meta, items)
  {
    hide SortBy, SortedInMemory, TieBreak;
    MemorySorts(t, items, order, meta);
    if order == [] && meta == [] {
      assert WithKey(t, []) == [Term(t.pkAttname, false)];
      assert WithKey(t, [Term(t.pkAttname, false)]) == [Term(t.pkAttname, false)];
    }
  }

  /** A hook that reverses the key of a model without ordering: the window lists rows 2 and 1, memory 1 and 2. */
  lemma HookOrderIsLost()
    ensures var t := Table(0, {0}, {0}, {});
            var server := [Term(0, true)];
            var rows := [Row(1, Some(7), map[]), Row(2, Some(7), map[])];
            && Accepted(t, [], server) && Rows(t, rows)
            && SortBy(t, WindowTerms(t, [], server), rows) == [rows[1], rows[0]]
            && SortedInMemory(t, rows, TieBreak(t, rows, [], [])) == rows
  {
    var t := Table(0, {0}, {0}, {});
    var one, two := Row(1, Some(7), map[]), Row(2, Some(7), map[]);
    var rows := [one, two];
    assert UsesKey(t, [Term(0, true)]) && UsesKey(t, [Term(0, false)]) by {
      assert Term(0, true) in [Term(0, true)] && Term(0, false) in [Term(0, false)];
    }
    assert Precedes(t, [Term(0, true)], two, one) && Precedes(t, [Term(0, false)], one, two);
    SortOfTwo(t, [Term(0, true)], two, one, rows);
    SortOfTwo(t, [Term(0, false)], one, two, rows);
    MemorySorts(t, rows, [], []);
  }

  // ------------------------------------------------------------------------ page bounds

  datatype Size = Unbounded | Bounded(n: int) | BadSize

  /** Requested, else default, else maximum; the maximum is a ceiling and is itself not checked. */
  function PageSize(requested: Option<int>, default: Option<int>, maximum: Option<int>): Size {
    match (if requested.Some? then requested else if default.Some? then default else maximum)
    case None => Unbounded
    case Some(n) =>
      if n <= 0 then BadSize
      else if maximum.Some? && maximum.value < n then Bounded(maximum.value)
      else Bounded(n)
  }

  /** The first of the three settings that is there. */
  predicate Wanted(requested: Option<int>, default: Option<int>, maximum: Option<int>, n: int) {
    || requested == Some(n)
    || (requested == None && default == Some(n))
    || (requested == None && default == None && maximum == Some(n))
  }

  ghost predicate NothingWanted(requested: Option<int>, default: Option<int>, maximum: Option<int>) {
    forall n :: !Wanted(requested, default, maximum, n)
  }

  ghost predicate BadlyWanted(requested: Option<int>, default: Option<int>, maximum: Option<int>) {
    exists n :: n <= 0 && Wanted(requested, default, maximum, n)
  }

  predicate IsWithin(x: int, n: int, maximum: Option<int>) { x <= n && (maximum.Some? ==> x <= maximum.value) }

  /** A positive setting is the first that is there, and the size is the greatest integer that is no more than it and
      no more than the maximum, if there is one. */
  ghost predicate SizeIs(requested: Option<int>, default: Option<int>, maximum: Option<int>, k: int) {
    exists n :: n > 0 && Wanted(requested, default, maximum, n) && GreatestWithin(n, maximum, k)
  }

  ghost predicate GreatestWithin(n: int, maximum: Option<int>, k: int) {
    IsWithin(k, n, maximum) && forall x :: IsWithin(x, n, maximum) ==> x <= k
  }

  /** There is no size exactly when nothing is set, a bad one exactly when the first setting that is there is not
      positive; else it is the greatest within that and the maximum. */
  lemma SizeReading(requested: Option<int>, default: Option<int>, maximum: Option<int>)
    ensures PageSize(requested, default, maximum).Unbounded? <==> NothingWanted(requested, default, maximum)
    ensures PageSize(requested, default, maximum).BadSize? <==> BadlyWanted(requested, default, maximum)
    ensures forall k :: PageSize(requested, default, maximum) == Bounded(k) <==> SizeIs(requested, default, maximum, k)
  {
    var first := if requested.Some? then requested else if default.Some? then default else maximum;
    forall n ensures Wanted(requested, default, maximum, n) <==> first == Some(n) { }
    if first.Some? && first.value > 0 {
      var k := if maximum.Some? && maximum.value < first.value then maximum.value else first.value;
      assert GreatestWithin(first.value, maximum, k);
      forall x | GreatestWithin(first.value, maximum, x) ensures x == k { assert IsWithin(x, first.value, maximum); }
    }
  }

  /** The size is no more than the maximum, and no less than zero unless the maximum is. */
  lemma SizeBounds(requested: Option<int>, default: Option<int>, maximum: Option<int>, k: int)
    requires SizeIs(requested, default, maximum, k)
    ensures maximum.Some? ==> k <= maximum.value
    ensures (maximum.Some? ==> maximum.value >= 0) ==> k >= 0
  {
    var n :| n > 0 && Wanted(requested, default, maximum, n) && GreatestWithin(n, maximum, k);
    assert (maximum.Some? ==> maximum.value >= 0) ==> IsWithin(0, n, maximum);
  }

  /** What a window is asked for. */
  datatype Cut = Declined | BadRequest | Cut(offset: int, limit: int)

  /** What paginating rows in memory answers: an error, no list, the whole list, or some of it. */
  datatype Answer<T> = Refused | Nothing | Whole | Page(rows: seq<T>)

  function Abs(n: int): nat { if n < 0 then -n else n }

  function LimitOffsetCut(size: Size, offset: Option<int>): Cut {
    var o := if offset.Some? then offset.value else 0;
    match size
    case BadSize => BadRequest
    case Unbounded => Declined
    case Bounded(n) => if o < 0 then BadRequest else Cut(o, Abs(n))
  }

  function LimitOffsetRows<T>(size: Size, offset: Option<int>, items: seq<T>): Answer<T> {
    var o := if offset.Some? then offset.value else 0;
    match size
    case BadSize => Refused
    case Unbounded => Whole
    case Bounded(n) => if o < 0 then Refused else Page(Slice(items, o, o + Abs(n)))
  }

  function PageCut(size: Size, page: Option<int>): Cut {
    var p := if page.Some? then page.value else 1;
    match size
    case BadSize => BadRequest
    case Unbounded => Declined
    case Bounded(n) => if p <= 0 then Declined else Cut(n * (p - 1), n)
  }

  function PageRows<T>(size: Size, page: Option<int>, items: seq<T>): Answer<T> {
    var p := if page.Some? then page.value else 1;
    match size
    case BadSize => Refused
    case Unbounded => if p == 0 then Refused else Nothing
    case Bounded(n) =>
      if p == 0 then Refused
      else
        var o := if p > 0 then n * (p - 1) else if |items| + n * p > 0 then |items| + n * p else 0;
        Page(Slice(items, o, o + n))
  }

  /** As many of the rows from `start` on as there are, up to a size. */
  ghost predicate CutFrom<T>(answer: seq<T>, items: seq<T>, start: nat, size: nat) {
    && |answer| <= size && (forall i :: 0 <= i < |answer| ==> start + i < |items| && answer[i] == items[start + i])
    && (|answer| < size ==> start + |answer| >= |items|)
  }

  lemma SliceReading<T>(items: seq<T>, start: nat, size: nat)
    ensures CutFrom(Slice(items, start, start + size), items, start, size)
  {
  }

  predicate IsNegative(n: Option<int>) { n.Some? && n.value < 0 }

  function Magnitude(k: int): nat { if k < 0 then -k else k }

  /** What limit and offset answer in memory, from what was asked for and configured: everything exactly when no
      size is; an error exactly for a bad size or a negative offset; else row i is row offset + i, and with a positive
      maximum there are never more rows than it. */
  lemma LimitOffsetAnswers<T>(requested: Option<int>, default: Option<int>, maximum: Option<int>,
      offset: Option<int>, items: seq<T>)
    ensures var answer := LimitOffsetRows(PageSize(requested, default, maximum), offset, items);
            var start := if offset.Some? then offset.value else 0;
            && (answer.Whole? <==> NothingWanted(requested, default, maximum))
            && (answer.Refused? <==> BadlyWanted(requested, default, maximum)
                                     || (!NothingWanted(requested, default, maximum) && IsNegative(offset)))
            && !answer.Nothing?
            && (answer.Page? ==> start >= 0 && exists k :: && SizeIs(requested, default, maximum, k)
                                                           && CutFrom(answer.rows, items, start, Magnitude(k)))
            && (answer.Page? && maximum.Some? && maximum.value > 0 ==> |answer.rows| <= maximum.value)
  {
    hide Slice, SizeIs, NothingWanted, BadlyWanted;
    SizeReading(requested, default, maximum);
    var size, o := PageSize(requested, default, maximum), if offset.Some? then offset.value else 0;
    if size.Bounded? {
      SizeBounds(requested, default, maximum, size.n);
      if o >= 0 { SliceReading(items, o, Abs(size.n)); }
    }
  }

  /** When limit and offset ask for a window: exactly when a size is set, neither it nor the offset is bad, and then
      for the rows memory would cut. */
  lemma LimitOffsetAsks(requested: Option<int>, default: Option<int>, maximum: Option<int>, offset: Option<int>)
    ensures var cut := LimitOffsetCut(PageSize(requested, default, maximum), offset);
            && (cut.Declined? <==> NothingWanted(requested, default, maximum))
            && (cut.BadRequest? <==> BadlyWanted(requested, default, maximum)
                                     || (!NothingWanted(requested, default, maximum) && IsNegative(offset)))
            && (cut.Cut? ==> && cut.offset == (if offset.Some? then offset.value else 0)
                             && exists k :: SizeIs(requested, default, maximum, k) && cut.limit == Magnitude(k))
  {
    hide SizeIs, NothingWanted, BadlyWanted;
    SizeReading(requested, default, maximum);
  }

  /** Where a page begins: counted from the front, or from the end without going before the first row. */
  predicate BeginsAt(page: int, size: int, count: nat, start: int) {
    if page > 0 then start == size * (page - 1)
    else start >= 0 && start >= count + size * page && (start == 0 || start == count + size * page)
  }

  /** The same for page numbers, with a maximum that is not negative: nothing when no size is set, an error exactly
      for a bad size or page zero. */
  lemma PageAnswers<T>(requested: Option<int>, default: Option<int>, maximum: Option<int>, page: Option<int>,
      items: seq<T>)
    requires maximum.Some? ==> maximum.value >= 0
    ensures var answer := PageRows(PageSize(requested, default, maximum), page, items);
            && (answer.Nothing? <==> page != Some(0) && NothingWanted(requested, default, maximum))
            && (answer.Refused? <==> page == Some(0) || BadlyWanted(requested, default, maximum))
            && !answer.Whole?
            && (answer.Page? ==> exists k: nat, start: nat ::
                                   && SizeIs(requested, default, maximum, k)
                                   && BeginsAt(if page.Some? then page.value else 1, k, |items|, start)
                                   && CutFrom(answer.rows, items, start, k))
            && (answer.Page? && maximum.Some? ==> |answer.rows| <= maximum.value)
  {
    hide Slice, SizeIs, NothingWanted, BadlyWanted;
    SizeReading(requested, default, maximum);
    var size, p := PageSize(requested, default, maximum), if page.Some? then page.value else 1;
    if size.Bounded? && p != 0 {
      SizeBounds(requested, default, maximum, size.n);
      if p > 0 { MoreOf(size.n, p - 1); }
      var start: nat := if p > 0 then size.n * (p - 1)
                        else if |items| + size.n * p > 0 then |items| + size.n * p else 0;
      SliceReading(items, start, size.n);
      assert BeginsAt(p, size.n, |items|, start);
    }
  }

  /** And when page numbers ask for a window: exactly for positive pages of a size that is set and not bad. */
  lemma PageAsks(requested: Option<int>, default: Option<int>, maximum: Option<int>, page: Option<int>)
    ensures var cut := PageCut(PageSize(requested, default, maximum), page);
            && (cut.BadRequest? <==> BadlyWanted(requested, default, maximum))
            && (cut.Declined? <==> !BadlyWanted(requested, default, maximum)
                                   && (NothingWanted(requested, default, maximum) || (page.Some? && page.value <= 0)))
            && (cut.Cut? ==> && SizeIs(requested, default, maximum, cut.limit)
                             && cut.offset == cut.limit * ((if page.Some? then page.value else 1) - 1))
  {
    hide SizeIs, NothingWanted, BadlyWanted;
    SizeReading(requested, default, maximum);
  }

  /** The rows of a parent's window page are those of an answer, each numbered within all its children; a list
      that was fetched is the answer's exactly when its numbers ascend. */
  ghost predicate SamePage<C(!new)>(window: set<Numbered<C>>, parent: int, answer: Answer<Row<C>>,
      offset: nat, total: nat)
  {
    && answer.Page?
    && PageOf(window, parent) == NumberedPage(answer.rows, offset, total)
    && forall page | Lists(page, PageOf(window, parent)) :: RowsOf(page) == answer.rows <==> Ascending(page)
  }

  lemma WindowPage<C(!new)>(nullsAreSmall: bool, t: Table<C>, terms: seq<Term<C>>, rows: set<Row<C>>, parent: int,
      children: seq<Row<C>>, offset: nat, limit: nat)
    requires ChildrenOf(t, rows, parent, children) && Total(t, terms)
    ensures SamePage(Window(nullsAreSmall, t, terms, rows, offset, limit), parent,
                     Page(Slice(SortBy(t, terms, children), offset, offset + limit)), offset, |children|)
  {
    hide Total, Window, PageOf, NumberedPage, SortBy, Lists, Ascending, RowsOf;
    var page := Slice(SortBy(t, terms, children), offset, offset + limit);
    WindowIsSortAndSlice(nullsAreSmall, t, terms, rows, parent, children, offset, limit);
    DistinctSort(t, terms, children);
    forall list | Lists(list, NumberedPage(page, offset, |children|))
      ensures RowsOf(list) == page <==> Ascending(list)
    {
      ListIsPage(list, page, offset, |children|);
    }
  }

  /** Limit and offset: whenever a window is asked for, it answers what memory would. */
  lemma LimitOffsetPagesAgree<C(!new)>(nullsAreSmall: bool, t: Table<C>, terms: seq<Term<C>>,
      rows: set<Row<C>>, parent: int, children: seq<Row<C>>, size: Size, offset: Option<int>)
    requires ChildrenOf(t, rows, parent, children) && Total(t, terms)
    requires LimitOffsetCut(size, offset).Cut?
    ensures var Cut(o, l) := LimitOffsetCut(size, offset);
            && o >= 0
            && SamePage(Window(nullsAreSmall, t, terms, rows, o, l), parent,
                        LimitOffsetRows(size, offset, SortBy(t, terms, children)), o, |children|)
  {
    hide ChildrenOf, Total, Window, SamePage, SortBy;
    var Cut(o, l) := LimitOffsetCut(size, offset);
    WindowPage(nullsAreSmall, t, terms, rows, parent, children, o, l);
  }

  /** Page numbers: the same, with a size that is not negative. */
  lemma PagesAgree<C(!new)>(nullsAreSmall: bool, t: Table<C>, terms: seq<Term<C>>, rows: set<Row<C>>,
      parent: int, children: seq<Row<C>>, size: Size, page: Option<int>)
    requires ChildrenOf(t, rows, parent, children) && Total(t, terms)
    requires PageCut(size, page).Cut? && size.n >= 0
    ensures var Cut(o, l) := PageCut(size, page);
            && o >= 0
            && SamePage(Window(nullsAreSmall, t, terms, rows, o, l), parent,
                        PageRows(size, page, SortBy(t, terms, children)), o, |children|)
  {
    hide ChildrenOf, Total, Window, SamePage, SortBy;
    var Cut(o, l) := PageCut(size, page);
    assert o >= 0 by { MoreOf(l, (if page.Some? then page.value else 1) - 1); }
    WindowPage(nullsAreSmall, t, terms, rows, parent, children, o, l);
  }

  lemma MoreOf(n: nat, k: nat)
    ensures n * k >= 0
  {
  }

  /** A size is negative exactly when a page was asked for or configured and the maximum is negative. */
  lemma NegativeSizes(requested: Option<int>, default: Option<int>, maximum: Option<int>)
    ensures (PageSize(requested, default, maximum).Bounded? && PageSize(requested, default, maximum).n < 0)
       <==> (&& maximum.Some? && maximum.value < 0
             && (if requested.Some? then requested.value > 0 else default.Some? && default.value > 0))
  {
  }

  /** With a negative size the window page is empty, and memory answers nothing too, except on the first
      page of a list longer than the size without its sign. */
  lemma NegativePages<C(!new)>(nullsAreSmall: bool, t: Table<C>, terms: seq<Term<C>>, rows: set<Row<C>>,
      parent: int, children: seq<Row<C>>, size: Size, page: Option<int>)
    requires ChildrenOf(t, rows, parent, children) && Total(t, terms)
    requires PageCut(size, page).Cut? && size.n < 0
    ensures var Cut(o, l) := PageCut(size, page);
            && PageOf(Window(nullsAreSmall, t, terms, rows, o, l), parent) == {}
            && (PageRows(size, page, SortBy(t, terms, children)) == Page([]) <==>
                (page.Some? && page.value > 1) || |children| <= -size.n)
  {
    hide Total, SortBy, Window, PageOf, ChildrenOf;
    var Cut(o, l) := PageCut(size, page);
    assert Distinct(children) by { ListedOnce(t, rows, parent, children); }
    DistinctSort(t, terms, children);
    EmptyWindow(nullsAreSmall, t, terms, rows, parent, o, l);
    NegativeSlice(SortBy(t, terms, children), size.n, if page.Some? then page.value else 1);
  }

  lemma ListedOnce<C(!new)>(t: Table<C>, rows: set<Row<C>>, parent: int, children: seq<Row<C>>)
    requires ChildrenOf(t, rows, parent, children)
    ensures Distinct(children)
  {
  }

  lemma EmptyWindow<C>(nullsAreSmall: bool, t: Table<C>, terms: seq<Term<C>>, rows: set<Row<C>>, parent: int,
      offset: int, limit: int)
    requires limit < 0
    ensures PageOf(Window(nullsAreSmall, t, terms, rows, offset, limit), parent) == {}
  {
    hide Number;
  }

  lemma NegativeSlice<T>(items: seq<T>, n: int, p: int)
    requires n < 0 && p >= 1
    ensures Slice(items, n * (p - 1), n * (p - 1) + n) == [] <==> p > 1 || |items| <= -n
  {
    if p > 1 { Less(n, p - 1); }
  }

  lemma Less(n: int, k: nat)
    requires n < 0 && k > 0
    ensures n * k < 0
  {
  }

  // ---------------------------------------------------------------------------- totals

  /** How the rows of a nested list come about: the output type's scope, the filters, and the field's hook, each
      from rows to rows. */
  datatype Steps<!C(==)> = Steps(
    scope: set<Row<C>> -> set<Row<C>>, filters: set<Row<C>> -> set<Row<C>>, hook: set<Row<C>> -> set<Row<C>>)
  {
    function Apply(rows: set<Row<C>>): set<Row<C>> { hook(filters(scope(rows))) }
  }

  /** The count a parent row is annotated with, from the rows the window is over: no group, no number. */
  ghost function CountSubquery<C>(rows: set<Row<C>>, parent: int): Option<nat> {
    var n := |Siblings(rows, Some(parent))|;
    if n == 0 then None else Some(n)
  }

  /** A fresh count starts from the parent's own rows. */
  ghost function FreshCount<C>(steps: Steps<C>, table: set<Row<C>>, parent: int): nat {
    |steps.Apply(Siblings(table, Some(parent)))|
  }

  /** The total reported for a window page: from its first row, else the annotation, else a fresh count. */
  function ReportedCount<C>(page: seq<Numbered<C>>, annotation: Option<Option<nat>>, counted: nat): nat {
    if page != [] then page[0].total
    else match annotation
      case None => counted
      case Some(None) => 0
      case Some(Some(n)) => n
  }

  /** Whether a row is kept depends on the row alone, not on what other rows there are. */
  ghost predicate RowWise<C(!new)>(step: set<Row<C>> -> set<Row<C>>) {
    && (forall rows :: step(rows) <= rows)
    && forall rows, more, r :: r in rows && r in more ==> (r in step(rows) <==> r in step(more))
  }

  lemma StepOfSiblings<C(!new)>(step: set<Row<C>> -> set<Row<C>>, rows: set<Row<C>>, parent: int)
    requires RowWise(step)
    ensures step(Siblings(rows, Some(parent))) == Siblings(step(rows), Some(parent))
  {
    var mine := Siblings(rows, Some(parent));
    forall r ensures r in step(mine) <==> r in Siblings(step(rows), Some(parent)) {
      assert step(mine) <= mine && step(rows) <= rows;
      if r in mine { assert r in rows; }
    }
  }

  /** The window's rows of one parent are the rows a fresh count starts from. */
  lemma StepsOfSiblings<C(!new)>(steps: Steps<C>, table: set<Row<C>>, parent: int)
    requires RowWise(steps.scope) && RowWise(steps.filters) && RowWise(steps.hook)
    ensures steps.Apply(Siblings(table, Some(parent))) == Siblings(steps.Apply(table), Some(parent))
  {
    hide RowWise;
    StepOfSiblings(steps.scope, table, parent);
    StepOfSiblings(steps.filters, steps.scope(table), parent);
    StepOfSiblings(steps.hook, steps.filters(steps.scope(table)), parent);
  }

  /** The page's rows and the annotation always report all the parent's rows that the window is over. */
  lemma WindowTotals<C(!new)>(nullsAreSmall: bool, t: Table<C>, terms: seq<Term<C>>, rows: set<Row<C>>,
      parent: int, offset: int, limit: int, page: seq<Numbered<C>>, counted: nat, annotated: bool)
    requires Elements(page) == PageOf(Window(nullsAreSmall, t, terms, rows, offset, limit), parent)
    ensures var annotation := if annotated then Some(CountSubquery(rows, parent)) else None;
            ReportedCount(page, annotation, counted)
            == if page != [] || annotated then |Siblings(rows, Some(parent))| else counted
  {
    hide SqlPrecedes, SqlTerms;
    if page != [] { assert page[0] in Elements(page); }
  }

  /** Whatever page was asked for, however its rows are listed and wherever the total is taken from, it is that of
      all the parent's rows, when scope, filters and hook look at each row alone. */
  lemma TotalsAreWhole<C(!new)>(nullsAreSmall: bool, t: Table<C>, terms: seq<Term<C>>, table: set<Row<C>>,
      steps: Steps<C>, parent: int, offset: int, limit: int, page: seq<Numbered<C>>, annotated: bool)
    requires RowWise(steps.scope) && RowWise(steps.filters) && RowWise(steps.hook)
    requires Elements(page) == PageOf(Window(nullsAreSmall, t, terms, steps.Apply(table), offset, limit), parent)
    ensures var annotation := if annotated then Some(CountSubquery(steps.Apply(table), parent)) else None;
            ReportedCount(page, annotation, FreshCount(steps, table, parent))
            == |Siblings(steps.Apply(table), Some(parent))|
  {
    hide RowWise, Window, PageOf, ReportedCount, CountSubquery;
    WindowTotals(nullsAreSmall, t, terms, steps.Apply(table), parent, offset, limit, page,
                 FreshCount(steps, table, parent), annotated);
    StepsOfSiblings(steps, table, parent);
  }

  /** How many of a parent's rows are kept does not depend on other parents' rows. */
  ghost predicate IgnoresOthers<C(!new)>(steps: Steps<C>) {
    forall a, b, parent :: Siblings(a, Some(parent)) == Siblings(b, Some(parent)) ==>
      |Siblings(steps.Apply(a), Some(parent))| == |Siblings(steps.Apply(b), Some(parent))|
  }

  /** For steps that only leave rows out, the fresh count is the window's for all tables and parents exactly when
      other parents' rows do not matter. */
  lemma FreshCountsAgree<C(!new)>(steps: Steps<C>)
    requires forall rows :: steps.Apply(rows) <= rows
    ensures (forall table, parent :: FreshCount(steps, table, parent) == |Siblings(steps.Apply(table), Some(parent))|)
       <==> IgnoresOthers(steps)
  {
    hide Steps.Apply;
    forall table, parent
      ensures Siblings(Siblings(table, Some(parent)), Some(parent)) == Siblings(table, Some(parent))
      ensures Siblings(steps.Apply(Siblings(table, Some(parent))), Some(parent))
           == steps.Apply(Siblings(table, Some(parent)))
    {
      assert steps.Apply(Siblings(table, Some(parent))) <= Siblings(table, Some(parent));
    }
    if forall table, parent :: FreshCount(steps, table, parent) == |Siblings(steps.Apply(table), Some(parent))| {
      forall a, b, parent | Siblings(a, Some(parent)) == Siblings(b, Some(parent))
        ensures |Siblings(steps.Apply(a), Some(parent))| == |Siblings(steps.Apply(b), Some(parent))|
      {
        assert FreshCount(steps, a, parent) == FreshCount(steps, b, parent);
      }
    } else {
      var table, parent :| FreshCount(steps, table, parent) != |Siblings(steps.Apply(table), Some(parent))|;
      assert Siblings(table, Some(parent)) == Siblings(Siblings(table, Some(parent)), Some(parent));
    }
  }

  /** A hook that keeps the row with the greatest key of all: the window has no row of the other parent, and a fresh
      count has one. */
  lemma GreatestOnlyMiscounts()
    ensures var keepGreatest := (rows: set<Row<int>>) => set r <- rows | forall o <- rows :: o.pk <= r.pk;
            var steps := Steps(rows => rows, rows => rows, keepGreatest);
            var table := {Row(1, Some(7), map[]), Row(2, Some(8), map[])};
            Siblings(steps.Apply(table), Some(7)) == {} && FreshCount(steps, table, 7) == 1
  {
    var one: Row<int>, two: Row<int> := Row(1, Some(7), map[]), Row(2, Some(8), map[]);
    assert Siblings({one, two}, Some(7)) == {one};
    var keepGreatest := (rows: set<Row<int>>) => set r <- rows | forall o <- rows :: o.pk <= r.pk;
    assert keepGreatest({one}) == {one} && keepGreatest({one, two}) == {two};
  }
}
