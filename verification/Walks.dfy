/** What the cost walker and the depth walker share: a stack of open levels, the names of the spreads
    open on the current path, and why taking, opening and leaving levels comes to an end. */
module Walks {
  import opened Options
  import opened Document
  import opened Sequences

  /** What a finished spread is remembered under: fragment, type, and what else its result depends on. */
  type Key<X> = (Name, TypeName, X)

  /** An open level: its selections and how many of them were taken, the type they are resolved against,
      what the walk carries at this level, and for a spread its key and the cut count on entry. */
  datatype Frame<D, X> = Frame(
    selections: seq<Selection>,
    next: nat,
    levelType: TypeName,
    data: D,
    key: Option<Key<X>>,
    cutsBefore: nat)
  {
    function Names(): set<Name> {
      match key { case Some(k) => {k.0} case None => {} }
    }

    ghost function Keys(): set<Key<X>> {
      match key { case Some(k) => {k} case None => {} }
    }

    predicate HasNext() { next < |selections| }

    function Taken(data': D): Frame<D, X> { this.(next := next + 1, data := data') }
  }

  type Stack<D, X> = seq<Frame<D, X>>

  // A stack is given as the levels that wait (`below`) and the level on top.

  function OpenNames<D, X>(stack: Stack<D, X>): set<Name> {
    if stack == [] then {} else OpenNames(Init(stack)) + Last(stack).Names()
  }

  /** The names on the current path. */
  function ActiveNames<D, X>(below: Stack<D, X>, top: Frame<D, X>): set<Name> {
    OpenNames(below) + top.Names()
  }

  ghost function OpenKeys<D, X>(stack: Stack<D, X>): set<Key<X>> {
    if stack == [] then {} else OpenKeys(Init(stack)) + Last(stack).Keys()
  }

  lemma {:induction false} OpenKeysAreNamed<D, X>(stack: Stack<D, X>)
    ensures forall k <- OpenKeys(stack) :: k.0 in OpenNames(stack)
  {
    if stack != [] {
      OpenKeysAreNamed(Init(stack));
    }
  }

  /** The cut count when the innermost open spread was entered. */
  function Mark<D, X>(below: Stack<D, X>, top: Frame<D, X>, base: nat): nat {
    if top.key.Some? then top.cutsBefore
    else if below == [] then base
    else Mark(Init(below), Last(below), base)
  }

  function Bottom<D, X>(below: Stack<D, X>, top: Frame<D, X>): Frame<D, X> {
    if below == [] then top else below[0]
  }

  /** The part of opening a level that does not depend on what the walk computes. */
  predicate Opens<D, X>(fragments: Fragments, s: Selection, child: Frame<D, X>) {
    match s
    case Leaf(_) => false
    case Object(_, children) => child.selections == children && child.key == None
    case Inline(_, _, children) => child.selections == children && child.key == None
    case Spread(name, _) =>
      name in fragments && child.selections == fragments[name].selections && child.key.Some?
          && child.key.value.0 == name
  }

  // ------------------------------------------------------------------ termination

  /** Steps left in some selections when only spreads of `closed` fragments can still be opened. */
  function Work(fragments: Fragments, closed: set<Name>, ss: seq<Selection>): nat
    decreases closed, ss
  {
    if ss == [] then 0 else WorkOf(fragments, closed, ss[0]) + Work(fragments, closed, ss[1..])
  }

  function WorkOf(fragments: Fragments, closed: set<Name>, s: Selection): (n: nat)
    ensures n > 0
    decreases closed, s
  {
    match s
    case Leaf(_) => 1
    case Object(_, children) => 2 + Work(fragments, closed, children)
    case Inline(_, _, children) => 2 + Work(fragments, closed, children)
    case Spread(name, _) =>
      if name in closed && name in fragments then 2 + Work(fragments, closed - {name}, fragments[name].selections)
      else 1
  }

  function LevelWork<D, X>(fragments: Fragments, below: Stack<D, X>, top: Frame<D, X>): nat {
    if top.next <= |top.selections|
    then Work(fragments, fragments.Keys - ActiveNames(below, top), top.selections[top.next..]) else 0
  }

  function StackWork<D, X>(fragments: Fragments, below: Stack<D, X>, top: Frame<D, X>): nat {
    (if below == [] then 0 else StackWork(fragments, Init(below), Last(below))) + 1 + LevelWork(fragments, below, top)
  }

  lemma TakingIsProgress<D, X>(fragments: Fragments, below: Stack<D, X>, top: Frame<D, X>, data: D)
    requires top.HasNext()
    ensures var closed := fragments.Keys - ActiveNames(below, top);
            StackWork(fragments, below, top.Taken(data))
              == StackWork(fragments, below, top) - WorkOf(fragments, closed, top.selections[top.next])
  {
    assert top.selections[top.next..][1..] == top.selections[top.next + 1..];
  }

  lemma OpenedWork<D, X>(fragments: Fragments, s: Selection, child: Frame<D, X>, names: set<Name>)
    requires Opens(fragments, s, child) && child.Names() !! names
    ensures WorkOf(fragments, fragments.Keys - names, s)
         == 2 + Work(fragments, fragments.Keys - (names + child.Names()), child.selections)
  {
    assert fragments.Keys - (names + child.Names()) == fragments.Keys - names - child.Names();
    if !s.Spread? {
      assert fragments.Keys - names - child.Names() == fragments.Keys - names;
    }
  }

  lemma OpeningIsProgress<D, X>(fragments: Fragments, below: Stack<D, X>, top: Frame<D, X>, child: Frame<D, X>)
    requires top.HasNext()
    requires Opens(fragments, top.selections[top.next], child) && child.next == 0
    requires child.Names() !! ActiveNames(below, top)
    ensures StackWork(fragments, below + [top.Taken(top.data)], child) < StackWork(fragments, below, top)
  {
    var f, names := top.Taken(top.data), ActiveNames(below, top);
    InitLast(below, f);
    TakingIsProgress(fragments, below, top, top.data);
    OpenedWork(fragments, top.selections[top.next], child, names);
    assert child.selections[0..] == child.selections;
    assert OpenNames(below + [f]) == names;
    assert LevelWork(fragments, below + [f], child)
        == Work(fragments, fragments.Keys - (names + child.Names()), child.selections);
  }

  lemma LeavingIsProgress<D, X>(fragments: Fragments, below: Stack<D, X>, top: Frame<D, X>, data: D)
    requires below != []
    ensures StackWork(fragments, Init(below), Last(below).(data := data)) < StackWork(fragments, below, top)
  {
  }

  lemma OpenedNames<D, X>(below: Stack<D, X>, top: Frame<D, X>, child: Frame<D, X>)
    ensures ActiveNames(below + [top.Taken(top.data)], child) == ActiveNames(below, top) + child.Names()
    ensures OpenNames(below + [top.Taken(top.data)]) == ActiveNames(below, top)
    ensures OpenKeys(below + [top.Taken(top.data)]) == OpenKeys(below) + top.Keys()
  {
    InitLast(below, top.Taken(top.data));
  }

  // ------------------------------------------------------- documents without cycles

  /** The known spreads of some selections rank below some open fragments. */
  ghost predicate Descends(fragments: Fragments, rank: map<Name, nat>, ss: seq<Selection>, names: set<Name>) {
    forall g <- fragments, a <- names :: g in SpreadsIn(ss) ==> g in rank && a in rank && rank[g] < rank[a]
  }

  ghost predicate Descending<D, X>(fragments: Fragments, rank: map<Name, nat>, below: Stack<D, X>, top: Frame<D, X>) {
    && Descends(fragments, rank, top.selections, ActiveNames(below, top))
    && (below == [] || Descending(fragments, rank, Init(below), Last(below)))
  }

  lemma ChildDescends<D, X>(fragments: Fragments, rank: map<Name, nat>, ss: seq<Selection>, i: nat,
      child: Frame<D, X>, names: set<Name>)
    requires IsRank(fragments, rank) && i < |ss|
    requires Descends(fragments, rank, ss, names) && Opens(fragments, ss[i], child)
    ensures Descends(fragments, rank, child.selections, names + child.Names())
  {
    SpreadsInMember(ss, i);
  }

  lemma OpeningDescends<D, X>(fragments: Fragments, rank: map<Name, nat>, below: Stack<D, X>,
      top: Frame<D, X>, child: Frame<D, X>)
    requires IsRank(fragments, rank) && top.HasNext()
    requires Descending(fragments, rank, below, top)
    requires Opens(fragments, top.selections[top.next], child)
    ensures Descending(fragments, rank, below + [top.Taken(top.data)], child)
  {
    var f := top.Taken(top.data);
    InitLast(below, f);
    ChildDescends(fragments, rank, top.selections, top.next, child, ActiveNames(below, top));
    hide Opens, IsRank, Descends;
    assert OpenNames(below + [f]) == ActiveNames(below, top);
    assert Descending(fragments, rank, below, f);
  }

  lemma DescendingIgnoresData<D, X>(fragments: Fragments, rank: map<Name, nat>, below: Stack<D, X>,
      top: Frame<D, X>, next: nat, data: D)
    requires Descending(fragments, rank, below, top)
    ensures Descending(fragments, rank, below, top.(next := next, data := data))
    ensures below != [] ==> Descending(fragments, rank, Init(below), Last(below))
  {
    assert top.(next := next, data := data).Names() == top.Names();
  }

  /** The path guard never fires on such a document. */
  lemma GuardIsIdle<D, X>(fragments: Fragments, rank: map<Name, nat>, below: Stack<D, X>, top: Frame<D, X>)
    requires Descending(fragments, rank, below, top) && top.HasNext()
    requires top.selections[top.next].Spread? && top.selections[top.next].fragment in fragments
    ensures top.selections[top.next].fragment !in ActiveNames(below, top)
  {
    SpreadsInMember(top.selections, top.next);
  }

  // ------------------------------------------------------------- expanding only once

  /** A known fragment met through a type condition the schema knows is resolved against that type. */
  ghost predicate KeyFits<X>(schema: Schema, fragments: Fragments, k: Key<X>) {
    && k.0 in fragments
    && (fragments[k.0].condition in schema.types ==> k.1 == fragments[k.0].condition)
  }

  /** Each key was expanded at most once, and all of them are settled. */
  ghost predicate ExpandedOnce<X>(schema: Schema, fragments: Fragments, expansions: seq<Key<X>>, settled: set<Key<X>>) {
    && Distinct(expansions)
    && forall i :: 0 <= i < |expansions| ==> expansions[i] in settled && KeyFits(schema, fragments, expansions[i])
  }

  /** A new expansion of a key that is neither remembered nor open keeps the record. */
  lemma ExpandOnceMore<D, X>(schema: Schema, fragments: Fragments, expansions: seq<Key<X>>, remembered: set<Key<X>>,
                             below: Stack<D, X>, top: Frame<D, X>, key: Key<X>)
    requires ExpandedOnce(schema, fragments, expansions, remembered + OpenKeys(below) + top.Keys())
    requires key !in remembered && key.0 !in ActiveNames(below, top) && KeyFits(schema, fragments, key)
    ensures ExpandedOnce(schema, fragments, expansions + [key], remembered + (OpenKeys(below) + top.Keys()) + {key})
  {
    OpenKeysAreNamed(below);
    assert key !in remembered + OpenKeys(below) + top.Keys();
  }

  /** Opening a level expands its key, if it has one, for the first time. */
  lemma OpeningExpands<D, X>(schema: Schema, fragments: Fragments, expansions: seq<Key<X>>, remembered: set<Key<X>>,
                             below: Stack<D, X>, top: Frame<D, X>, child: Frame<D, X>)
    requires ExpandedOnce(schema, fragments, expansions, remembered + OpenKeys(below) + top.Keys())
    requires child.key.Some? ==>
               child.key.value !in remembered && child.key.value.0 !in ActiveNames(below, top)
                   && KeyFits(schema, fragments, child.key.value)
    ensures ExpandedOnce(schema, fragments, expansions + (if child.key.Some? then [child.key.value] else []),
                         remembered + OpenKeys(below + [top.Taken(top.data)]) + child.Keys())
  {
    OpenedNames(below, top, child);
    if child.key.Some? {
      ExpandOnceMore(schema, fragments, expansions, remembered, below, top, child.key.value);
    } else {
      assert expansions + [] == expansions;
      assert remembered + (OpenKeys(below) + top.Keys()) + child.Keys() == remembered + OpenKeys(below) + top.Keys();
    }
  }

  /** Nothing was settled without an expansion, but for what was known at the start. */
  ghost predicate AllExpanded<D, X>(remembered: set<Key<X>>, below: Stack<D, X>, top: Frame<D, X>,
      expansions: seq<Key<X>>, known: set<Key<X>>)
  {
    remembered + OpenKeys(below) + top.Keys() <= Elements(expansions) + known
  }

  lemma OpeningIsExpanded<D, X>(remembered: set<Key<X>>, below: Stack<D, X>, top: Frame<D, X>, child: Frame<D, X>,
      expansions: seq<Key<X>>, known: set<Key<X>>)
    requires AllExpanded(remembered, below, top, expansions, known)
    ensures AllExpanded(remembered, below + [top.Taken(top.data)], child,
                        expansions + (if child.key.Some? then [child.key.value] else []), known)
  {
    OpenedNames(below, top, child);
    if child.key.Some? { ElementsSnoc(expansions, child.key.value); } else { assert expansions + [] == expansions; }
  }

  lemma LeavingIsExpanded<D, X>(remembered: set<Key<X>>, more: set<Key<X>>, below: Stack<D, X>, top: Frame<D, X>,
      next: Frame<D, X>, expansions: seq<Key<X>>, known: set<Key<X>>)
    requires below != [] && AllExpanded(remembered, below, top, expansions, known)
    requires more <= remembered + top.Keys() && next.key == Last(below).key
    ensures AllExpanded(more, Init(below), next, expansions, known)
  {
    assert OpenKeys(below) == OpenKeys(Init(below)) + Last(below).Keys();
  }

  // ------------------------------------------------------- what is remembered is closed

  /** Cut counts rise along the stack, from the count at the start to the count now. */
  ghost predicate Marked<D, X>(below: Stack<D, X>, top: Frame<D, X>, cuts: nat, base: nat) {
    base <= Mark(below, top, base) <= cuts &&
    (below == [] || (Mark(Init(below), Last(below), base) <= Mark(below, top, base)
                     && Marked(Init(below), Last(below), cuts, base)))
  }

  /** The keys walked by the first selections of a level. */
  type Walked<!D, !X(==)> = (Frame<D, X>, nat) -> set<Key<X>>

  /** As long as nothing was cut since its innermost open spread was entered, a waiting level has walked
      remembered spreads only, but for the one that opened the level above it. */
  ghost predicate BelowClosed<D, X>(walked: Walked<D, X>, below: Stack<D, X>, cuts: nat, base: nat, memo: set<Key<X>>) {
    below == [] ||
    var f, rest := Last(below), Init(below);
    && f.next > 0 && (cuts == Mark(rest, f, base) ==> walked(f, f.next - 1) <= memo)
    && BelowClosed(walked, rest, cuts, base, memo)
  }

  ghost predicate WalkClosed<D, X>(walked: Walked<D, X>, below: Stack<D, X>,
      top: Frame<D, X>, cuts: nat, base: nat, memo: set<Key<X>>)
  {
    && (cuts == Mark(below, top, base) ==> walked(top, top.next) <= memo)
    && BelowClosed(walked, below, cuts, base, memo)
  }

  /** After a cut no open level claims anything. */
  lemma {:induction false} CutKeepsClosed<D, X>(walked: Walked<D, X>, below: Stack<D, X>,
      top: Frame<D, X>, cuts: nat, base: nat, memo: set<Key<X>>)
    requires Marked(below, top, cuts, base) && BelowClosed(walked, below, cuts, base, memo)
    ensures Mark(below, top, base) <= cuts && BelowClosed(walked, below, cuts + 1, base, memo)
  {
    if below != [] { CutKeepsClosed(walked, Init(below), Last(below), cuts, base, memo); }
  }

  lemma {:induction false} MoreKeepsClosed<D, X>(walked: Walked<D, X>, below: Stack<D, X>,
      cuts: nat, base: nat, memo: set<Key<X>>, more: set<Key<X>>)
    requires BelowClosed(walked, below, cuts, base, memo) && memo <= more
    ensures BelowClosed(walked, below, cuts, base, more)
  {
    if below != [] { MoreKeepsClosed(walked, Init(below), cuts, base, memo, more); }
  }

  lemma OpeningKeepsClosed<D, X>(walked: Walked<D, X>, below: Stack<D, X>, top: Frame<D, X>, child: Frame<D, X>,
      cuts: nat, base: nat, memo: set<Key<X>>)
    requires WalkClosed(walked, below, top, cuts, base, memo)
    requires walked(top.Taken(top.data), top.next) == walked(top, top.next) && walked(child, child.next) == {}
    ensures WalkClosed(walked, below + [top.Taken(top.data)], child, cuts, base, memo)
  {
    InitLast(below, top.Taken(top.data));
  }

  /** Leaving a level: what it walked is remembered, and so is what the level below has walked by then. */
  lemma LeavingKeepsClosed<D, X>(walked: Walked<D, X>, below: Stack<D, X>,
      top: Frame<D, X>, next: Frame<D, X>, cuts: nat, base: nat,
      memo: set<Key<X>>, more: set<Key<X>>)
    requires below != [] && WalkClosed(walked, below, top, cuts, base, memo) && memo <= more
    requires next == Last(below).(data := next.data)
    requires cuts == Mark(Init(below), Last(below), base) ==> walked(next, next.next) <= more
    ensures WalkClosed(walked, Init(below), next, cuts, base, more)
  {
    MoreKeepsClosed(walked, Init(below), cuts, base, memo, more);
  }
}
