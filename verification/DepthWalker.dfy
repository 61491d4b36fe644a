/** The walker that enforces nesting budgets: an explicit stack of open levels, a memo of spreads
    already proven clean, and a guard against spreads that are already open. It is proved against the
    plain recursion of module Depth. */
module DepthWalker {
  import opened Options
  import opened Document
  import opened Sequences
  import opened Depth
  import opened Walks

  /** How deep a level is nested, and under which budgets. */
  datatype Reach = Reach(depth: nat, constraints: seq<Constraint>)
  {
    function Tightest(): Option<int> { Budget(constraints, depth) }
  }

  type SpreadKey = Key<Option<int>>
  type Level = Frame<Reach, Option<int>>
  type Levels = Stack<Reach, Option<int>>

  function Visited(text: Text, s: Selection, level: Level): Visit {
    VisitOf(text, s, level.levelType, level.data.depth, level.data.constraints)
  }

  function KeyOf(v: Visit, reach: Reach): SpreadKey
    requires v.Follows?
  {
    (v.fragment, v.ty, reach.Tightest())
  }

  function EmptyLevel(selections: seq<Selection>, ty: TypeName, reach: Reach, key: Option<SpreadKey>,
      cuts: nat): Level
  {
    Frame(selections, 0, ty, reach, key, cuts)
  }

  /** The level a visit opens; a spread adds no nesting and no budget. */
  function Entered(text: Text, v: Visit, reach: Reach, cuts: nat): Level
    requires v.Nested? || (v.Follows? && v.fragment in text.fragments)
  {
    match v
    case Nested(children, target, depth, constraints) =>
        EmptyLevel(children, target, Reach(depth, constraints), None, 0)
    case Follows(name, target) => EmptyLevel(Body(text, name), target, reach, Some(KeyOf(v, reach)), cuts)
  }

  ghost predicate LevelYields(text: Text, f: Level, count: nat, v: Verdict) {
    count <= |f.selections| && SetYields(text, f.selections[..count], f.levelType, f.data.depth, f.data.constraints, v)
  }

  // ------------------------------------------------------------- levels are clean

  /** Selection `s` of a level opened the level `child`, which has made some progress since. */
  ghost predicate OpenedBy(text: Text, s: Selection, parent: Level, child: Level) {
    var v := Visited(text, s, parent);
    (v.Nested? || v.Follows?)
    && child == Entered(text, v, parent.data, child.cutsBefore).(next := child.next, cutsBefore := child.cutsBefore)
  }

  /** The first `count` selections are clean, as long as nothing was cut since the innermost open
      spread was entered. */
  ghost predicate Exact(text: Text, f: Level, count: nat, uncut: bool) {
    count <= |f.selections| && (uncut ==> LevelYields(text, f, count, Clean))
  }

  /** Every level of `below` waits for the level above it. */
  ghost predicate Waiting(text: Text, below: Levels, top: Level, cuts: nat, base: nat) {
    if below == [] then top.key == None && base <= cuts
    else
      var f, rest := Last(below), Init(below);
      && 0 < f.next <= |f.selections|
      && Exact(text, f, f.next - 1, cuts == Mark(rest, f, base))
      && OpenedBy(text, f.selections[f.next - 1], f, top)
      && base <= Mark(rest, f, base) <= Mark(below, top, base) <= cuts
      && top.Names() !! OpenNames(below)
      && Waiting(text, rest, f, cuts, base)
  }

  ghost predicate Sound(text: Text, below: Levels, top: Level, cuts: nat, base: nat) {
    && Exact(text, top, top.next, cuts == Mark(below, top, base))
    && Waiting(text, below, top, cuts, base)
  }

  /** Every remembered spread is clean by plain recursion under every list of budgets as tight as its key says. */
  ghost predicate MemoIsExact(text: Text, memo: set<SpreadKey>) {
    forall k <- memo :: k.0 in text.fragments && SetYields(text, Body(text, k.0), k.1, 0, Canonical(k.2), Clean)
  }

  function WalkedUpTo(text: Text): Walked<Reach, Option<int>> {
    (f: Level, n: nat) =>
      if n > |f.selections| then {}
      else WalkedIn(text, f.selections[..n], f.levelType, f.data.depth, f.data.constraints)
  }

  /** Every spread that a remembered spread's body walks, under the budgets met there, is remembered. */
  ghost predicate MemoIsClosed(text: Text, memo: set<SpreadKey>) {
    forall k <- memo :: k.0 in text.fragments && WalkedIn(text, Body(text, k.0), k.1, 0, Canonical(k.2)) <= memo
  }

  /** A remembered spread rests on remembered spreads known to be clean at a smaller depth, so on no cycle. */
  lemma MemoIsWellFounded(text: Text, memo: set<SpreadKey>, k: SpreadKey) returns (n: nat)
    requires MemoIsExact(text, memo) && MemoIsClosed(text, memo) && k in memo
    ensures CleanFrom(text, k, n)
    ensures forall walked <- WalkedIn(text, Body(text, k.0), k.1, 0, Canonical(k.2)) ::
              walked in memo && exists m: nat :: m < n && CleanFrom(text, walked, m)
  {
    var d: nat :| SetVerdict(text, d, Body(text, k.0), k.1, 0, Canonical(k.2)) == Clean;
    n := CleanFromSome(text, k, d);
    forall walked <- WalkedIn(text, Body(text, k.0), k.1, 0, Canonical(k.2))
      ensures walked in memo && exists m: nat :: m < n && CleanFrom(text, walked, m)
    {
      var m := CleanSpreadsAreWellFounded(text, k, n, walked);
    }
  }

  /** A cut makes every open level inexact until its innermost spread is left. */
  lemma {:induction false} CutKeepsWaiting(text: Text, below: Levels, top: Level, cuts: nat, base: nat)
    requires Waiting(text, below, top, cuts, base)
    ensures Waiting(text, below, top, cuts + 1, base)
  {
    if below != [] {
      CutKeepsWaiting(text, Init(below), Last(below), cuts, base);
    }
  }

  /** The levels below do not look at the progress of the level above them. */
  lemma WaitingIgnoresProgress(text: Text, below: Levels, top: Level, next: nat, cuts: nat, base: nat)
    requires Waiting(text, below, top, cuts, base)
    ensures Waiting(text, below, top.(next := next), cuts, base)
    ensures Mark(below, top.(next := next), base) == Mark(below, top, base)
  {
  }

  lemma LevelContinues(text: Text, f: Level, v: Verdict)
    requires f.HasNext() && LevelYields(text, f, f.next, Clean)
    requires SelectionYields(text, f.selections[f.next], f.levelType, f.data.depth, f.data.constraints, v)
    ensures LevelYields(text, f, f.next + 1, v)
  {
    SetYieldsSnoc(text, f.selections[..f.next], f.selections[f.next], f.levelType, f.data.depth, f.data.constraints, v);
    assert f.selections[..f.next] + [f.selections[f.next]] == f.selections[..f.next + 1];
  }

  /** Taking a selection that opens no level and is clean. */
  lemma TakeKnown(text: Text, below: Levels, top: Level, cuts: nat, base: nat)
    requires Sound(text, below, top, cuts, base) && top.HasNext()
    requires SelectionYields(text, top.selections[top.next], top.levelType, top.data.depth, top.data.constraints, Clean)
    ensures Sound(text, below, top.Taken(top.data), cuts, base)
  {
    hide Waiting, VisitOf, Mark, SelectionYields, SetYields;
    WaitingIgnoresProgress(text, below, top, top.next + 1, cuts, base);
    if cuts == Mark(below, top, base) { LevelContinues(text, top, Clean); }
  }

  /** Taking a spread that is already open: the walk is no longer exact. */
  lemma TakeCut(text: Text, below: Levels, top: Level, cuts: nat, base: nat)
    requires Sound(text, below, top, cuts, base) && top.HasNext()
    ensures Sound(text, below, top.Taken(top.data), cuts + 1, base)
  {
    CutKeepsWaiting(text, below, top, cuts, base);
    WaitingIgnoresProgress(text, below, top, top.next + 1, cuts + 1, base);
  }

  lemma EnteredLevel(text: Text, s: Selection, parent: Level, cuts: nat)
    requires Visited(text, s, parent).Nested? || Visited(text, s, parent).Follows?
    ensures var v := Visited(text, s, parent);
            var child := Entered(text, v, parent.data, cuts);
            && OpenedBy(text, s, parent, child)
            && Opens(text.fragments, s, child)
            && child.next == 0
            && (v.Nested? ==> child.key == None && child.Names() == {})
            && (v.Follows? ==> child.key == Some(KeyOf(v, parent.data)) && child.Names() == {v.fragment})
            && (v.Follows? ==> child.cutsBefore == cuts && KeyFits(text.schema, text.fragments, KeyOf(v, parent.data)))
  {
  }

  /** Taking a selection that opens a level. */
  lemma TakeOpening(text: Text, below: Levels, top: Level, cuts: nat, base: nat, child: Level)
    requires Sound(text, below, top, cuts, base) && top.HasNext()
    requires OpenedBy(text, top.selections[top.next], top, child)
    requires child.next == 0 && (child.key.Some? ==> child.cutsBefore == cuts)
    requires child.Names() !! ActiveNames(below, top)
    ensures Sound(text, below + [top.Taken(top.data)], child, cuts, base)
  {
    OpenedByIgnoresProgress(text, top.selections[top.next], top, child);
    hide VisitOf, OpenedBy;
    InitLast(below, top.Taken(top.data));
    OpenedNames(below, top, child);
    WaitingIgnoresProgress(text, below, top, top.next + 1, cuts, base);
    assert SetVerdict(text, 0, child.selections[..0], child.levelType, child.data.depth, child.data.constraints)
        == Clean;
  }

  lemma OpenedByIgnoresProgress(text: Text, s: Selection, parent: Level, child: Level)
    requires OpenedBy(text, s, parent, child)
    ensures OpenedBy(text, s, parent.Taken(parent.data), child)
  {
  }

  /** The verdict of a level is the verdict of the selection that opened it. */
  lemma ChildYields(text: Text, s: Selection, parent: Level, child: Level, v: Verdict)
    requires OpenedBy(text, s, parent, child)
    requires LevelYields(text, child, |child.selections|, v)
    ensures SelectionYields(text, s, parent.levelType, parent.data.depth, parent.data.constraints, v)
  {
    assert child.selections[..|child.selections|] == child.selections;
    var n: nat :| SetVerdict(text, n, child.selections, child.levelType, child.data.depth, child.data.constraints) == v;
    if Visited(text, s, parent).Follows? {
      assert SelectionVerdict(text, n + 1, s, parent.levelType, parent.data.depth, parent.data.constraints) == v;
    } else {
      assert SelectionVerdict(text, n, s, parent.levelType, parent.data.depth, parent.data.constraints) == v;
    }
  }

  /** Leaving a finished level: the selection that opened it is clean. */
  lemma Leave(text: Text, below: Levels, top: Level, cuts: nat, base: nat)
    requires Sound(text, below, top, cuts, base) && !top.HasNext() && below != []
    ensures top.Names() !! OpenNames(below)
    ensures cuts == Mark(below, top, base) ==> LevelYields(text, top, |top.selections|, Clean)
    ensures Sound(text, Init(below), Last(below), cuts, base)
  {
    hide VisitOf, OpenedBy, OpenNames, SelectionYields, SetYields;
    var f, rest := Last(below), Init(below);
    if cuts == Mark(rest, f, base) {
      var before := f.(next := f.next - 1);
      ChildYields(text, f.selections[f.next - 1], f, top, Clean);
      assert LevelYields(text, before, before.next, Clean);
      LevelContinues(text, before, Clean);
    }
  }

  // -------------------------------------------------------- a violation surfaces

  lemma ViolationEndsLevel(text: Text, f: Level, count: nat, v: Verdict)
    requires v.Violation? && LevelYields(text, f, count, v)
    ensures LevelYields(text, f, |f.selections|, v)
  {
    var n: nat :| SetVerdict(text, n, f.selections[..count], f.levelType, f.data.depth, f.data.constraints) == v;
    ViolationIsFinal(text, n, f.selections, count, f.levelType, f.data.depth, f.data.constraints);
    assert f.selections[..|f.selections|] == f.selections;
    assert SetVerdict(text, n, f.selections, f.levelType, f.data.depth, f.data.constraints) == v;
  }

  /** On an uncut walk, a violation of the level on top is the verdict of the level at the bottom. */
  lemma {:induction false} Surface(text: Text, below: Levels, top: Level, base: nat, v: Verdict)
    requires Waiting(text, below, top, base, base)
    requires v.Violation? && LevelYields(text, top, |top.selections|, v)
    ensures LevelYields(text, Bottom(below, top), |Bottom(below, top).selections|, v)
  {
    hide VisitOf, OpenedBy, OpenNames, SelectionYields, SetYields;
    if below != [] {
      var f := Last(below);
      var before := f.(next := f.next - 1);
      ChildYields(text, f.selections[f.next - 1], f, top, v);
      LevelContinues(text, before, v);
      ViolationEndsLevel(text, f, f.next, v);
      Surface(text, Init(below), f, base, v);
    }
  }

  // -------------------------------------------------------------------- the memo

  function Remembered(memo: set<SpreadKey>, top: Level, cuts: nat): set<SpreadKey> {
    if top.key.Some? && top.cutsBefore == cuts then memo + {top.key.value} else memo
  }

  /** An uncut clean spread is clean under every list of budgets that is as tight. */
  lemma RememberExact(text: Text, memo: set<SpreadKey>, below: Levels, top: Level, cuts: nat, base: nat)
    requires Sound(text, below, top, cuts, base) && MemoIsExact(text, memo)
    requires below != [] && !top.HasNext()
    ensures MemoIsExact(text, Remembered(memo, top, cuts))
  {
    if top.key.Some? && top.cutsBefore == cuts {
      assert LevelYields(text, top, |top.selections|, Clean);
      KeyYields(text, Last(below), Last(below).selections[Last(below).next - 1], top);
    }
  }

  lemma KeyYields(text: Text, parent: Level, s: Selection, top: Level)
    requires OpenedBy(text, s, parent, top) && top.key.Some?
    requires LevelYields(text, top, |top.selections|, Clean)
    ensures var k := top.key.value;
            k.0 in text.fragments && SetYields(text, Body(text, k.0), k.1, 0, Canonical(k.2), Clean)
  {
    var k := top.key.value;
    assert top.selections[..|top.selections|] == top.selections == Body(text, k.0);
    var n: nat :| SetVerdict(text, n, top.selections, k.1, top.data.depth, top.data.constraints) == Clean;
    TightestBudgetDecides(text, n, top.selections, k.1, top.data.depth, top.data.constraints, 0, Canonical(k.2));
    assert SetVerdict(text, n, top.selections, k.1, 0, Canonical(k.2)) == Clean;
  }

  lemma RememberedIsClean(text: Text, s: Selection, level: Level, memo: set<SpreadKey>)
    requires MemoIsExact(text, memo) && Visited(text, s, level).Follows?
        && KeyOf(Visited(text, s, level), level.data) in memo
    ensures SelectionYields(text, s, level.levelType, level.data.depth, level.data.constraints, Clean)
  {
    var k := KeyOf(Visited(text, s, level), level.data);
    var n: nat :| SetVerdict(text, n, Body(text, k.0), k.1, 0, Canonical(k.2)) == Clean;
    TightestBudgetDecides(text, n, Body(text, k.0), k.1, 0, Canonical(k.2), level.data.depth, level.data.constraints);
    assert SelectionVerdict(text, n + 1, s, level.levelType, level.data.depth, level.data.constraints) == Clean;
  }

  /** On a document without cycles every spread that is left is remembered. */
  lemma LeaveRemembers(text: Text, below: Levels, top: Level, cuts: nat, memo: set<SpreadKey>,
      expansions: seq<SpreadKey>)
    requires Sound(text, below, top, cuts, cuts) && below != []
    requires ExpandedOnce(text.schema, text.fragments, expansions, memo + OpenKeys(below) + top.Keys())
    ensures ExpandedOnce(text.schema, text.fragments, expansions,
        Remembered(memo, top, cuts) + OpenKeys(Init(below)) + Last(below).Keys())
  {
    assert top.key.Some? ==> top.cutsBefore == cuts;
    assert Remembered(memo, top, cuts) == memo + top.Keys();
    assert OpenKeys(below) == OpenKeys(Init(below)) + Last(below).Keys();
    assert memo + OpenKeys(below) + top.Keys() == memo + top.Keys() + OpenKeys(Init(below)) + Last(below).Keys();
  }

  /** On a document without cycles the verdict is the verdict of the expanded text. */
  lemma AcyclicReading(text: Text, rank: map<Name, nat>, ss: seq<Selection>, ty: TypeName, reach: Reach, v: Verdict)
    requires IsRank(text.fragments, rank) && SetYields(text, ss, ty, reach.depth, reach.constraints, v)
    ensures SetVerdict(text, 0, Expand(text.fragments, |text.fragments|, ss), ty, reach.depth, reach.constraints) == v
  {
    AcyclicVerdictIsKnown(text, rank, |text.fragments|, ss, ty, reach.depth, reach.constraints);
    var n: nat :| SetVerdict(text, n, ss, ty, reach.depth, reach.constraints) == v;
    if n <= |text.fragments| { DeeperSet(text, n, |text.fragments|, ss, ty, reach.depth, reach.constraints); }
    else { DeeperSet(text, |text.fragments|, n, ss, ty, reach.depth, reach.constraints); }
    ExpansionKeepsVerdict(text, |text.fragments|, ss, ty, reach.depth, reach.constraints);
  }

  // ------------------------------------------------------------ the memo stays closed

  lemma {:induction false} WaitingIsMarked(text: Text, below: Levels, top: Level, cuts: nat, base: nat)
    requires Waiting(text, below, top, cuts, base)
    ensures Marked(below, top, cuts, base)
  {
    if below != [] { WaitingIsMarked(text, Init(below), Last(below), cuts, base); }
  }

  lemma NothingWalked(text: Text, f: Level)
    ensures WalkedUpTo(text)(f, 0) == {}
  {
    assert f.selections[..0] == [];
  }

  lemma WalkedIgnoresProgress(text: Text, f: Level, n: nat)
    ensures WalkedUpTo(text)(f.Taken(f.data), n) == WalkedUpTo(text)(f, n)
  {
  }

  lemma WalkedSnoc(text: Text, f: Level, n: nat)
    requires n < |f.selections|
    ensures WalkedUpTo(text)(f, n + 1)
         == WalkedUpTo(text)(f, n) + WalkedBy(text, f.selections[n], f.levelType, f.data.depth, f.data.constraints)
  {
    hide WalkedBy;
    assert f.selections[..n + 1] == f.selections[..n] + [f.selections[n]];
    assert f.selections[..n + 1][..n] == f.selections[..n];
  }

  /** Taking a selection that walks remembered spreads only. */
  lemma TakeKnownClosed(text: Text, below: Levels, top: Level, cuts: nat, base: nat, memo: set<SpreadKey>)
    requires WalkClosed(WalkedUpTo(text), below, top, cuts, base, memo) && top.HasNext()
    requires WalkedBy(text, top.selections[top.next], top.levelType, top.data.depth, top.data.constraints) <= memo
    ensures WalkClosed(WalkedUpTo(text), below, top.Taken(top.data), cuts, base, memo)
  {
    hide WalkedBy;
    WalkedSnoc(text, top, top.next);
  }

  /** What the selection that opened a level walks: the level's own key, or what the level walks. */
  lemma OpenerWalks(text: Text, s: Selection, parent: Level, child: Level)
    requires OpenedBy(text, s, parent, child)
    ensures WalkedBy(text, s, parent.levelType, parent.data.depth, parent.data.constraints)
         == if child.key.Some? then {child.key.value} else WalkedUpTo(text)(child, |child.selections|)
  {
    assert child.selections[..|child.selections|] == child.selections;
  }

  /** Leaving a level: the spread it belongs to, if it was not cut, is remembered with all it walked. */
  lemma LeaveClosed(text: Text, below: Levels, top: Level, cuts: nat, base: nat, memo: set<SpreadKey>)
    requires Sound(text, below, top, cuts, base) && !top.HasNext() && below != []
    requires WalkClosed(WalkedUpTo(text), below, top, cuts, base, memo) && MemoIsClosed(text, memo)
    ensures WalkClosed(WalkedUpTo(text), Init(below), Last(below), cuts, base, Remembered(memo, top, cuts))
    ensures MemoIsClosed(text, Remembered(memo, top, cuts))
  {
    hide WalkedBy, WalkedIn, VisitOf;
    var f, memo' := Last(below), Remembered(memo, top, cuts);
    assert top.selections[..top.next] == top.selections;
    if cuts == Mark(Init(below), f, base) {
      WalkedSnoc(text, f, f.next - 1);
      OpenerWalks(text, f.selections[f.next - 1], f, top);
    }
    if top.key.Some? && top.cutsBefore == cuts {
      var k := top.key.value;
      KeyOfLevel(text, f.selections[f.next - 1], f, top);
      TightestBudgetWalks(text, top.selections, k.1, top.data.depth, top.data.constraints, 0, Canonical(k.2));
    }
    LeavingKeepsClosed(WalkedUpTo(text), below, top, f, cuts, base, memo, memo');
  }

  lemma KeyOfLevel(text: Text, s: Selection, parent: Level, top: Level)
    requires OpenedBy(text, s, parent, top) && top.key.Some?
    ensures var k := top.key.value;
            && k.0 in text.fragments && top.selections == Body(text, k.0) && top.levelType == k.1
            && k.2 == Budget(top.data.constraints, top.data.depth)
  {
  }

  // ------------------------------------------------------------ budgets stay in range

  /** A tightest budget between zero and the structural ceiling. */
  predicate InRange(budget: Option<int>) {
    budget.Some? && 0 <= budget.value <= STRUCTURAL_DEPTH
  }

  ghost predicate Capped(below: Levels, top: Level) {
    InRange(top.data.Tightest()) && (below == [] || Capped(Init(below), Last(below)))
  }

  lemma EnteringKeepsRange(text: Text, s: Selection, parent: Level, child: Level)
    requires OpenedBy(text, s, parent, child) && InRange(parent.data.Tightest())
    ensures InRange(child.data.Tightest())
    ensures child.key.Some? ==> InRange(child.key.value.2)
  {
    var v := Visited(text, s, parent);
    if v.Nested? && s.Object? {
      var depth, constraints := parent.data.depth, parent.data.constraints;
      BudgetShifts(constraints, depth);
      ExceededWhenUsedUp(constraints, depth + 1);
      EnteringTightens(text.schema, v.ty, depth + 1, constraints);
    }
  }

  // --------------------------------------------------------------- one step at a time

  /** A moment of a walk. `root` is the level it started from, `base` the cut count and `known` the memo
      then, and `rank` a numbering of the fragments when the document has no reference cycle. */
  datatype Moment = Moment(
    text: Text, rank: Option<map<Name, nat>>, root: Level, base: nat, known: set<SpreadKey>,
    below: Levels, top: Level, cuts: nat, memo: set<SpreadKey>, expansions: seq<SpreadKey>)
  {
    ghost predicate Reachable() {
      && Sound(text, below, top, cuts, base)
      && MemoIsExact(text, memo)
      && MemoIsClosed(text, memo) && WalkClosed(WalkedUpTo(text), below, top, cuts, base, memo)
      && Bottom(below, top) == root.(next := Bottom(below, top).next)
      && (rank.Some? ==>
            && IsRank(text.fragments, rank.value)
            && Descending(text.fragments, rank.value, below, top)
            && cuts == base
            && ExpandedOnce(text.schema, text.fragments, expansions, memo + OpenKeys(below) + top.Keys()))
      && known <= memo && NoneIn(expansions, known) && AllExpanded(memo, below, top, expansions, known)
      && (InRange(root.data.Tightest()) ==> Capped(below, top) && AllInRange(expansions))
    }

    function Active(): set<Name> { ActiveNames(below, top) }

    function Left(): nat { StackWork(text.fragments, below, top) }

    function Next(): Visit
      requires top.HasNext()
    {
      Visited(text, top.selections[top.next], top)
    }

    function Took(): Moment { this.(top := top.Taken(top.data)) }

    function Entering(child: Level): Moment {
      this.(below := below + [top.Taken(top.data)], top := child)
    }
  }

  ghost predicate AllInRange(expansions: seq<SpreadKey>) {
    forall i :: 0 <= i < |expansions| ==> InRange(expansions[i].2)
  }

  ghost predicate NoneIn(expansions: seq<SpreadKey>, known: set<SpreadKey>) {
    forall i :: 0 <= i < |expansions| ==> expansions[i] !in known
  }

  const NO_TEXT := Text(Schema(map[], map[]), map[])

  lemma StartIsReachable(text: Text, rank: Option<map<Name, nat>>, ss: seq<Selection>, ty: TypeName, reach: Reach,
                         cuts: nat, memo: set<SpreadKey>)
    requires MemoIsExact(text, memo) && MemoIsClosed(text, memo)
    requires rank.Some? ==> IsRank(text.fragments, rank.value)
    ensures var root := EmptyLevel(ss, ty, reach, None, 0);
            Moment(text, rank, root, cuts, memo, [], root, cuts, memo, []).Reachable()
  {
    var root := EmptyLevel(ss, ty, reach, None, 0);
    var none: Levels := [];
    assert SetVerdict(text, 0, root.selections[..0], ty, reach.depth, reach.constraints) == Clean;
    assert memo + OpenKeys(none) + root.Keys() == memo;
    NothingWalked(text, root);
  }

  ghost function EmptyWalk(): (m: Moment)
    ensures m.Reachable()
  {
    StartIsReachable(NO_TEXT, None, [], "", Reach(0, []), 0, {});
    var root := EmptyLevel([], "", Reach(0, []), None, 0);
    Moment(NO_TEXT, None, root, 0, {}, [], root, 0, {}, [])
  }

  type Walk = m: Moment | m.Reachable() ghost witness EmptyWalk()

  lemma StepKnown(w: Walk) returns (w': Walk)
    requires w.top.HasNext()
    requires SelectionYields(w.text, w.top.selections[w.top.next], w.top.levelType, w.top.data.depth,
        w.top.data.constraints, Clean)
    requires WalkedBy(w.text, w.top.selections[w.top.next], w.top.levelType, w.top.data.depth, w.top.data.constraints)
        <= w.memo
    ensures w' == w.Took() && w'.Left() < w.Left() && w'.Active() == w.Active()
  {
    hide VisitOf, SelectionYields, SetYields, ExpandedOnce, IsRank, MemoIsExact, InRange, MemoIsClosed, WalkClosed,
         WalkedBy;
    TakeKnownClosed(w.text, w.below, w.top, w.cuts, w.base, w.memo);
    TakeKnown(w.text, w.below, w.top, w.cuts, w.base);
    TakingIsProgress(w.text.fragments, w.below, w.top, w.top.data);
    if w.rank.Some? {
      DescendingIgnoresData(w.text.fragments, w.rank.value, w.below, w.top, w.top.next + 1, w.top.data);
    }
    hide Sound, StackWork, VisitOf, OpenKeys, OpenNames, IsRank, MemoIsExact, Descending, SelectionYields, ExpandedOnce;
    assert InRange(w.root.data.Tightest()) ==> Capped(w.below, w.top.Taken(w.top.data));
    w' := w.Took();
  }

  lemma StepPassed(w: Walk) returns (w': Walk)
    requires w.top.HasNext() && w.Next().Passed?
    ensures w' == w.Took() && w'.Left() < w.Left() && w'.Active() == w.Active()
  {
    assert SelectionVerdict(w.text, 0, w.top.selections[w.top.next], w.top.levelType, w.top.data.depth,
        w.top.data.constraints) == Clean;
    w' := StepKnown(w);
  }

  lemma StepRemembered(w: Walk) returns (w': Walk)
    requires w.top.HasNext() && w.Next().Follows? && KeyOf(w.Next(), w.top.data) in w.memo
    ensures w' == w.Took() && w'.Left() < w.Left() && w'.Active() == w.Active()
  {
    RememberedIsClean(w.text, w.top.selections[w.top.next], w.top, w.memo);
    assert WalkedBy(w.text, w.top.selections[w.top.next], w.top.levelType, w.top.data.depth, w.top.data.constraints)
        == {KeyOf(w.Next(), w.top.data)};
    w' := StepKnown(w);
  }

  lemma StepCut(w: Walk) returns (w': Walk)
    requires w.top.HasNext() && w.Next().Follows? && w.Next().fragment in w.Active()
    ensures w' == w.Took().(cuts := w.cuts + 1) && w'.Left() < w.Left() && w'.Active() == w.Active()
  {
    hide Descending, StackWork, OpenKeys, OpenNames, IsRank, MemoIsExact, MemoIsClosed, BelowClosed, Marked, Waiting,
         Exact;
    WaitingIsMarked(w.text, w.below, w.top, w.cuts, w.base);
    CutKeepsClosed(WalkedUpTo(w.text), w.below, w.top, w.cuts, w.base, w.memo);
    hide Sound;
    if w.rank.Some? { GuardIsIdle(w.text.fragments, w.rank.value, w.below, w.top); }
    TakeCut(w.text, w.below, w.top, w.cuts, w.base);
    TakingIsProgress(w.text.fragments, w.below, w.top, w.top.data);
    w' := w.Took().(cuts := w.cuts + 1);
  }

  /** Opening the children of a field or of an inline fragment, or the body of a spread that is neither
      open nor remembered. */
  lemma StepOpen(w: Walk) returns (w': Walk)
    requires w.top.HasNext() && (w.Next().Nested? || w.Next().Follows?)
    requires w.Next().Follows? ==> KeyOf(w.Next(), w.top.data) !in w.memo && w.Next().fragment !in w.Active()
    ensures w' == w.Entering(Entered(w.text, w.Next(), w.top.data, w.cuts)).(expansions := w.expansions +
                    if w.Next().Follows? then [KeyOf(w.Next(), w.top.data)] else [])
    ensures w'.Left() < w.Left()
    ensures w'.Active() == w.Active() + if w.Next().Follows? then {w.Next().fragment} else {}
  {
    hide Sound, OpenedBy, Descending, StackWork, VisitOf, OpenKeys, OpenNames, IsRank, MemoIsExact, Opens, ExpandedOnce,
         KeyFits, Capped, InRange, AllInRange;
    hide MemoIsClosed, WalkClosed, WalkedUpTo, AllExpanded;
    var child := Entered(w.text, w.Next(), w.top.data, w.cuts);
    NothingWalked(w.text, child);
    WalkedIgnoresProgress(w.text, w.top, w.top.next);
    OpeningKeepsClosed(WalkedUpTo(w.text), w.below, w.top, child, w.cuts, w.base, w.memo);
    EnteredLevel(w.text, w.top.selections[w.top.next], w.top, w.cuts);
    TakeOpening(w.text, w.below, w.top, w.cuts, w.base, child);
    OpeningIsProgress(w.text.fragments, w.below, w.top, child);
    OpenedNames(w.below, w.top, child);
    OpeningIsExpanded(w.memo, w.below, w.top, child, w.expansions, w.known);
    if w.rank.Some? {
      OpeningDescends(w.text.fragments, w.rank.value, w.below, w.top, child);
      OpeningExpands(w.text.schema, w.text.fragments, w.expansions, w.memo, w.below, w.top, child);
    }
    if InRange(w.root.data.Tightest()) {
      OpeningIsCapped(w.text, w.below, w.top, child, w.expansions);
    }
    w' := w.Entering(child).(expansions := w.expansions + if child.key.Some? then [child.key.value] else []);
  }

  lemma OpeningIsCapped(text: Text, below: Levels, top: Level, child: Level, expansions: seq<SpreadKey>)
    requires Capped(below, top) && AllInRange(expansions) && top.HasNext()
    requires OpenedBy(text, top.selections[top.next], top, child)
    ensures Capped(below + [top.Taken(top.data)], child)
    ensures AllInRange(expansions + if child.key.Some? then [child.key.value] else [])
  {
    EnteringKeepsRange(text, top.selections[top.next], top, child);
    InitLast(below, top.Taken(top.data));
    hide InRange, OpenedBy;
    assert Capped(below, top.Taken(top.data));
  }

  /** Leaving a level; a spread walked without a cut is remembered as clean. */
  lemma StepLeave(w: Walk) returns (w': Walk)
    requires !w.top.HasNext() && w.below != []
    ensures w' == w.(below := Init(w.below), top := Last(w.below), memo := Remembered(w.memo, w.top, w.cuts))
    ensures w'.Left() < w.Left() && w'.Active() == w.Active() - w.top.Names()
  {
    hide MemoIsClosed, WalkClosed, WalkedUpTo, AllExpanded;
    var top' := Last(w.below);
    LeaveClosed(w.text, w.below, w.top, w.cuts, w.base, w.memo);
    Leave(w.text, w.below, w.top, w.cuts, w.base);
    RememberExact(w.text, w.memo, w.below, w.top, w.cuts, w.base);
    LeavingIsProgress(w.text.fragments, w.below, w.top, top'.data);
    LeavingIsExpanded(w.memo, Remembered(w.memo, w.top, w.cuts), w.below, w.top, top', w.expansions, w.known);
    assert ActiveNames(w.below, w.top) == ActiveNames(Init(w.below), top') + w.top.Names();
    hide Sound, Descending, StackWork, VisitOf, OpenKeys, IsRank, MemoIsExact, ExpandedOnce;
    if w.rank.Some? {
      DescendingIgnoresData(w.text.fragments, w.rank.value, w.below, w.top, w.top.next, w.top.data);
      LeaveRemembers(w.text, w.below, w.top, w.cuts, w.memo, w.expansions);
    }
    assert InRange(w.root.data.Tightest()) ==> Capped(Init(w.below), top');
    w' := w.(below := Init(w.below), top := top', memo := Remembered(w.memo, w.top, w.cuts));
  }

  ghost predicate Answers(text: Text, root: Level, v: Verdict) {
    SetYields(text, root.selections, root.levelType, root.data.depth, root.data.constraints, v)
  }

  ghost predicate ExpandedAnswers(text: Text, root: Level, v: Verdict) {
    SetVerdict(text, 0, Expand(text.fragments, |text.fragments|, root.selections), root.levelType, root.data.depth,
        root.data.constraints) == v
  }

  /** Each key was expanded at most once. */
  ghost predicate OnceEach(text: Text, expansions: seq<SpreadKey>) {
    Distinct(expansions) && forall i :: 0 <= i < |expansions| ==> KeyFits(text.schema, text.fragments, expansions[i])
  }

  function RootWalked(text: Text, root: Level): set<SpreadKey> {
    WalkedIn(text, root.selections, root.levelType, root.data.depth, root.data.constraints)
  }

  /** The walk ran to its end: the selections are clean. */
  lemma Finish(w: Walk)
    requires !w.top.HasNext() && w.below == []
    ensures w.base <= w.cuts && MemoIsExact(w.text, w.memo) && MemoIsClosed(w.text, w.memo)
    ensures w.cuts == w.base ==> Answers(w.text, w.root, Clean) && RootWalked(w.text, w.root) <= w.memo
    ensures w.memo <= Elements(w.expansions) + w.known
    ensures w.rank.Some? ==>
              w.cuts == w.base && ExpandedAnswers(w.text, w.root, Clean) && OnceEach(w.text, w.expansions)
    ensures NoneIn(w.expansions, w.known)
    ensures InRange(w.root.data.Tightest()) ==> AllInRange(w.expansions)
  {
    assert w.top.selections[..w.top.next] == w.root.selections;
    if w.rank.Some? {
      AcyclicReading(w.text, w.rank.value, w.root.selections, w.root.levelType, w.root.data, Clean);
    }
  }

  /** The walk met a broken budget and stops: nothing met later matters. */
  lemma Report(w: Walk)
    requires w.top.HasNext() && w.Next().Broken?
    ensures w.base <= w.cuts && MemoIsExact(w.text, w.memo) && MemoIsClosed(w.text, w.memo)
    ensures w.cuts == w.base ==> Answers(w.text, w.root, Violation(w.Next().constraint, w.Next().field))
    ensures w.memo <= Elements(w.expansions) + w.known
    ensures w.rank.Some? ==>
              && w.cuts == w.base && ExpandedAnswers(w.text, w.root, Violation(w.Next().constraint, w.Next().field))
              && OnceEach(w.text, w.expansions)
    ensures NoneIn(w.expansions, w.known)
    ensures InRange(w.root.data.Tightest()) ==> AllInRange(w.expansions)
  {
    var s, v := w.top.selections[w.top.next], Violation(w.Next().constraint, w.Next().field);
    BaseBelowCuts(w.text, w.below, w.top, w.cuts, w.base);
    if w.cuts == w.base {
      assert SelectionVerdict(w.text, 0, s, w.top.levelType, w.top.data.depth, w.top.data.constraints) == v;
      LevelContinues(w.text, w.top, v);
      ViolationEndsLevel(w.text, w.top, w.top.next + 1, v);
      Surface(w.text, w.below, w.top, w.base, v);
      assert w.root.selections[..|w.root.selections|] == w.root.selections;
      if w.rank.Some? {
        AcyclicReading(w.text, w.rank.value, w.root.selections, w.root.levelType, w.root.data, v);
      }
    }
  }

  lemma BaseBelowCuts(text: Text, below: Levels, top: Level, cuts: nat, base: nat)
    requires Waiting(text, below, top, cuts, base)
    ensures base <= cuts && base <= Mark(below, top, base) <= cuts
  {
  }

  // -------------------------------------------------------------------- the walker

  datatype Excess = Excess(constraint: Constraint, field: FieldHead)

  function AsVerdict(report: Option<Excess>): Verdict {
    match report
    case None => Clean
    case Some(Excess(c, field)) => Violation(c, field)
  }

  class DepthRule {
    const text: Text
    /** Spreads already proven clean, by fragment, type and tightest remaining budget. */
    var cleanSpreads: set<SpreadKey>
    /** How many spreads the path guard cut. */
    var cycleCuts: nat

    ghost predicate Valid()
      reads this
    {
      MemoIsExact(text, cleanSpreads) && MemoIsClosed(text, cleanSpreads)
    }

    constructor (text: Text)
      ensures Valid() && this.text == text && cleanSpreads == {} && cycleCuts == 0
    {
      this.text, cleanSpreads, cycleCuts := text, {}, 0;
    }

    /** The first budget broken in a selection tree, with the field that breaks it. It terminates on
        every document; nothing is cut on a document without reference cycles, where the report is the
        verdict of the text with all spreads inlined. `expansions` lists the spreads whose body was
        walked: none twice on such a document, none ever that an earlier walk of the same rule had proven
        clean, and under a root budget in range all with a remaining budget in range. */
    method Walk(selections: seq<Selection>, parentType: TypeName, depth: nat, constraints: seq<Constraint>)
      returns (report: Option<Excess>, ghost expansions: seq<SpreadKey>)
      requires Valid()
      modifies this
      ensures Valid()
      ensures MemoIsExact(text, cleanSpreads) && MemoIsClosed(text, cleanSpreads)
      ensures old(cycleCuts) <= cycleCuts
      ensures old(cleanSpreads) <= cleanSpreads <= Elements(expansions) + old(cleanSpreads)
      ensures cycleCuts == old(cycleCuts) ==>
          SetYields(text, selections, parentType, depth, constraints, AsVerdict(report))
      ensures cycleCuts == old(cycleCuts) && report.None? ==>
          WalkedIn(text, selections, parentType, depth, constraints) <= cleanSpreads
      ensures Acyclic(text.fragments) ==>
        && cycleCuts == old(cycleCuts)
        && SetVerdict(text, 0, Expand(text.fragments, |text.fragments|, selections), parentType, depth, constraints)
             == AsVerdict(report)
        && OnceEach(text, expansions)
      ensures NoneIn(expansions, old(cleanSpreads))
      ensures InRange(Budget(constraints, depth)) ==> AllInRange(expansions)
    {
      ghost var rank: Option<map<Name, nat>> := None;
      if Acyclic(text.fragments) {
        var r :| IsRank(text.fragments, r);
        rank := Some(r);
      }
      ghost var root := EmptyLevel(selections, parentType, Reach(depth, constraints), None, 0);
      StartIsReachable(text, rank, selections, parentType, Reach(depth, constraints), cycleCuts, cleanSpreads);
      ghost var w: Walk := Moment(text, rank, root, cycleCuts, cleanSpreads, [], root, cycleCuts, cleanSpreads, []);
      assert w.Active() == {};
      report, w := WalkAll(selections, parentType, Reach(depth, constraints), w);
      expansions := w.expansions;
      if report.Some? { Report(w); } else { Finish(w); }
    }

    method WalkAll(selections: seq<Selection>, parentType: TypeName, reach: Reach, ghost start: Walk)
      returns (report: Option<Excess>, ghost w: Walk)
      requires start.root == EmptyLevel(selections, parentType, reach, None, 0)
      requires start == Moment(text, start.rank, start.root, cycleCuts, cleanSpreads, [], start.root, cycleCuts,
          cleanSpreads, [])
      requires start.Active() == {}
      modifies this
      ensures w == start.(below := w.below, top := w.top, cuts := cycleCuts, memo := cleanSpreads,
          expansions := w.expansions)
      ensures report.None? ==> !w.top.HasNext() && w.below == []
      ensures report.Some? ==> w.top.HasNext() && w.Next() == Broken(report.value.constraint, report.value.field)
      ensures old(cleanSpreads) <= cleanSpreads
    {
      hide Moment.Reachable, StackWork, VisitOf, ActiveNames, Budget;
      w := start;
      var below: Levels := [];
      var frame := EmptyLevel(selections, parentType, reach, None, 0);
      var active: set<Name> := {};
      while frame.next < |frame.selections| || below != []
        invariant w == start.(below := below, top := frame, cuts := cycleCuts, memo := cleanSpreads,
            expansions := w.expansions)
        invariant active == w.Active()
        invariant old(cleanSpreads) <= cleanSpreads
        decreases w.Left()
      {
        if frame.next < |frame.selections| {
          var visit := Visited(text, frame.selections[frame.next], frame);
          match visit
          case Passed =>
            w := StepPassed(w);
            frame := frame.Taken(frame.data);
          case Broken(constraint, field) =>
            return Some(Excess(constraint, field)), w;
          case Nested(_, _, _, _) =>
            w := StepOpen(w);
            assert active + {} == active;
            below, frame := below + [frame.Taken(frame.data)], Entered(text, visit, frame.data, cycleCuts);
          case Follows(name, _) =>
            if name in active {
              w := StepCut(w);
              cycleCuts := cycleCuts + 1;
              frame := frame.Taken(frame.data);
            } else if KeyOf(visit, frame.data) in cleanSpreads {
              w := StepRemembered(w);
              frame := frame.Taken(frame.data);
            } else {
              w := StepOpen(w);
              active := active + {name};
              below, frame := below + [frame.Taken(frame.data)], Entered(text, visit, frame.data, cycleCuts);
            }
        } else {
          w := StepLeave(w);
          if frame.key.Some? {
            active := active - {frame.key.value.0};
            if frame.cutsBefore == cycleCuts {
              cleanSpreads := cleanSpreads + {frame.key.value};
            }
          }
          below, frame := Init(below), Last(below);
        }
      }
      return None, w;
    }
  }
}
