/** The walker that computes query costs: an explicit stack of open levels, a memo of finished
    spreads, and a guard against spreads that are already open. It is proved against the plain
    recursion of module Cost. */
module CostWalker {
  import opened Options
  import opened Document
  import opened Sequences
  import opened Cost
  import opened Walks

  /** The total of a level so far, and how the finished total folds into the level below: own cost and
      multiplier for the children of a field, unchanged for a spread. */
  datatype Tally = Tally(total: int, weights: Option<(int, int)>)
  {
    function Folded(): int {
      match weights
      case Some((own, multiplier)) => own + multiplier * total
      case None => total
    }

    function Plus(amount: int): Tally { this.(total := total + amount) }
  }

  type SpreadKey = Key<()>
  type Level = Frame<Tally, ()>
  type Levels = Stack<Tally, ()>

  function KeyOf(name: Name, ty: TypeName): SpreadKey { (name, ty, ()) }

  function EmptyLevel(selections: seq<Selection>, ty: TypeName, weights: Option<(int, int)>,
      key: Option<SpreadKey>, cuts: nat): Level
  {
    Frame(selections, 0, ty, Tally(0, weights), key, cuts)
  }

  /** The level a visit opens. */
  function Entered(ctx: Context, v: Visit, cuts: nat): Level
    requires v.Nested? || (v.Follows? && v.fragment in ctx.fragments)
  {
    match v
    case Nested(children, target, own, multiplier) => EmptyLevel(children, target, Some((own, multiplier)), None, 0)
    case Follows(name, target) => EmptyLevel(Body(ctx, name), target, None, Some(KeyOf(name, target)), cuts)
  }

  // ------------------------------------------------------------ totals are exact

  /** Selection `s` opened the level `child`, which has made some progress since. */
  ghost predicate OpenedBy(ctx: Context, s: Selection, ty: TypeName, child: Level) {
    var v := VisitOf(ctx, s, ty);
    && (v.Nested? || v.Follows?)
    && var e := Entered(ctx, v, child.cutsBefore);
       && child.selections == e.selections && child.levelType == e.levelType
       && child.key == e.key && child.data.weights == e.data.weights
  }

  /** The total is the exact cost of the first `count` selections, as long as nothing was cut since
      the innermost open spread was entered. */
  ghost predicate Exact(ctx: Context, f: Level, count: nat, uncut: bool) {
    count <= |f.selections| && (uncut ==> SetCosts(ctx, f.selections[..count], f.levelType, f.data.total))
  }

  /** Every level of `below` waits for the level above it. */
  ghost predicate Waiting(ctx: Context, below: Levels, top: Level, cuts: nat, base: nat) {
    if below == [] then top.key == None && top.data.weights == None && base <= cuts
    else
      var f, rest := Last(below), Init(below);
      && 0 < f.next <= |f.selections|
      && Exact(ctx, f, f.next - 1, cuts == Mark(rest, f, base))
      && OpenedBy(ctx, f.selections[f.next - 1], f.levelType, top)
      && base <= Mark(rest, f, base) <= Mark(below, top, base) <= cuts
      && top.Names() !! OpenNames(below)
      && Waiting(ctx, rest, f, cuts, base)
  }

  ghost predicate Sound(ctx: Context, below: Levels, top: Level, cuts: nat, base: nat) {
    && Exact(ctx, top, top.next, cuts == Mark(below, top, base))
    && Waiting(ctx, below, top, cuts, base)
  }

  /** Every remembered cost is the cost by plain recursion, whatever path led to it. */
  ghost predicate MemoIsExact(ctx: Context, memo: map<SpreadKey, int>) {
    forall k <- memo :: k.0 in ctx.fragments && SetCosts(ctx, Body(ctx, k.0), k.1, memo[k])
  }

  /** The keys of the spreads some selections walk. */
  function WalkedKeys(ctx: Context, ss: seq<Selection>, ty: TypeName): set<SpreadKey> {
    set w <- WalkedIn(ctx, ss, ty) :: KeyOf(w.0, w.1)
  }

  function WalkedUpTo(ctx: Context): Walked<Tally, ()> {
    (f: Level, n: nat) => if n <= |f.selections| then WalkedKeys(ctx, f.selections[..n], f.levelType) else {}
  }

  /** Every spread that a remembered spread's body walks is remembered. */
  ghost predicate MemoIsClosed(ctx: Context, memo: map<SpreadKey, int>) {
    forall k <- memo :: k.0 in ctx.fragments && WalkedKeys(ctx, Body(ctx, k.0), k.1) <= memo.Keys
  }

  /** A remembered spread rests on remembered spreads whose costs are known at a smaller depth, so on no cycle. */
  lemma MemoIsWellFounded(ctx: Context, memo: map<SpreadKey, int>, k: SpreadKey) returns (d: nat)
    requires MemoIsExact(ctx, memo) && MemoIsClosed(ctx, memo) && k in memo
    ensures KnownFrom(ctx, (k.0, k.1), d)
    ensures forall walked <- WalkedIn(ctx, Body(ctx, k.0), k.1) ::
              KeyOf(walked.0, walked.1) in memo && exists e: nat :: e < d && KnownFrom(ctx, walked, e)
  {
    var n: nat :| SetCost(ctx, n, Body(ctx, k.0), k.1) == Some(memo[k]);
    d := KnownFromSome(ctx, (k.0, k.1), n);
    forall walked <- WalkedIn(ctx, Body(ctx, k.0), k.1)
      ensures KeyOf(walked.0, walked.1) in memo && exists e: nat :: e < d && KnownFrom(ctx, walked, e)
    {
      assert KeyOf(walked.0, walked.1) in WalkedKeys(ctx, Body(ctx, k.0), k.1);
      var e := KnownCostsAreWellFounded(ctx, (k.0, k.1), d, walked);
    }
  }

  /** A cut makes every open level inexact until its innermost spread is left. */
  lemma {:induction false} CutKeepsWaiting(ctx: Context, below: Levels, top: Level, cuts: nat, base: nat)
    requires Waiting(ctx, below, top, cuts, base)
    ensures Waiting(ctx, below, top, cuts + 1, base)
  {
    if below != [] {
      CutKeepsWaiting(ctx, Init(below), Last(below), cuts, base);
    }
  }

  /** The levels below do not look at the progress of the level above them. */
  lemma WaitingIgnoresProgress(ctx: Context, below: Levels, top: Level, top': Level, cuts: nat, base: nat)
    requires Waiting(ctx, below, top, cuts, base)
    requires top' == top.(next := top'.next, data := top'.data) && top'.data.weights == top.data.weights
    ensures Waiting(ctx, below, top', cuts, base)
    ensures Mark(below, top', base) == Mark(below, top, base)
  {
  }

  /** Taking a selection that opens no level and whose cost is known. */
  lemma TakeKnown(ctx: Context, below: Levels, top: Level, cuts: nat, base: nat, amount: int)
    requires Sound(ctx, below, top, cuts, base) && top.HasNext()
    requires SelectionCosts(ctx, top.selections[top.next], top.levelType, amount)
    ensures Sound(ctx, below, top.Taken(top.data.Plus(amount)), cuts, base)
  {
    hide Waiting, VisitOf, Mark;
    var top' := top.Taken(top.data.Plus(amount));
    WaitingIgnoresProgress(ctx, below, top, top', cuts, base);
    if cuts == Mark(below, top, base) {
      SetCostsSnoc(ctx, top.selections[..top.next], top.selections[top.next], top.levelType, top.data.total, amount);
      assert top.selections[..top.next] + [top.selections[top.next]] == top'.selections[..top'.next];
    }
  }

  /** Taking a spread that is already open: it adds nothing, and the walk is no longer exact. */
  lemma TakeCut(ctx: Context, below: Levels, top: Level, cuts: nat, base: nat)
    requires Sound(ctx, below, top, cuts, base) && top.HasNext()
    ensures Sound(ctx, below, top.Taken(top.data), cuts + 1, base)
  {
    CutKeepsWaiting(ctx, below, top, cuts, base);
    WaitingIgnoresProgress(ctx, below, top, top.Taken(top.data), cuts + 1, base);
  }

  lemma EnteredLevel(ctx: Context, s: Selection, ty: TypeName, cuts: nat)
    requires VisitOf(ctx, s, ty).Nested? || VisitOf(ctx, s, ty).Follows?
    ensures var v := VisitOf(ctx, s, ty);
            var child := Entered(ctx, v, cuts);
            && OpenedBy(ctx, s, ty, child)
            && Opens(ctx.fragments, s, child)
            && child.next == 0 && child.data.total == 0
            && (v.Nested? ==> child.key == None && child.Names() == {})
            && (v.Follows? ==> child.key == Some(KeyOf(v.fragment, v.ty)) && child.Names() == {v.fragment})
            && (v.Follows? ==> child.cutsBefore == cuts && KeyFits(ctx.schema, ctx.fragments, KeyOf(v.fragment, v.ty)))
  {
  }

  /** Taking a selection that opens a level. */
  lemma TakeOpening(ctx: Context, below: Levels, top: Level, cuts: nat, base: nat, child: Level)
    requires Sound(ctx, below, top, cuts, base) && top.HasNext()
    requires OpenedBy(ctx, top.selections[top.next], top.levelType, child)
    requires child.next == 0 && child.data.total == 0
    requires child.key.Some? ==> child.cutsBefore == cuts
    requires child.Names() !! ActiveNames(below, top)
    ensures Sound(ctx, below + [top.Taken(top.data)], child, cuts, base)
  {
    hide VisitOf, OpenedBy;
    InitLast(below, top.Taken(top.data));
    OpenedNames(below, top, child);
    WaitingIgnoresProgress(ctx, below, top, top.Taken(top.data), cuts, base);
    assert SetCost(ctx, 0, child.selections[..0], child.levelType) == Some(0);
  }

  /** Leaving a finished level: its folded total is the cost of the selection that opened it. */
  lemma Leave(ctx: Context, below: Levels, top: Level, cuts: nat, base: nat)
    requires Sound(ctx, below, top, cuts, base) && !top.HasNext() && below != []
    ensures top.Names() !! OpenNames(below)
    ensures cuts == Mark(below, top, base) ==> SetCosts(ctx, top.selections, top.levelType, top.data.total)
    ensures Sound(ctx, Init(below), Last(below).(data := Last(below).data.Plus(top.data.Folded())), cuts, base)
  {
    hide VisitOf, OpenedBy, OpenNames;
    var f, rest := Last(below), Init(below);
    var f' := f.(data := f.data.Plus(top.data.Folded()));
    assert top.selections[..top.next] == top.selections;
    WaitingIgnoresProgress(ctx, rest, f, f', cuts, base);
    if cuts == Mark(rest, f, base) {
      var s := f.selections[f.next - 1];
      ChildCosts(ctx, s, f.levelType, top);
      SetCostsSnoc(ctx, f.selections[..f.next - 1], s, f.levelType, f.data.total, top.data.Folded());
      assert f.selections[..f.next - 1] + [s] == f.selections[..f.next];
    }
  }

  lemma ChildCosts(ctx: Context, s: Selection, ty: TypeName, child: Level)
    requires OpenedBy(ctx, s, ty, child)
    requires SetCosts(ctx, child.selections, child.levelType, child.data.total)
    ensures SelectionCosts(ctx, s, ty, child.data.Folded())
  {
    var d: nat :| SetCost(ctx, d, child.selections, child.levelType) == Some(child.data.total);
    if VisitOf(ctx, s, ty).Follows? {
      assert SelectionCost(ctx, d + 1, s, ty) == Some(child.data.Folded());
    } else {
      assert SelectionCost(ctx, d, s, ty) == Some(child.data.Folded());
    }
  }

  // -------------------------------------------------------------------- the memo

  function Remembered(memo: map<SpreadKey, int>, top: Level, cuts: nat): map<SpreadKey, int> {
    if top.key.Some? && top.cutsBefore == cuts then memo[top.key.value := top.data.total] else memo
  }

  /** What an uncut spread adds to the memo is exact, so it never changes a remembered cost. */
  lemma RememberExact(ctx: Context, memo: map<SpreadKey, int>, below: Levels, top: Level, cuts: nat, base: nat)
    requires Sound(ctx, below, top, cuts, base) && MemoIsExact(ctx, memo)
    requires below != [] && !top.HasNext()
    ensures MemoIsExact(ctx, Remembered(memo, top, cuts))
    ensures forall k <- memo :: k in Remembered(memo, top, cuts) && Remembered(memo, top, cuts)[k] == memo[k]
  {
    if top.key.Some? && top.cutsBefore == cuts {
      var k := top.key.value;
      assert top.selections[..top.next] == top.selections;
      assert SetCosts(ctx, Body(ctx, k.0), k.1, top.data.total);
      if k in memo { CostIsUnique(ctx, Body(ctx, k.0), k.1, top.data.total, memo[k]); }
    }
  }

  lemma RememberedCosts(ctx: Context, s: Selection, ty: TypeName, cost: int)
    requires VisitOf(ctx, s, ty).Follows?
    requires SetCosts(ctx, Body(ctx, VisitOf(ctx, s, ty).fragment), VisitOf(ctx, s, ty).ty, cost)
    ensures SelectionCosts(ctx, s, ty, cost)
  {
    var v := VisitOf(ctx, s, ty);
    var d: nat :| SetCost(ctx, d, Body(ctx, v.fragment), v.ty) == Some(cost);
    assert SelectionCost(ctx, d + 1, s, ty) == Some(cost);
  }

  /** On a document without cycles every spread that is left is remembered. */
  lemma LeaveRemembers(ctx: Context, below: Levels, top: Level, cuts: nat, memo: map<SpreadKey, int>,
      expansions: seq<SpreadKey>)
    requires Sound(ctx, below, top, cuts, cuts) && below != []
    requires ExpandedOnce(ctx.schema, ctx.fragments, expansions, memo.Keys + OpenKeys(below) + top.Keys())
    ensures ExpandedOnce(ctx.schema, ctx.fragments, expansions,
                         Remembered(memo, top, cuts).Keys + OpenKeys(Init(below)) + Last(below).Keys())
  {
    assert top.key.Some? ==> top.cutsBefore == cuts;
    assert Remembered(memo, top, cuts).Keys == memo.Keys + top.Keys();
    assert OpenKeys(below) == OpenKeys(Init(below)) + Last(below).Keys();
    assert memo.Keys + OpenKeys(below) + top.Keys()
        == memo.Keys + top.Keys() + OpenKeys(Init(below)) + Last(below).Keys();
  }

  /** On a document without cycles the recursive cost is the cost of the expanded text. */
  lemma AcyclicReading(ctx: Context, rank: map<Name, nat>, ss: seq<Selection>, ty: TypeName, total: int)
    requires IsRank(ctx.fragments, rank) && SetCosts(ctx, ss, ty, total)
    ensures SetCost(ctx, 0, Expand(ctx.fragments, |ctx.fragments|, ss), ty) == Some(total)
  {
    AcyclicCostIsDefined(ctx, rank, |ctx.fragments|, ss, ty);
    var d: nat :| SetCost(ctx, d, ss, ty) == Some(total);
    if d <= |ctx.fragments| { DeeperSet(ctx, d, |ctx.fragments|, ss, ty); }
    else { DeeperSet(ctx, |ctx.fragments|, d, ss, ty); }
    ExpansionKeepsCost(ctx, |ctx.fragments|, ss, ty);
  }

  // ------------------------------------------------------------ the memo stays closed

  lemma {:induction false} WaitingIsMarked(ctx: Context, below: Levels, top: Level, cuts: nat, base: nat)
    requires Waiting(ctx, below, top, cuts, base)
    ensures Marked(below, top, cuts, base)
  {
    if below != [] { WaitingIsMarked(ctx, Init(below), Last(below), cuts, base); }
  }

  lemma WalkedSnoc(ctx: Context, f: Level, n: nat)
    requires n < |f.selections|
    ensures WalkedUpTo(ctx)(f, n + 1)
         == WalkedUpTo(ctx)(f, n) + set w <- WalkedBy(ctx, f.selections[n], f.levelType) :: KeyOf(w.0, w.1)
  {
    hide WalkedBy;
    assert f.selections[..n + 1] == f.selections[..n] + [f.selections[n]];
    assert f.selections[..n + 1][..n] == f.selections[..n];
  }

  /** Taking a selection that walks remembered spreads only. */
  lemma TakeKnownClosed(ctx: Context, below: Levels, top: Level, data: Tally, cuts: nat, base: nat,
      memo: map<SpreadKey, int>)
    requires WalkClosed(WalkedUpTo(ctx), below, top, cuts, base, memo.Keys) && top.HasNext()
    requires forall w <- WalkedBy(ctx, top.selections[top.next], top.levelType) :: KeyOf(w.0, w.1) in memo
    ensures WalkClosed(WalkedUpTo(ctx), below, top.Taken(data), cuts, base, memo.Keys)
  {
    hide WalkedBy;
    WalkedSnoc(ctx, top, top.next);
  }

  /** Leaving a level: the spread it belongs to, if it was not cut, is remembered with all it walked. */
  lemma LeaveClosed(ctx: Context, below: Levels, top: Level, next: Level, cuts: nat, base: nat,
      memo: map<SpreadKey, int>)
    requires Sound(ctx, below, top, cuts, base) && !top.HasNext() && below != []
    requires next == Last(below).(data := next.data)
    requires WalkClosed(WalkedUpTo(ctx), below, top, cuts, base, memo.Keys) && MemoIsClosed(ctx, memo)
    ensures WalkClosed(WalkedUpTo(ctx), Init(below), next, cuts, base, Remembered(memo, top, cuts).Keys)
    ensures MemoIsClosed(ctx, Remembered(memo, top, cuts))
  {
    var f, memo' := Last(below), Remembered(memo, top, cuts);
    assert top.selections[..top.next] == top.selections;
    assert memo.Keys <= memo'.Keys;
    if cuts == Mark(Init(below), f, base) {
      WalkedSnoc(ctx, f, f.next - 1);
      OpenerWalks(ctx, f.selections[f.next - 1], f.levelType, top);
    }
    LeavingKeepsClosed(WalkedUpTo(ctx), below, top, next, cuts, base, memo.Keys, memo'.Keys);
  }

  /** What the selection that opened a level walks: the level's own key, or what the level walks. */
  lemma OpenerWalks(ctx: Context, s: Selection, ty: TypeName, child: Level)
    requires OpenedBy(ctx, s, ty, child)
    ensures (set w <- WalkedBy(ctx, s, ty) :: KeyOf(w.0, w.1))
         == if child.key.Some? then {child.key.value} else WalkedKeys(ctx, child.selections, child.levelType)
  {
    match VisitOf(ctx, s, ty)
    case Follows(name, target) =>
      assert WalkedBy(ctx, s, ty) == {(name, target)};
      assert child.key == Some(KeyOf(name, target));
    case Nested(children, target, _, _) =>
      assert WalkedBy(ctx, s, ty) == WalkedIn(ctx, children, target);
  }

  // --------------------------------------------------------------- one step at a time

  /** A moment of a walk. `root` is the level it started from, `base` the cut count then, and `rank`
      a numbering of the fragments when the document has no reference cycle. */
  datatype Moment = Moment(
    ctx: Context, rank: Option<map<Name, nat>>, root: Level, base: nat,
    below: Levels, top: Level, cuts: nat, memo: map<SpreadKey, int>, expansions: seq<SpreadKey>)
  {
    ghost predicate Reachable() {
      && Sound(ctx, below, top, cuts, base)
      && MemoIsExact(ctx, memo)
      && MemoIsClosed(ctx, memo) && WalkClosed(WalkedUpTo(ctx), below, top, cuts, base, memo.Keys)
      && Bottom(below, top).selections == root.selections && Bottom(below, top).levelType == root.levelType
      && (rank.Some? ==>
            && IsRank(ctx.fragments, rank.value)
            && Descending(ctx.fragments, rank.value, below, top)
            && cuts == base
            && ExpandedOnce(ctx.schema, ctx.fragments, expansions, memo.Keys + OpenKeys(below) + top.Keys()))
      && AllExpanded(memo.Keys, below, top, expansions, {})
    }

    function Active(): set<Name> { ActiveNames(below, top) }

    function Left(): nat { StackWork(ctx.fragments, below, top) }

    function Next(): Visit
      requires top.HasNext()
    {
      VisitOf(ctx, top.selections[top.next], top.levelType)
    }

    function Took(amount: int): Moment {
      this.(top := top.Taken(top.data.Plus(amount)))
    }

    function Entering(child: Level): Moment {
      this.(below := below + [top.Taken(top.data)], top := child)
    }
  }

  const NO_SETTINGS := CostSettings(None, None, None, None, {})
  const NO_CONTEXT := Context(Schema(map[], map[]), map[], NO_SETTINGS, map[], map[])

  lemma StartIsReachable(ctx: Context, rank: Option<map<Name, nat>>, ss: seq<Selection>, ty: TypeName,
                         cuts: nat, memo: map<SpreadKey, int>, expansions: seq<SpreadKey>)
    requires MemoIsExact(ctx, memo) && MemoIsClosed(ctx, memo) && memo.Keys <= Elements(expansions)
    requires rank.Some? ==>
               IsRank(ctx.fragments, rank.value) && ExpandedOnce(ctx.schema, ctx.fragments, expansions, memo.Keys)
    ensures var root := EmptyLevel(ss, ty, None, None, 0);
            Moment(ctx, rank, root, cuts, [], root, cuts, memo, expansions).Reachable()
  {
    var root := EmptyLevel(ss, ty, None, None, 0);
    var none: Levels := [];
    assert SetCost(ctx, 0, root.selections[..0], root.levelType) == Some(0);
    assert memo.Keys + OpenKeys(none) + root.Keys() == memo.Keys;
    NothingWalked(ctx, root);
  }

  lemma NothingWalked(ctx: Context, f: Level)
    ensures WalkedUpTo(ctx)(f, 0) == {}
  {
    assert f.selections[..0] == [];
  }

  ghost function EmptyWalk(): (m: Moment)
    ensures m.Reachable()
  {
    StartIsReachable(NO_CONTEXT, None, [], "", 0, map[], []);
    var root := EmptyLevel([], "", None, None, 0);
    Moment(NO_CONTEXT, None, root, 0, [], root, 0, map[], [])
  }

  type Walk = m: Moment | m.Reachable() ghost witness EmptyWalk()

  lemma WalkedIgnoresProgress(ctx: Context, f: Level, n: nat)
    ensures WalkedUpTo(ctx)(f.Taken(f.data), n) == WalkedUpTo(ctx)(f, n)
  {
  }

  lemma StepKnown(w: Walk, amount: int) returns (w': Walk)
    requires w.top.HasNext() && SelectionCosts(w.ctx, w.top.selections[w.top.next], w.top.levelType, amount)
    requires forall k <- WalkedBy(w.ctx, w.top.selections[w.top.next], w.top.levelType) :: KeyOf(k.0, k.1) in w.memo
    ensures w' == w.Took(amount) && w'.Left() < w.Left() && w'.Active() == w.Active()
  {
    hide Sound, StackWork, VisitOf, OpenKeys, OpenNames, IsRank, MemoIsExact, MemoIsClosed, WalkClosed, WalkedBy;
    TakeKnown(w.ctx, w.below, w.top, w.cuts, w.base, amount);
    TakeKnownClosed(w.ctx, w.below, w.top, w.top.data.Plus(amount), w.cuts, w.base, w.memo);
    TakingIsProgress(w.ctx.fragments, w.below, w.top, w.top.data.Plus(amount));
    w' := w.Took(amount);
  }

  lemma StepFlat(w: Walk) returns (w': Walk)
    requires w.top.HasNext() && (w.Next().Ignored? || w.Next().Flat?)
    ensures w' == w.Took(if w.Next().Flat? then w.Next().own else 0)
    ensures w'.Left() < w.Left() && w'.Active() == w.Active()
  {
    var amount := if w.Next().Flat? then w.Next().own else 0;
    assert SelectionCost(w.ctx, 0, w.top.selections[w.top.next], w.top.levelType) == Some(amount);
    w' := StepKnown(w, amount);
  }

  lemma StepRemembered(w: Walk) returns (w': Walk)
    requires w.top.HasNext() && w.Next().Follows? && KeyOf(w.Next().fragment, w.Next().ty) in w.memo
    ensures w' == w.Took(w.memo[KeyOf(w.Next().fragment, w.Next().ty)])
    ensures w'.Left() < w.Left() && w'.Active() == w.Active()
  {
    var cost := w.memo[KeyOf(w.Next().fragment, w.Next().ty)];
    RememberedCosts(w.ctx, w.top.selections[w.top.next], w.top.levelType, cost);
    assert WalkedBy(w.ctx, w.top.selections[w.top.next], w.top.levelType) == {(w.Next().fragment, w.Next().ty)};
    w' := StepKnown(w, cost);
  }

  lemma StepCut(w: Walk) returns (w': Walk)
    requires w.top.HasNext() && w.Next().Follows? && w.Next().fragment in w.Active()
    ensures w' == w.(top := w.top.Taken(w.top.data), cuts := w.cuts + 1) && w'.Left() < w.Left()
        && w'.Active() == w.Active()
  {
    hide Descending, StackWork, OpenKeys, OpenNames, IsRank, MemoIsExact, MemoIsClosed, BelowClosed, Marked, Waiting,
         Exact;
    WaitingIsMarked(w.ctx, w.below, w.top, w.cuts, w.base);
    CutKeepsClosed(WalkedUpTo(w.ctx), w.below, w.top, w.cuts, w.base, w.memo.Keys);
    hide Sound;
    if w.rank.Some? { GuardIsIdle(w.ctx.fragments, w.rank.value, w.below, w.top); }
    TakeCut(w.ctx, w.below, w.top, w.cuts, w.base);
    TakingIsProgress(w.ctx.fragments, w.below, w.top, w.top.data);
    w' := w.(top := w.top.Taken(w.top.data), cuts := w.cuts + 1);
  }

  /** Opening the children of a field or of an inline fragment, or the body of a spread that is neither
      open nor remembered. */
  lemma StepOpen(w: Walk) returns (w': Walk)
    requires w.top.HasNext() && (w.Next().Nested? || w.Next().Follows?)
    requires w.Next().Follows? ==> KeyOf(w.Next().fragment, w.Next().ty) !in w.memo && w.Next().fragment !in w.Active()
    ensures w' == w.Entering(Entered(w.ctx, w.Next(), w.cuts)).(expansions := w.expansions +
                    if w.Next().Follows? then [KeyOf(w.Next().fragment, w.Next().ty)] else [])
    ensures w'.Left() < w.Left()
    ensures w'.Active() == w.Active() + if w.Next().Follows? then {w.Next().fragment} else {}
  {
    hide Sound, OpenedBy, Descending, StackWork, VisitOf, OpenKeys, OpenNames, IsRank, MemoIsExact, Opens, ExpandedOnce,
         KeyFits;
    hide MemoIsClosed, WalkClosed, WalkedUpTo, AllExpanded;
    var child := Entered(w.ctx, w.Next(), w.cuts);
    NothingWalked(w.ctx, child);
    WalkedIgnoresProgress(w.ctx, w.top, w.top.next);
    OpeningKeepsClosed(WalkedUpTo(w.ctx), w.below, w.top, child, w.cuts, w.base, w.memo.Keys);
    EnteredLevel(w.ctx, w.top.selections[w.top.next], w.top.levelType, w.cuts);
    TakeOpening(w.ctx, w.below, w.top, w.cuts, w.base, child);
    OpeningIsProgress(w.ctx.fragments, w.below, w.top, child);
    OpenedNames(w.below, w.top, child);
    OpeningIsExpanded(w.memo.Keys, w.below, w.top, child, w.expansions, {});
    if w.rank.Some? {
      OpeningDescends(w.ctx.fragments, w.rank.value, w.below, w.top, child);
      OpeningExpands(w.ctx.schema, w.ctx.fragments, w.expansions, w.memo.Keys, w.below, w.top, child);
    }
    w' := w.Entering(child).(expansions := w.expansions + if child.key.Some? then [child.key.value] else []);
  }

  /** Leaving a level; a spread walked without a cut is remembered. */
  lemma StepLeave(w: Walk) returns (w': Walk)
    requires !w.top.HasNext() && w.below != []
    ensures w' == w.(below := Init(w.below),
        top := Last(w.below).(data := Last(w.below).data.Plus(w.top.data.Folded())),
                     memo := Remembered(w.memo, w.top, w.cuts))
    ensures w'.Left() < w.Left() && w'.Active() == w.Active() - w.top.Names()
    ensures forall k <- w.memo :: k in w'.memo && w'.memo[k] == w.memo[k]
  {
    hide Sound, Descending, StackWork, VisitOf, OpenKeys, IsRank, MemoIsExact, ExpandedOnce, MemoIsClosed, WalkClosed,
         WalkedUpTo, AllExpanded;
    var top' := Last(w.below).(data := Last(w.below).data.Plus(w.top.data.Folded()));
    Leave(w.ctx, w.below, w.top, w.cuts, w.base);
    RememberExact(w.ctx, w.memo, w.below, w.top, w.cuts, w.base);
    LeaveClosed(w.ctx, w.below, w.top, top', w.cuts, w.base, w.memo);
    LeavingIsProgress(w.ctx.fragments, w.below, w.top, top'.data);
    LeavingIsExpanded(w.memo.Keys, Remembered(w.memo, w.top, w.cuts).Keys, w.below, w.top, top', w.expansions, {});
    assert ActiveNames(w.below, w.top) == ActiveNames(Init(w.below), top') + w.top.Names();
    if w.rank.Some? {
      DescendingIgnoresData(w.ctx.fragments, w.rank.value, w.below, w.top, w.top.next, w.top.data);
      DescendingIgnoresData(w.ctx.fragments, w.rank.value, Init(w.below), Last(w.below), top'.next, top'.data);
      LeaveRemembers(w.ctx, w.below, w.top, w.cuts, w.memo, w.expansions);
    }
    w' := w.(below := Init(w.below), top := top', memo := Remembered(w.memo, w.top, w.cuts));
  }

  lemma Finish(w: Walk)
    requires !w.top.HasNext() && w.below == []
    ensures w.base <= w.cuts && MemoIsExact(w.ctx, w.memo) && MemoIsClosed(w.ctx, w.memo)
    ensures w.cuts == w.base ==>
              && SetCosts(w.ctx, w.root.selections, w.root.levelType, w.top.data.total)
              && WalkedKeys(w.ctx, w.root.selections, w.root.levelType) <= w.memo.Keys
    ensures w.memo.Keys <= Elements(w.expansions)
    ensures w.rank.Some? ==>
              && w.cuts == w.base && ExpandedOnce(w.ctx.schema, w.ctx.fragments, w.expansions, w.memo.Keys)
              && SetCost(w.ctx, 0, Expand(w.ctx.fragments, |w.ctx.fragments|, w.root.selections), w.root.levelType)
                   == Some(w.top.data.total)
  {
    assert w.top.selections[..w.top.next] == w.root.selections;
    if w.rank.Some? {
      AcyclicReading(w.ctx, w.rank.value, w.root.selections, w.root.levelType, w.top.data.total);
      assert w.memo.Keys + OpenKeys(w.below) + w.top.Keys() == w.memo.Keys;
    }
  }

  // -------------------------------------------------------------------- the walker

  class CostAnalyzer {
    const ctx: Context
    /** Cost of a spread, by fragment and the type it is resolved against. */
    var spreadCosts: map<SpreadKey, int>
    /** How many spreads the path guard cut. */
    var cycleCuts: nat
    /** The spreads whose body was walked, in order. */
    ghost var expansions: seq<SpreadKey>

    ghost predicate Valid()
      reads this
    {
      && MemoIsExact(ctx, spreadCosts) && MemoIsClosed(ctx, spreadCosts) && spreadCosts.Keys <= Elements(expansions)
      && (Acyclic(ctx.fragments) ==> ExpandedOnce(ctx.schema, ctx.fragments, expansions, spreadCosts.Keys))
    }

    constructor (ctx: Context)
      ensures Valid() && this.ctx == ctx && spreadCosts == map[] && expansions == [] && cycleCuts == 0
    {
      this.ctx, spreadCosts, cycleCuts, expansions := ctx, map[], 0, [];
    }

    /** The cost of a selection tree. It terminates on every document, cyclic ones included; the
        result is the recursive cost whenever nothing was cut, and nothing is cut on a document
        without reference cycles, where it is also the cost of the text with all spreads inlined. */
    method SelectionSetCost(selections: seq<Selection>, parentType: TypeName) returns (total: int)
      requires Valid()
      modifies this
      ensures Valid()
      ensures MemoIsExact(ctx, spreadCosts) && MemoIsClosed(ctx, spreadCosts)
      ensures old(cycleCuts) <= cycleCuts
      ensures forall k <- old(spreadCosts) :: k in spreadCosts && spreadCosts[k] == old(spreadCosts)[k]
      ensures cycleCuts == old(cycleCuts) ==>
                && SetCosts(ctx, selections, parentType, total)
                && WalkedKeys(ctx, selections, parentType) <= spreadCosts.Keys
      ensures Acyclic(ctx.fragments) ==>
        && cycleCuts == old(cycleCuts)
        && SetCost(ctx, 0, Expand(ctx.fragments, |ctx.fragments|, selections), parentType) == Some(total)
    {
      ghost var rank: Option<map<Name, nat>> := None;
      if Acyclic(ctx.fragments) {
        var r :| IsRank(ctx.fragments, r);
        rank := Some(r);
      }
      ghost var root := EmptyLevel(selections, parentType, None, None, 0);
      StartIsReachable(ctx, rank, selections, parentType, cycleCuts, spreadCosts, expansions);
      ghost var w: Walk := Moment(ctx, rank, root, cycleCuts, [], root, cycleCuts, spreadCosts, expansions);
      assert w.Active() == {};
      total, w := WalkAll(selections, parentType, w);
      Finish(w);
    }

    method WalkAll(selections: seq<Selection>, parentType: TypeName, ghost start: Walk)
        returns (total: int, ghost w: Walk)
      requires start.root == start.top == EmptyLevel(selections, parentType, None, None, 0)
      requires start == Moment(ctx, start.rank, start.root, cycleCuts, [], start.root, cycleCuts, spreadCosts,
          expansions)
      requires start.Active() == {}
      modifies this
      ensures w == start.(top := w.top, cuts := cycleCuts, memo := spreadCosts, expansions := expansions)
      ensures !w.top.HasNext() && total == w.top.data.total
      ensures forall k <- old(spreadCosts) :: k in spreadCosts && spreadCosts[k] == old(spreadCosts)[k]
    {
      hide Moment.Reachable, StackWork, VisitOf, ActiveNames;
      w := start;
      var below: Levels := [];
      var frame := EmptyLevel(selections, parentType, None, None, 0);
      var active: set<Name> := {};
      while frame.next < |frame.selections| || below != []
        invariant w == start.(below := below, top := frame, cuts := cycleCuts, memo := spreadCosts,
            expansions := expansions)
        invariant active == w.Active()
        invariant forall k <- old(spreadCosts) :: k in spreadCosts && spreadCosts[k] == old(spreadCosts)[k]
        decreases w.Left()
      {
        if frame.next < |frame.selections| {
          var visit := VisitOf(ctx, frame.selections[frame.next], frame.levelType);
          match visit
          case Ignored =>
            w := StepFlat(w);
            frame := frame.Taken(frame.data);
          case Flat(own) =>
            w := StepFlat(w);
            frame := frame.Taken(frame.data.Plus(own));
          case Nested(_, _, _, _) =>
            w := StepOpen(w);
            assert expansions + [] == expansions && active + {} == active;
            below, frame := below + [frame.Taken(frame.data)], Entered(ctx, visit, cycleCuts);
          case Follows(name, target) =>
            if name in active {
              w := StepCut(w);
              cycleCuts := cycleCuts + 1;
              frame := frame.Taken(frame.data);
            } else if KeyOf(name, target) in spreadCosts {
              w := StepRemembered(w);
              frame := frame.Taken(frame.data.Plus(spreadCosts[KeyOf(name, target)]));
            } else {
              w := StepOpen(w);
              active := active + {name};
              expansions := expansions + [KeyOf(name, target)];
              below, frame := below + [frame.Taken(frame.data)], Entered(ctx, visit, cycleCuts);
            }
        } else {
          w := StepLeave(w);
          if frame.key.Some? {
            active := active - {frame.key.value.0};
            if frame.cutsBefore == cycleCuts {
              spreadCosts := spreadCosts[frame.key.value := frame.data.total];
            }
          }
          below, frame := Init(below), Last(below).(data := Last(below).data.Plus(frame.data.Folded()));
        }
      }
      return frame.data.total, w;
    }
  }
}
