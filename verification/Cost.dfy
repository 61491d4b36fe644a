/** What a query costs: own weight plus multiplier times the sum of the children. */
module Cost {
  import opened Options
  import opened Document
  import NameCase

  /** The settings the analyzer reads. A page size of zero and an absent one are both "not set". */
  datatype CostSettings = CostSettings(
    maxPageSize: Option<int>,
    defaultPageSize: Option<int>,
    defaultListMultiplier: Option<int>,
    directiveWeight: Option<int>,
    paginationArguments: set<string>)

  datatype Context = Context(
    schema: Schema,
    fragments: Fragments,
    settings: CostSettings,
    variables: Variables,
    defaults: map<Name, Value>)

  predicate IsSet(n: Option<int>) {
    n.Some? && n.value != 0
  }

  function OrElse(n: Option<int>, other: int): int {
    if IsSet(n) then n.value else other
  }

  // ---------------------------------------------------------- weight of a field

  function Complexity(schema: Schema, ty: TypeName): Option<int> {
    if ty in schema.types && schema.types[ty].complexity.Some? && schema.types[ty].complexity.value >= 0
    then schema.types[ty].complexity else None
  }

  function CustomDirectives(directives: seq<Directive>): (n: nat)
    ensures n <= |directives|
  {
    if directives == [] then 0
    else CustomDirectives(directives[1..]) + if directives[0].name in {"skip", "include"} then 0 else 1
  }

  function Max(a: int, b: int): int { if a >= b then a else b }
  function Min(a: int, b: int): int { if a <= b then a else b }

  function DirectiveCost(settings: CostSettings, directives: seq<Directive>): int {
    CustomDirectives(directives) * Max(OrElse(settings.directiveWeight, 0), 0)
  }

  function OwnCost(ctx: Context, head: FieldHead, ty: TypeName, hasChildren: bool): int {
    (match Complexity(ctx.schema, ty)
     case Some(n) => n
     case None => if hasChildren then 1 else 0)
    + DirectiveCost(ctx.settings, head.directives)
  }

  // ------------------------------------------------------------- list multiplier

  predicate WrapsList(ref: TypeRef) {
    match ref
    case Named(_) => false
    case ListOf(_) => true
    case NonNull(inner) => WrapsList(inner)
  }

  /** A list, or the object container of a paginated list. */
  predicate IsListField(schema: Schema, ref: TypeRef) {
    || WrapsList(ref)
    || (NamedType(ref) in schema.types && schema.types[NamedType(ref)].listContainer)
  }

  predicate IsPaginationArgument(settings: CostSettings, name: Name) {
    NameCase.ToSnakeCase(name) in set p <- settings.paginationArguments :: NameCase.ToSnakeCase(p)
  }

  function PageSizeValue(value: Value, variables: Variables, defaults: map<Name, Value>): Option<int> {
    match value
    case IntegerValue(n) => Some(n)
    case VariableValue(v) =>
      if v in variables then
        (match variables[v]
         case BoundBoolean(b) => Some(if b then 1 else 0)
         case BoundOther(n) => n)
      else if v in defaults && defaults[v].IntegerValue? then Some(defaults[v].number)
      else None
    case _ => None
  }

  /** The first pagination argument decides, even when its value resolves to nothing. */
  function PageSizeArgument(ctx: Context, arguments: seq<Argument>): Option<int> {
    if arguments == [] then None
    else if IsPaginationArgument(ctx.settings, arguments[0].name) then
      PageSizeValue(arguments[0].value, ctx.variables, ctx.defaults)
    else PageSizeArgument(ctx, arguments[1..])
  }

  /** The multiplier of a list field whose page size the document does not tell. */
  function Fallback(settings: CostSettings): int {
    OrElse(settings.maxPageSize, OrElse(settings.defaultPageSize, OrElse(settings.defaultListMultiplier, 1)))
  }

  function ListMultiplier(ctx: Context, head: FieldHead, ref: TypeRef): int {
    if !IsListField(ctx.schema, ref) then 1
    else
      match PageSizeArgument(ctx, head.arguments)
      case None => Fallback(ctx.settings)
      case Some(n) =>
        var size := Max(n, 0);
        if IsSet(ctx.settings.maxPageSize) then Min(size, ctx.settings.maxPageSize.value) else size
  }

  // ------------------------------------------------------------------- the cost

  /** What a selection contributes when it is resolved against a type. */
  datatype Visit =
    | Ignored                                    // skipped, introspection, unknown field or unknown fragment
    | Flat(own: int)                             // a field without children
    | Nested(children: seq<Selection>, ty: TypeName, own: int, multiplier: int)
    | Follows(fragment: Name, ty: TypeName)      // a spread of a known fragment

  function VisitField(ctx: Context, head: FieldHead, ty: TypeName, children: Option<seq<Selection>>): Visit {
    var fields := FieldsOf(ctx.schema, ty);
    if IsIntrospection(head.name) || head.name !in fields then Ignored
    else
      var target := NamedType(fields[head.name]);
      match children
      case None => Flat(OwnCost(ctx, head, target, false))
      case Some(ss) => Nested(ss, target, OwnCost(ctx, head, target, true),
          ListMultiplier(ctx, head, fields[head.name]))
  }

  function VisitOf(ctx: Context, s: Selection, ty: TypeName): (v: Visit)
    ensures v.Nested? ==> (s.Object? || s.Inline?) && v.children == s.children
    ensures v.Follows? ==> s.Spread? && v.fragment == s.fragment && v.fragment in ctx.fragments
  {
    if IsSkipped(s, ctx.variables) then Ignored
    else
      match s
      case Leaf(head) => VisitField(ctx, head, ty, None)
      case Object(head, children) => VisitField(ctx, head, ty, Some(children))
      case Inline(condition, _, children) => Nested(children, InlineType(ctx.schema, condition, ty), 0, 1)
      case Spread(name, _) =>
        if name !in ctx.fragments then Ignored
        else Follows(name, Narrowed(ctx.schema, ctx.fragments[name].condition, ty))
  }

  function Body(ctx: Context, name: Name): seq<Selection>
    requires name in ctx.fragments
  {
    ctx.fragments[name].selections
  }

  /** The cost of one selection resolved against a type, by plain recursion. `depth` bounds how many
      spreads may be nested; None says that the bound was reached. Nothing is remembered between
      selections and no spread is ever cut. */
  function SelectionCost(ctx: Context, depth: nat, s: Selection, ty: TypeName): Option<int>
    decreases depth, s
  {
    match VisitOf(ctx, s, ty)
    case Ignored => Some(0)
    case Flat(own) => Some(own)
    case Nested(children, target, own, multiplier) => Weighted(own, multiplier, SetCost(ctx, depth, children, target))
    case Follows(name, target) => if depth == 0 then None else SetCost(ctx, depth - 1, Body(ctx, name), target)
  }

  function Weighted(own: int, multiplier: int, sum: Option<int>): Option<int> {
    match sum
    case None => None
    case Some(n) => Some(own + multiplier * n)
  }

  function SetCost(ctx: Context, depth: nat, ss: seq<Selection>, ty: TypeName): Option<int>
    decreases depth, ss
  {
    if ss == [] then Some(0)
    else Plus(SetCost(ctx, depth, ss[..|ss| - 1], ty), SelectionCost(ctx, depth, ss[|ss| - 1], ty))
  }

  function Plus(a: Option<int>, b: Option<int>): Option<int> {
    if a.Some? && b.Some? then Some(a.value + b.value) else None
  }

  /** The recursion ends, and ends at `total`. */
  ghost predicate SelectionCosts(ctx: Context, s: Selection, ty: TypeName, total: int) {
    exists depth: nat :: SelectionCost(ctx, depth, s, ty) == Some(total)
  }

  ghost predicate SetCosts(ctx: Context, ss: seq<Selection>, ty: TypeName, total: int) {
    exists depth: nat :: SetCost(ctx, depth, ss, ty) == Some(total)
  }

  /** A larger bound never changes a cost that is already known. */
  lemma {:induction false} DeeperSelection(ctx: Context, d: nat, e: nat, s: Selection, ty: TypeName)
    requires d <= e && SelectionCost(ctx, d, s, ty).Some?
    ensures SelectionCost(ctx, e, s, ty) == SelectionCost(ctx, d, s, ty)
    decreases d, s
  {
    match VisitOf(ctx, s, ty)
    case Nested(children, target, _, _) => DeeperSet(ctx, d, e, children, target);
    case Follows(name, target) => DeeperSet(ctx, d - 1, e - 1, Body(ctx, name), target);
    case _ =>
  }

  lemma {:induction false} DeeperSet(ctx: Context, d: nat, e: nat, ss: seq<Selection>, ty: TypeName)
    requires d <= e && SetCost(ctx, d, ss, ty).Some?
    ensures SetCost(ctx, e, ss, ty) == SetCost(ctx, d, ss, ty)
    decreases d, ss
  {
    if ss != [] {
      DeeperSet(ctx, d, e, ss[..|ss| - 1], ty);
      DeeperSelection(ctx, d, e, ss[|ss| - 1], ty);
    }
  }

  lemma CostIsUnique(ctx: Context, ss: seq<Selection>, ty: TypeName, a: int, b: int)
    requires SetCosts(ctx, ss, ty, a) && SetCosts(ctx, ss, ty, b)
    ensures a == b
  {
    var d: nat :| SetCost(ctx, d, ss, ty) == Some(a);
    var e: nat :| SetCost(ctx, e, ss, ty) == Some(b);
    if d <= e { DeeperSet(ctx, d, e, ss, ty); } else { DeeperSet(ctx, e, d, ss, ty); }
  }

  /** Selections add up. */
  lemma SetCostsSnoc(ctx: Context, ss: seq<Selection>, s: Selection, ty: TypeName, a: int, b: int)
    requires SetCosts(ctx, ss, ty, a) && SelectionCosts(ctx, s, ty, b)
    ensures SetCosts(ctx, ss + [s], ty, a + b)
  {
    var d: nat :| SetCost(ctx, d, ss, ty) == Some(a);
    var e: nat :| SelectionCost(ctx, e, s, ty) == Some(b);
    DeeperSet(ctx, d, d + e, ss, ty);
    DeeperSelection(ctx, e, d + e, s, ty);
    assert (ss + [s])[..|ss|] == ss;
    assert SetCost(ctx, d + e, ss + [s], ty) == Some(a + b);
  }

  // -------------------------------------------------------------- main readings

  /** Without reference cycles the recursion ends, whatever the selections and the type. */
  lemma {:induction false} AcyclicCostIsDefined(ctx: Context, rank: map<Name, nat>, depth: nat,
      ss: seq<Selection>, ty: TypeName)
    requires IsRank(ctx.fragments, rank)
    requires forall g <- ctx.fragments :: g in SpreadsIn(ss) ==> rank[g] < depth
    ensures SetCost(ctx, depth, ss, ty).Some?
    decreases depth, ss
  {
    if ss != [] {
      var init, last := ss[..|ss| - 1], ss[|ss| - 1];
      assert SpreadsIn(ss) == SpreadsIn(init) + SpreadsOf(last);
      AcyclicCostIsDefined(ctx, rank, depth, init, ty);
      match VisitOf(ctx, last, ty)
      case Nested(children, target, _, _) => AcyclicCostIsDefined(ctx, rank, depth, children, target);
      case Follows(name, target) => AcyclicCostIsDefined(ctx, rank, depth - 1, Body(ctx, name), target);
      case _ =>
    }
  }

  /** Replacing a known spread by the inline fragment with its type condition, directives and body,
      and expanding inside, changes how a selection is visited in no other way. */
  lemma VisitOfExpanded(ctx: Context, depth: nat, s: Selection, ty: TypeName)
    ensures var x := ExpandSelection(ctx.fragments, depth, s);
            VisitOf(ctx, x, ty) ==
              match VisitOf(ctx, s, ty)
              case Nested(children, target, own, multiplier) =>
                Nested(Expand(ctx.fragments, depth, children), target, own, multiplier)
              case Follows(name, target) =>
                if depth == 0 then Follows(name, target)
                else Nested(Expand(ctx.fragments, depth - 1, Body(ctx, name)), target, 0, 1)
              case other => other
  {
    assert IsSkipped(ExpandSelection(ctx.fragments, depth, s), ctx.variables) == IsSkipped(s, ctx.variables);
  }

  /** Inlining spreads keeps the cost: the expanded text, costed without following any spread,
      costs what the document costs. */
  lemma {:induction false} ExpansionKeepsCost(ctx: Context, depth: nat, ss: seq<Selection>, ty: TypeName)
    requires SetCost(ctx, depth, ss, ty).Some?
    ensures SetCost(ctx, 0, Expand(ctx.fragments, depth, ss), ty) == SetCost(ctx, depth, ss, ty)
    decreases depth, ss
  {
    if ss != [] {
      var init, last := ss[..|ss| - 1], ss[|ss| - 1];
      var e, x := Expand(ctx.fragments, depth, init), ExpandSelection(ctx.fragments, depth, last);
      assert (e + [x])[..|e|] == e && (e + [x])[|e|] == x;
      ExpansionKeepsCost(ctx, depth, init, ty);
      VisitOfExpanded(ctx, depth, last, ty);
      match VisitOf(ctx, last, ty)
      case Nested(children, target, _, _) => ExpansionKeepsCost(ctx, depth, children, target);
      case Follows(name, target) => ExpansionKeepsCost(ctx, depth - 1, Body(ctx, name), target);
      case _ =>
    }
  }

  // ------------------------------------------------------- inlining anywhere keeps costs

  predicate VisitInlines(ctx: Context, v: Visit, v': Visit) {
    if v.Nested? then v'.Nested? && v' == v.(children := v'.children) && Inlines(ctx.fragments, v.children, v'.children)
    else if v.Follows? && v'.Nested? then
      v' == Nested(v'.children, v.ty, 0, 1) && v.fragment in ctx.fragments
          && Inlines(ctx.fragments, Body(ctx, v.fragment), v'.children)
    else v' == v
  }

  /** A replaced spread is visited like the spread, and any other selection like itself. */
  lemma InlinedVisit(ctx: Context, fragments': Fragments, s: Selection, s': Selection, ty: TypeName)
    requires BodiesInline(ctx.fragments, fragments') && InlinesOne(ctx.fragments, s, s')
    ensures VisitInlines(ctx, VisitOf(ctx, s, ty), VisitOf(ctx.(fragments := fragments'), s', ty))
  {
    hide IsSkipped, ListMultiplier, OwnCost;
    assert s.Directives() == s'.Directives();
    SkippedByDirectives(s, s', ctx.variables);
    if s.Object? || s.Leaf? {
      var fields := FieldsOf(ctx.schema, ty);
      if s.head.name in fields { WeightsIgnoreFragments(ctx, fragments', s.head, fields[s.head.name], s.Object?); }
    }
  }

  lemma SkippedByDirectives(s: Selection, s': Selection, variables: Variables)
    requires s.Directives() == s'.Directives()
    ensures IsSkipped(s, variables) == IsSkipped(s', variables)
  {
  }

  lemma WeightsIgnoreFragments(ctx: Context, fragments': Fragments, head: FieldHead, ref: TypeRef, hasChildren: bool)
    ensures OwnCost(ctx.(fragments := fragments'), head, NamedType(ref), hasChildren)
        == OwnCost(ctx, head, NamedType(ref), hasChildren)
    ensures ListMultiplier(ctx.(fragments := fragments'), head, ref) == ListMultiplier(ctx, head, ref)
  {
    PagesIgnoreFragments(ctx, fragments', head.arguments);
  }

  lemma {:induction false} PagesIgnoreFragments(ctx: Context, fragments': Fragments, arguments: seq<Argument>)
    ensures PageSizeArgument(ctx.(fragments := fragments'), arguments) == PageSizeArgument(ctx, arguments)
  {
    if arguments != [] { PagesIgnoreFragments(ctx, fragments', arguments[1..]); }
  }

  lemma {:induction false} InlinedCost(ctx: Context, fragments': Fragments, d: nat, ss: seq<Selection>,
      ss': seq<Selection>, ty: TypeName)
    requires BodiesInline(ctx.fragments, fragments') && Inlines(ctx.fragments, ss, ss')
    requires SetCost(ctx, d, ss, ty).Some?
    ensures SetCost(ctx.(fragments := fragments'), d, ss', ty) == SetCost(ctx, d, ss, ty)
    decreases d, ss'
  {
    hide VisitOf, BodiesInline, InlinesOne;
    if ss' != [] {
      var ctx', last, last' := ctx.(fragments := fragments'), ss[|ss| - 1], ss'[|ss'| - 1];
      InlinedCost(ctx, fragments', d, ss[..|ss| - 1], ss'[..|ss'| - 1], ty);
      InlinedVisit(ctx, fragments', last, last', ty);
      var v' := VisitOf(ctx', last', ty);
      match VisitOf(ctx, last, ty) {
        case Nested(children, target, _, _) =>
          LastOfNested(ctx', last', ty, ss');
          InlinedCost(ctx, fragments', d, children, v'.children, target);
        case Follows(name, target) =>
          if v'.Nested? {
            InlinedCost(ctx, fragments', d - 1, Body(ctx, name), v'.children, target);
            DeeperSet(ctx', d - 1, d, v'.children, target);
          } else {
            BodyInlines(ctx, fragments', name);
            InlinedCost(ctx, fragments', d - 1, Body(ctx, name), Body(ctx', name), target);
          }
        case _ =>
      }
    }
  }

  lemma LastOfNested(ctx: Context, s: Selection, ty: TypeName, ss: seq<Selection>)
    requires ss != [] && s == ss[|ss| - 1] && VisitOf(ctx, s, ty).Nested?
    ensures VisitOf(ctx, s, ty).children == s.children
  {
  }

  lemma BodyInlines(ctx: Context, fragments': Fragments, name: Name)
    requires BodiesInline(ctx.fragments, fragments') && name in ctx.fragments
    ensures name in fragments' && Inlines(ctx.fragments, Body(ctx, name), Body(ctx.(fragments := fragments'), name))
  {
  }

  lemma {:induction false} OriginalCost(ctx: Context, fragments': Fragments, d: nat, ss: seq<Selection>,
      ss': seq<Selection>, ty: TypeName)
    requires BodiesInline(ctx.fragments, fragments') && Inlines(ctx.fragments, ss, ss')
    requires SetCost(ctx.(fragments := fragments'), d, ss', ty).Some?
    ensures SetCosts(ctx, ss, ty, SetCost(ctx.(fragments := fragments'), d, ss', ty).value)
    decreases d, ss'
  {
    hide VisitOf, BodiesInline, InlinesOne;
    if ss' == [] {
      assert SetCost(ctx, 0, ss, ty) == Some(0);
    } else {
      var ctx', last, last' := ctx.(fragments := fragments'), ss[|ss| - 1], ss'[|ss'| - 1];
      var init, init' := ss[..|ss| - 1], ss'[..|ss'| - 1];
      OriginalCost(ctx, fragments', d, init, init', ty);
      InlinedVisit(ctx, fragments', last, last', ty);
      var v' := VisitOf(ctx', last', ty);
      match VisitOf(ctx, last, ty) {
        case Nested(children, target, _, _) => OriginalCost(ctx, fragments', d, children, v'.children, target);
        case Follows(name, target) =>
          if v'.Nested? {
            OriginalCost(ctx, fragments', d, Body(ctx, name), v'.children, target);
          } else {
            BodyInlines(ctx, fragments', name);
            OriginalCost(ctx, fragments', d - 1, Body(ctx, name), Body(ctx', name), target);
          }
        case _ =>
      }
      LastCost(ctx, last, ty, ctx', last', d);
      assert ss == init + [last];
      SetCostsSnoc(ctx, init, last, ty, SetCost(ctx', d, init', ty).value, SelectionCost(ctx', d, last', ty).value);
    }
  }

  /** What a visit descends into costs the same as what the other one descends into. */
  ghost predicate CarriesCost(ctx: Context, v: Visit, ctx': Context, v': Visit, d: nat) {
    if v.Nested? then
      && v'.Nested? && v' == v.(children := v'.children) && SetCost(ctx', d, v'.children, v'.ty).Some?
      && SetCosts(ctx, v.children, v.ty, SetCost(ctx', d, v'.children, v'.ty).value)
    else if v.Follows? && v'.Nested? then
      && v' == Nested(v'.children, v.ty, 0, 1) && v.fragment in ctx.fragments
      && SetCost(ctx', d, v'.children, v'.ty).Some?
      && SetCosts(ctx, Body(ctx, v.fragment), v.ty, SetCost(ctx', d, v'.children, v'.ty).value)
    else if v.Follows? then
      && v' == v && d > 0 && v.fragment in ctx.fragments && v.fragment in ctx'.fragments
      && SetCost(ctx', d - 1, Body(ctx', v.fragment), v.ty).Some?
      && SetCosts(ctx, Body(ctx, v.fragment), v.ty, SetCost(ctx', d - 1, Body(ctx', v.fragment), v.ty).value)
    else v' == v
  }

  lemma LastCost(ctx: Context, s: Selection, ty: TypeName, ctx': Context, s': Selection, d: nat)
    requires SelectionCost(ctx', d, s', ty).Some?
    requires CarriesCost(ctx, VisitOf(ctx, s, ty), ctx', VisitOf(ctx', s', ty), d)
    ensures SelectionCosts(ctx, s, ty, SelectionCost(ctx', d, s', ty).value)
  {
    var total := SelectionCost(ctx', d, s', ty).value;
    match VisitOf(ctx, s, ty)
    case Nested(children, target, _, _) =>
      var e: nat :| SetCost(ctx, e, children, target)
          == Some(SetCost(ctx', d, VisitOf(ctx', s', ty).children, target).value);
      assert SelectionCost(ctx, e, s, ty) == Some(total);
    case Follows(name, target) =>
      var e: nat :| SetCost(ctx, e, Body(ctx, name), target) == Some(total);
      assert SelectionCost(ctx, e + 1, s, ty) == Some(total);
    case _ =>
      assert SelectionCost(ctx, 0, s, ty) == Some(total);
  }

  /** Replacing known spreads by inline fragments, at any places of a selection set and of the fragments'
      bodies, keeps the cost; on documents with reference cycles too, where neither may have one. */
  lemma InliningKeepsCost(ctx: Context, fragments': Fragments, ss: seq<Selection>, ss': seq<Selection>, ty: TypeName,
      total: int)
    requires BodiesInline(ctx.fragments, fragments') && Inlines(ctx.fragments, ss, ss')
    ensures SetCosts(ctx, ss, ty, total) <==> SetCosts(ctx.(fragments := fragments'), ss', ty, total)
  {
    if d: nat :| SetCost(ctx, d, ss, ty) == Some(total) {
      InlinedCost(ctx, fragments', d, ss, ss', ty);
      assert SetCost(ctx.(fragments := fragments'), d, ss', ty) == Some(total);
    }
    if d: nat :| SetCost(ctx.(fragments := fragments'), d, ss', ty) == Some(total) {
      OriginalCost(ctx, fragments', d, ss, ss', ty);
    }
  }

  // ----------------------------------------------------- a known cost rules out cycles

  /** The spreads a selection walks, with the types their bodies are resolved against, without what
      those bodies walk in turn. */
  function WalkedBy(ctx: Context, s: Selection, ty: TypeName): set<(Name, TypeName)>
    decreases s
  {
    match VisitOf(ctx, s, ty)
    case Nested(children, target, _, _) => WalkedIn(ctx, children, target)
    case Follows(name, target) => {(name, target)}
    case _ => {}
  }

  function WalkedIn(ctx: Context, ss: seq<Selection>, ty: TypeName): set<(Name, TypeName)>
    decreases ss
  {
    if ss == [] then {} else WalkedIn(ctx, ss[..|ss| - 1], ty) + WalkedBy(ctx, ss[|ss| - 1], ty)
  }

  /** The least number of nested spreads at which the cost of a spread's body is known. */
  ghost predicate KnownFrom(ctx: Context, k: (Name, TypeName), d: nat) {
    && k.0 in ctx.fragments && SetCost(ctx, d, Body(ctx, k.0), k.1).Some?
    && (d > 0 ==> SetCost(ctx, d - 1, Body(ctx, k.0), k.1).None?)
  }

  lemma {:induction false} WalkedAreKnown(ctx: Context, d: nat, ss: seq<Selection>, ty: TypeName, k: (Name, TypeName))
    requires SetCost(ctx, d, ss, ty).Some? && k in WalkedIn(ctx, ss, ty)
    ensures d > 0 && k.0 in ctx.fragments && SetCost(ctx, d - 1, Body(ctx, k.0), k.1).Some?
    decreases ss
  {
    var init, last := ss[..|ss| - 1], ss[|ss| - 1];
    if k in WalkedIn(ctx, init, ty) {
      WalkedAreKnown(ctx, d, init, ty, k);
    } else {
      match VisitOf(ctx, last, ty)
      case Nested(children, target, _, _) => WalkedAreKnown(ctx, d, children, target, k);
      case _ =>
    }
  }

  lemma {:induction false} KnownFromSome(ctx: Context, k: (Name, TypeName), d: nat) returns (e: nat)
    requires k.0 in ctx.fragments && SetCost(ctx, d, Body(ctx, k.0), k.1).Some?
    ensures e <= d && KnownFrom(ctx, k, e)
    decreases d
  {
    if d > 0 && SetCost(ctx, d - 1, Body(ctx, k.0), k.1).Some? { e := KnownFromSome(ctx, k, d - 1); } else { e := d; }
  }

  /** Along the spreads a costed body walks, the depth at which costs are known strictly falls: whatever a
      known cost depends on is known, and none of it depends on itself. */
  lemma KnownCostsAreWellFounded(ctx: Context, k: (Name, TypeName), d: nat, walked: (Name, TypeName)) returns (e: nat)
    requires KnownFrom(ctx, k, d) && walked in WalkedIn(ctx, Body(ctx, k.0), k.1)
    ensures e < d && KnownFrom(ctx, walked, e)
  {
    WalkedAreKnown(ctx, d, Body(ctx, k.0), k.1, walked);
    e := KnownFromSome(ctx, walked, d - 1);
  }
}
