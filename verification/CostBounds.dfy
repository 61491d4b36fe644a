/** The cost checked before execution against the cost of the same query once its variables are bound.
    The check sees no variables and no document-declared defaults, so it must never under-count. */
module CostBounds {
  import opened Options
  import opened Document
  import opened Cost

  /** The context of the validation rule: bound values and declared defaults are not looked at. */
  function Unbound(ctx: Context): Context {
    ctx.(variables := map[], defaults := map[])
  }

  /** The settings under which a page size the document does not tell is never under-estimated. */
  predicate BoundsPages(settings: CostSettings) {
    && Fallback(settings) >= 0
    && (IsSet(settings.maxPageSize) || settings.paginationArguments == {})
  }

  /** A selection that is provably skipped without variables is skipped under every binding. */
  lemma SkippedWhateverIsBound(s: Selection, variables: Variables)
    requires IsSkipped(s, map[])
    ensures IsSkipped(s, variables)
  {
  }

  lemma {:induction false} PagesAreBounded(ctx: Context, arguments: seq<Argument>)
    ensures PageSizeArgument(Unbound(ctx), arguments) in {None, PageSizeArgument(ctx, arguments)}
  {
    if arguments != [] && !IsPaginationArgument(ctx.settings, arguments[0].name) {
      PagesAreBounded(ctx, arguments[1..]);
    }
  }

  lemma {:induction false} NoPaginationArguments(ctx: Context, arguments: seq<Argument>)
    requires ctx.settings.paginationArguments == {}
    ensures PageSizeArgument(ctx, arguments) == None
  {
    if arguments != [] {
      NoPaginationArguments(ctx, arguments[1..]);
    }
  }

  lemma MultipliersAreBounded(ctx: Context, head: FieldHead, ref: TypeRef)
    requires BoundsPages(ctx.settings)
    ensures 0 <= ListMultiplier(ctx, head, ref) <= ListMultiplier(Unbound(ctx), head, ref)
  {
    if ctx.settings.paginationArguments == {} {
      NoPaginationArguments(ctx, head.arguments);
    }
    PagesAreBounded(ctx, head.arguments);
  }

  lemma OwnCostIsBlind(ctx: Context, head: FieldHead, ty: TypeName, hasChildren: bool)
    ensures 0 <= OwnCost(ctx, head, ty, hasChildren) == OwnCost(Unbound(ctx), head, ty, hasChildren)
  {
    assert CustomDirectives(head.directives) * Max(OrElse(ctx.settings.directiveWeight, 0), 0) >= 0;
  }

  /** Binding variables can only skip a selection or lower its multiplier. */
  lemma VisitsCompared(ctx: Context, s: Selection, ty: TypeName)
    requires BoundsPages(ctx.settings)
    ensures var bound, unbound := VisitOf(ctx, s, ty), VisitOf(Unbound(ctx), s, ty);
            || bound.Ignored?
            || (bound.Flat? && 0 <= bound.own && unbound == bound)
            || (bound.Follows? && unbound == bound)
            || (bound.Nested? && 0 <= bound.own && 0 <= bound.multiplier && unbound.Nested?
                && unbound == bound.(multiplier := unbound.multiplier) && bound.multiplier <= unbound.multiplier)
    ensures var unbound := VisitOf(Unbound(ctx), s, ty);
            && (unbound.Flat? ==> 0 <= unbound.own)
            && (unbound.Nested? ==> 0 <= unbound.own && 0 <= unbound.multiplier)
  {
    if IsSkipped(s, map[]) {
      SkippedWhateverIsBound(s, ctx.variables);
    } else if s.Leaf? || s.Object? {
      var fields := FieldsOf(ctx.schema, ty);
      if s.head.name in fields {
        OwnCostIsBlind(ctx, s.head, NamedType(fields[s.head.name]), s.Object?);
        MultipliersAreBounded(ctx, s.head, fields[s.head.name]);
      }
    }
  }

  lemma ProductIsMonotone(m: int, n: int, a: int, b: int)
    requires 0 <= m <= n && 0 <= a <= b
    ensures 0 <= m * a <= n * b
  {
    calc { m * a; <= { assert m * (b - a) >= 0; } m * b; <= { assert (n - m) * b >= 0; } n * b; }
  }

  /** The validated cost is at least the cost under every binding, over the whole expanded query. */
  lemma {:induction false} ValidationNeverUndercounts(ctx: Context, depth: nat, ss: seq<Selection>, ty: TypeName)
    requires BoundsPages(ctx.settings)
    requires SetCost(Unbound(ctx), depth, ss, ty).Some?
    ensures SetCost(ctx, depth, ss, ty).Some?
    ensures 0 <= SetCost(ctx, depth, ss, ty).value <= SetCost(Unbound(ctx), depth, ss, ty).value
    decreases depth, ss
  {
    if ss != [] {
      var last := ss[|ss| - 1];
      ValidationNeverUndercounts(ctx, depth, ss[..|ss| - 1], ty);
      VisitsCompared(ctx, last, ty);
      match VisitOf(Unbound(ctx), last, ty)
      case Nested(children, target, _, multiplier) =>
        ValidationNeverUndercounts(ctx, depth, children, target);
        var v := VisitOf(ctx, last, ty);
        var sum := SetCost(Unbound(ctx), depth, children, target).value;
        ProductIsMonotone(0, multiplier, 0, sum);
        if v.Nested? {
          ProductIsMonotone(v.multiplier, multiplier, SetCost(ctx, depth, children, target).value, sum);
        }
      case Follows(name, target) => ValidationNeverUndercounts(ctx, depth - 1, Body(ctx, name), target);
      case _ =>
    }
  }

  /** No query of any schema costs more when its variables are bound than when it is validated. */
  ghost predicate NeverUndercounts(settings: CostSettings) {
    forall ctx: Context, depth: nat, ss: seq<Selection>, ty: TypeName
      {:trigger SetCost(Unbound(ctx), depth, ss, ty), SetCost(ctx, depth, ss, ty)} |
      ctx.settings == settings && SetCost(Unbound(ctx), depth, ss, ty).Some? && SetCost(ctx, depth, ss, ty).Some? ::
      SetCost(ctx, depth, ss, ty).value <= SetCost(Unbound(ctx), depth, ss, ty).value
  }

  // Witnesses: one list field over one object field.

  const SCHEMA := Schema(
    map["T" := TypeDef(map["items" := ListOf(Named("T")), "item" := Named("T")], None, None, false)], map[])

  function Item(directives: seq<Directive>): Selection { Object(FieldHead(1, "item", [], directives), []) }

  function Items(arguments: seq<Argument>, directives: seq<Directive>): Selection {
    Object(FieldHead(0, "items", arguments, []), [Item(directives)])
  }

  lemma SingletonCost(ctx: Context, s: Selection, ty: TypeName)
    requires SelectionCost(ctx, 0, s, ty).Some?
    ensures SetCost(ctx, 0, [s], ty) == SelectionCost(ctx, 0, s, ty)
  {
    assert [s][..0] == [];
    assert SetCost(ctx, 0, [], ty) == Some(0);
  }

  lemma ItemCost(ctx: Context, directives: seq<Directive>)
    requires ctx.schema == SCHEMA && CustomDirectives(directives) == 0
    ensures SetCost(ctx, 0, [Item(directives)], "T")
        == Some(if IsSkipped(Item(directives), ctx.variables) then 0 else 1)
  {
    var item := Item(directives);
    assert SetCost(ctx, 0, [], "T") == Some(0);
    if !IsSkipped(item, ctx.variables) {
      assert VisitOf(ctx, item, "T") == Nested([], "T", 1, 1);
    }
    SingletonCost(ctx, item, "T");
  }

  lemma ItemsVisit(ctx: Context, arguments: seq<Argument>, directives: seq<Directive>)
    requires ctx.schema == SCHEMA
    ensures VisitOf(ctx, Items(arguments, directives), "T")
         == Nested([Item(directives)], "T", 1,
             ListMultiplier(ctx, FieldHead(0, "items", arguments, []), ListOf(Named("T"))))
  {
    assert !IsSkipped(Items(arguments, directives), ctx.variables);
  }

  lemma ItemsCost(ctx: Context, arguments: seq<Argument>, directives: seq<Directive>)
    requires ctx.schema == SCHEMA && CustomDirectives(directives) == 0
    ensures var kept := if IsSkipped(Item(directives), ctx.variables) then 0 else 1;
            SetCost(ctx, 0, [Items(arguments, directives)], "T")
              == Some(1 + ListMultiplier(ctx, FieldHead(0, "items", arguments, []), ListOf(Named("T"))) * kept)
  {
    hide VisitOf, ListMultiplier, IsSkipped, CustomDirectives;
    ItemCost(ctx, directives);
    ItemsVisit(ctx, arguments, directives);
    SingletonCost(ctx, Items(arguments, directives), "T");
  }

  /** With a negative multiplier, a skip decided by a variable raises the cost. */
  lemma NegativeMultiplierUndercounts(settings: CostSettings)
    requires Fallback(settings) < 0
    ensures !NeverUndercounts(settings)
  {
    var ctx := Context(SCHEMA, map[], settings, map["v" := BoundBoolean(true)], map[]);
    var directives := [Directive("skip", Some(VariableValue("v")))];
    ItemsCost(ctx, [], directives);
    ItemsCost(Unbound(ctx), [], directives);
    var ss := [Items([], directives)];
    assert SetCost(Unbound(ctx), 0, ss, "T").value < SetCost(ctx, 0, ss, "T").value;
  }

  /** Without a page-size ceiling, a variable page size can exceed the soft default. */
  lemma UncappedPageUndercounts(settings: CostSettings)
    requires Fallback(settings) >= 0 && !IsSet(settings.maxPageSize) && settings.paginationArguments != {}
    ensures !NeverUndercounts(settings)
  {
    var p :| p in settings.paginationArguments;
    var size := Fallback(settings) + 1;
    var ctx := Context(SCHEMA, map[], settings, map["n" := BoundOther(Some(size))], map[]);
    var arguments := [Argument(p, VariableValue("n"))];
    assert PageSizeArgument(ctx, arguments) == Some(size);
    assert PageSizeArgument(Unbound(ctx), arguments) == None;
    ItemsCost(ctx, arguments, []);
    ItemsCost(Unbound(ctx), arguments, []);
    var ss := [Items(arguments, [])];
    assert SetCost(Unbound(ctx), 0, ss, "T").value < SetCost(ctx, 0, ss, "T").value;
  }

  /** Exactly which settings keep the check from under-counting: a non-negative fallback multiplier
      and either a page-size ceiling or no argument read as a page size. */
  lemma UndercountingSettings(settings: CostSettings)
    ensures NeverUndercounts(settings) <==> BoundsPages(settings)
  {
    if BoundsPages(settings) {
      forall ctx: Context, depth: nat, ss: seq<Selection>, ty: TypeName
        | ctx.settings == settings && SetCost(Unbound(ctx), depth, ss, ty).Some? && SetCost(ctx, depth, ss, ty).Some?
        ensures SetCost(ctx, depth, ss, ty).value <= SetCost(Unbound(ctx), depth, ss, ty).value
      {
        ValidationNeverUndercounts(ctx, depth, ss, ty);
      }
    } else if Fallback(settings) < 0 {
      NegativeMultiplierUndercounts(settings);
    } else {
      UncappedPageUndercounts(settings);
    }
  }
}
