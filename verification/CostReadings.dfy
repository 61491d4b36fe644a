/** What a text costs, said of its nodes: for each field its weight, its page size and what its type declares;
    and that this is the cost the analyzer's recursion gives. */
module CostReadings {
  import opened Options
  import opened Document
  import opened DocumentReadings
  import opened Sequences
  import opened Cost
  import NameCase

  // --------------------------------------------------------------------- page sizes

  /** The argument is read as a page size: its name is a configured one in some spelling. */
  ghost predicate IsRead(settings: CostSettings, argument: Argument) {
    exists p <- settings.paginationArguments :: NameCase.ToSnakeCase(p) == NameCase.ToSnakeCase(argument.name)
  }

  /** A literal, a bound variable's integer, or an integer default of a variable that is not bound. */
  ghost predicate IsInteger(ctx: Context, value: Value, n: int) {
    || value == IntegerValue(n)
    || exists v: Name :: value == VariableValue(v) &&
         if v in ctx.variables then
           || ctx.variables[v] == BoundOther(Some(n))
           || (ctx.variables[v] == BoundBoolean(true) && n == 1)
           || (ctx.variables[v] == BoundBoolean(false) && n == 0)
         else v in ctx.defaults && ctx.defaults[v] == IntegerValue(n)
  }

  /** The first argument read as a page size holds this integer. */
  ghost predicate AsksFor(ctx: Context, arguments: seq<Argument>, n: int) {
    exists i :: 0 <= i < |arguments| && IsRead(ctx.settings, arguments[i]) && IsInteger(ctx, arguments[i].value, n)
      && forall j :: 0 <= j < i ==> !IsRead(ctx.settings, arguments[j])
  }

  /** Neither absent nor zero. */
  predicate Tells(setting: Option<int>) { setting != None && setting != Some(0) }

  /** A size asked for, with negative ones as zero, under the ceiling if there is one. */
  ghost predicate Caps(settings: CostSettings, n: int, k: int) {
    var size := if n < 0 then 0 else n;
    && k <= size && (Tells(settings.maxPageSize) ==> k <= settings.maxPageSize.value)
    && (k == size || (Tells(settings.maxPageSize) && settings.maxPageSize == Some(k)))
  }

  /** The first of maximum, default and fallback that tells a size, else one. */
  ghost predicate FallsBackTo(settings: CostSettings, k: int) {
    var told := [settings.maxPageSize, settings.defaultPageSize, settings.defaultListMultiplier];
    if exists i :: 0 <= i < 3 && Tells(told[i]) then
      exists i :: 0 <= i < 3 && told[i] == Some(k) && k != 0 && forall j :: 0 <= j < i ==> !Tells(told[j])
    else k == 1
  }

  ghost predicate IsList(schema: Schema, ref: TypeRef) {
    Lists(ref) || exists name :: Names(ref, name) && name in schema.types && schema.types[name].listContainer
  }

  /** How many times a field's children count. */
  ghost predicate Repeats(ctx: Context, arguments: seq<Argument>, ref: TypeRef, k: int) {
    if !IsList(ctx.schema, ref) then k == 1
    else if exists n :: AsksFor(ctx, arguments, n) then
      exists n :: AsksFor(ctx, arguments, n) && Caps(ctx.settings, n, k)
    else FallsBackTo(ctx.settings, k)
  }

  lemma ReadReading(settings: CostSettings, argument: Argument)
    ensures IsPaginationArgument(settings, argument.name) <==> IsRead(settings, argument)
  {
    var names := set p <- settings.paginationArguments :: NameCase.ToSnakeCase(p);
    if p :| p in settings.paginationArguments && NameCase.ToSnakeCase(p) == NameCase.ToSnakeCase(argument.name) {
      assert NameCase.ToSnakeCase(p) in names;
    }
  }

  lemma IntegerReading(ctx: Context, value: Value, n: int)
    ensures PageSizeValue(value, ctx.variables, ctx.defaults) == Some(n) <==> IsInteger(ctx, value, n)
  {
  }

  lemma {:induction false} ArgumentReading(ctx: Context, arguments: seq<Argument>, n: int)
    ensures PageSizeArgument(ctx, arguments) == Some(n) <==> AsksFor(ctx, arguments, n)
  {
    hide IsRead, IsInteger, PageSizeValue, IsPaginationArgument;
    if arguments != [] {
      var rest := arguments[1..];
      ArgumentReading(ctx, rest, n);
      ReadReading(ctx.settings, arguments[0]);
      IntegerReading(ctx, arguments[0].value, n);
      if IsRead(ctx.settings, arguments[0]) {
        if IsInteger(ctx, arguments[0].value, n) { assert arguments[0] in arguments; }
      } else {
        if AsksFor(ctx, rest, n) {
          var i :| 0 <= i < |rest| && IsRead(ctx.settings, rest[i]) && IsInteger(ctx, rest[i].value, n)
                   && forall j :: 0 <= j < i ==> !IsRead(ctx.settings, rest[j]);
          assert arguments[i + 1] == rest[i];
          forall j | 0 <= j < i + 1 ensures !IsRead(ctx.settings, arguments[j]) {
            if j > 0 { assert arguments[j] == rest[j - 1]; }
          }
        }
        if AsksFor(ctx, arguments, n) {
          var i :| 0 <= i < |arguments| && IsRead(ctx.settings, arguments[i]) && IsInteger(ctx, arguments[i].value, n)
                   && forall j :: 0 <= j < i ==> !IsRead(ctx.settings, arguments[j]);
          assert arguments[i] == rest[i - 1];
          forall j | 0 <= j < i - 1 ensures !IsRead(ctx.settings, rest[j]) { assert rest[j] == arguments[j + 1]; }
        }
      }
    }
  }

  lemma FallbackReading(settings: CostSettings, k: int)
    ensures Fallback(settings) == k <==> FallsBackTo(settings, k)
  {
    var told := [settings.maxPageSize, settings.defaultPageSize, settings.defaultListMultiplier];
    assert told[0] == settings.maxPageSize && told[1] == settings.defaultPageSize;
    assert told[2] == settings.defaultListMultiplier;
  }

  lemma {:induction false} ListReading(ref: TypeRef)
    ensures WrapsList(ref) <==> Lists(ref)
  {
    if layers, name :| ref == Wrapped(layers, name) && true in layers { WrappedLists(layers, name); }
    WrappedLists(LayersOf(ref), NamedType(ref));
  }

  lemma {:induction false} WrappedLists(layers: seq<bool>, name: TypeName)
    ensures WrapsList(Wrapped(layers, name)) <==> true in layers
  {
    if layers != [] {
      WrappedLists(layers[1..], name);
      assert layers == [layers[0]] + layers[1..];
    }
  }

  lemma IsListReading(schema: Schema, ref: TypeRef)
    ensures IsListField(schema, ref) <==> IsList(schema, ref)
  {
    hide Lists, WrapsList, Names;
    ListReading(ref);
    forall name ensures NamedType(ref) == name <==> Names(ref, name) { NamedTypeReading(ref, name); }
  }

  /** The multiplier is how many times the children count. */
  lemma MultiplierReading(ctx: Context, head: FieldHead, ref: TypeRef, k: int)
    ensures ListMultiplier(ctx, head, ref) == k <==> Repeats(ctx, head.arguments, ref, k)
  {
    hide AsksFor, PageSizeArgument, FallsBackTo, Fallback, IsList, IsListField;
    IsListReading(ctx.schema, ref);
    FallbackReading(ctx.settings, k);
    forall n ensures PageSizeArgument(ctx, head.arguments) == Some(n) <==> AsksFor(ctx, head.arguments, n) {
      ArgumentReading(ctx, head.arguments, n);
    }
  }

  // ------------------------------------------------------------------------- weights

  predicate IsCustom(d: Directive) { d.name != "skip" && d.name != "include" }

  /** The uses of directives other than @skip and @include, by their places. */
  ghost function CustomPlaces(directives: seq<Directive>): set<int> {
    set i | 0 <= i < |directives| && IsCustom(directives[i])
  }

  /** The declared complexity unless it is negative; without one, an object field weighs one and a leaf nothing. */
  ghost predicate OwnWeight(schema: Schema, target: TypeName, hasChildren: bool, w: int) {
    if target in schema.types && schema.types[target].complexity.Some? && schema.types[target].complexity.value >= 0
    then schema.types[target].complexity == Some(w)
    else w == if hasChildren then 1 else 0
  }

  /** And every custom directive the configured weight, if that is positive. */
  ghost predicate Weighs(ctx: Context, head: FieldHead, target: TypeName, hasChildren: bool, w: int) {
    var directive := if ctx.settings.directiveWeight.Some? && ctx.settings.directiveWeight.value > 0
                     then ctx.settings.directiveWeight.value else 0;
    OwnWeight(ctx.schema, target, hasChildren, w - |CustomPlaces(head.directives)| * directive)
  }

  lemma {:induction false} CustomSnoc(directives: seq<Directive>, d: Directive)
    ensures CustomDirectives(directives + [d]) == CustomDirectives(directives) + if IsCustom(d) then 1 else 0
  {
    if directives == [] {
      assert [d][1..] == [];
    } else {
      assert (directives + [d])[1..] == directives[1..] + [d];
      CustomSnoc(directives[1..], d);
    }
  }

  lemma {:induction false} CustomReading(directives: seq<Directive>)
    ensures CustomDirectives(directives) == |CustomPlaces(directives)|
  {
    hide CustomDirectives;
    if directives == [] {
      assert CustomPlaces(directives) == {};
      NoDirectives();
    } else {
      var n := |directives| - 1;
      var init, last := directives[..n], directives[n];
      assert directives == init + [last];
      CustomSnoc(init, last);
      CustomReading(init);
      assert CustomPlaces(directives) == CustomPlaces(init) + if IsCustom(last) then {n} else {};
      assert n !in CustomPlaces(init);
    }
  }

  lemma NoDirectives()
    ensures CustomDirectives([]) == 0
  {
  }

  lemma WeightReading(ctx: Context, head: FieldHead, target: TypeName, hasChildren: bool, w: int)
    ensures OwnCost(ctx, head, target, hasChildren) == w <==> Weighs(ctx, head, target, hasChildren, w)
  {
    hide CustomDirectives, CustomPlaces;
    CustomReading(head.directives);
  }

  // -------------------------------------------------------------------------- prices

  /** What a selection of a text without known spreads costs. */
  ghost predicate Priced(ctx: Context, s: Selection, ty: TypeName, total: int)
    decreases s
  {
    match s
    case Leaf(head) =>
      if LeftOut(head.directives, ctx.variables) || "__" <= head.name || !HasField(ctx.schema, ty, head.name) then
        total == 0
      else
        exists target ::
          Names(ctx.schema.types[ty].fields[head.name], target) && Weighs(ctx, head, target, false, total)
    case Object(head, children) =>
      if LeftOut(head.directives, ctx.variables) || "__" <= head.name || !HasField(ctx.schema, ty, head.name) then
        total == 0
      else
        exists target, own, k, sum ::
          && Names(ctx.schema.types[ty].fields[head.name], target)
          && Weighs(ctx, head, target, true, own)
          && Repeats(ctx, head.arguments, ctx.schema.types[ty].fields[head.name], k)
          && PricedAll(ctx, children, target, sum)
          && total == own + k * sum
    case Inline(condition, directives, children) =>
      if LeftOut(directives, ctx.variables) then total == 0
      else exists inner :: Narrows(ctx.schema, condition, ty, inner) && PricedAll(ctx, children, inner, total)
    case Spread(_, _) => total == 0
  }

  /** A selection set costs the sum of its selections. */
  ghost predicate PricedAll(ctx: Context, ss: seq<Selection>, ty: TypeName, total: int)
    decreases ss
  {
    if ss == [] then total == 0
    else exists before, last ::
      PricedAll(ctx, Init(ss), ty, before) && Priced(ctx, Last(ss), ty, last) && total == before + last
  }

  /** The recursive cost of such a text is its price. */
  lemma {:induction false} SelectionPrice(ctx: Context, s: Selection, ty: TypeName, total: int)
    requires SpreadsOf(s) !! ctx.fragments.Keys
    ensures Priced(ctx, s, ty, total) <==> SelectionCost(ctx, 0, s, ty) == Some(total)
    decreases s
  {
    hide IsSkipped, LeftOut, Names, Weighs, Repeats, OwnCost, ListMultiplier, IsIntrospection, Priced;
    SkippedReading(s, ctx.variables);
    match s {
      case Leaf(head) => FieldPrice(ctx, s, ty, total);
      case Object(head, children) =>
        forall inner, sum
          ensures PricedAll(ctx, children, inner, sum) <==> SetCost(ctx, 0, children, inner) == Some(sum)
        {
          SetPrice(ctx, children, inner, sum);
        }
        FieldPrice(ctx, s, ty, total);
      case Inline(condition, _, children) =>
        var inner := InlineType(ctx.schema, condition, ty);
        SetPrice(ctx, children, inner, total);
        InlinePrice(ctx, s, ty, total);
      case Spread(name, _) => SpreadPrice(ctx, s, ty, total);
    }
  }

  lemma SpreadPrice(ctx: Context, s: Selection, ty: TypeName, total: int)
    requires s.Spread? && s.fragment !in ctx.fragments
    ensures Priced(ctx, s, ty, total) <==> SelectionCost(ctx, 0, s, ty) == Some(total)
  {
    hide IsSkipped;
  }

  lemma InlinePrice(ctx: Context, s: Selection, ty: TypeName, total: int)
    requires s.Inline? && (IsSkipped(s, ctx.variables) <==> LeftOut(s.inlineDirectives, ctx.variables))
    requires var inner := InlineType(ctx.schema, s.condition, ty);
             PricedAll(ctx, s.children, inner, total) <==> SetCost(ctx, 0, s.children, inner) == Some(total)
    ensures Priced(ctx, s, ty, total) <==> SelectionCost(ctx, 0, s, ty) == Some(total)
  {
    hide IsSkipped, LeftOut, PricedAll, SetCost;
    var narrowed := InlineType(ctx.schema, s.condition, ty);
    assert forall inner :: Narrows(ctx.schema, s.condition, ty, inner) <==> inner == narrowed;
    assert SetCost(ctx, 0, s.children, InlineType(ctx.schema, s.condition, ty)).Some? ==>
      SelectionCost(ctx, 0, s, ty) == if IsSkipped(s, ctx.variables) then Some(0) else
        SetCost(ctx, 0, s.children, InlineType(ctx.schema, s.condition, ty));
  }

  lemma FieldPrice(ctx: Context, s: Selection, ty: TypeName, total: int)
    requires (s.Leaf? || s.Object?) && (IsSkipped(s, ctx.variables) <==> LeftOut(s.head.directives, ctx.variables))
    requires s.Object? ==> forall inner, sum ::
               PricedAll(ctx, s.children, inner, sum) <==> SetCost(ctx, 0, s.children, inner) == Some(sum)
    ensures Priced(ctx, s, ty, total) <==> SelectionCost(ctx, 0, s, ty) == Some(total)
  {
    hide IsSkipped, LeftOut, Names, Weighs, Repeats, OwnCost, ListMultiplier, IsIntrospection, PricedAll, SetCost;
    IntrospectionReading(s.head.name);
    if HasField(ctx.schema, ty, s.head.name) {
      var ref := ctx.schema.types[ty].fields[s.head.name];
      var target := NamedType(ref);
      forall name ensures NamedType(ref) == name <==> Names(ref, name) { NamedTypeReading(ref, name); }
      forall w ensures OwnCost(ctx, s.head, target, s.Object?) == w <==> Weighs(ctx, s.head, target, s.Object?, w) {
        WeightReading(ctx, s.head, target, s.Object?, w);
      }
      forall k ensures ListMultiplier(ctx, s.head, ref) == k <==> Repeats(ctx, s.head.arguments, ref, k) {
        MultiplierReading(ctx, s.head, ref, k);
      }
      if s.Object? { ObjectPrice(ctx, s, ty, total); } else { LeafPrice(ctx, s, ty, total); }
    }
  }

  lemma LeafPrice(ctx: Context, s: Selection, ty: TypeName, total: int)
    requires s.Leaf? && (IsSkipped(s, ctx.variables) <==> LeftOut(s.head.directives, ctx.variables))
    requires HasField(ctx.schema, ty, s.head.name) && (IsIntrospection(s.head.name) <==> "__" <= s.head.name)
    requires var ref := ctx.schema.types[ty].fields[s.head.name];
             && (forall name :: NamedType(ref) == name <==> Names(ref, name))
             && (forall w :: OwnCost(ctx, s.head, NamedType(ref), false) == w
                        <==> Weighs(ctx, s.head, NamedType(ref), false, w))
    ensures Priced(ctx, s, ty, total) <==> SelectionCost(ctx, 0, s, ty) == Some(total)
  {
    hide IsSkipped, LeftOut, Names, Weighs, OwnCost, IsIntrospection;
    var target := NamedType(ctx.schema.types[ty].fields[s.head.name]);
    assert Names(ctx.schema.types[ty].fields[s.head.name], target);
    assert Weighs(ctx, s.head, target, false, OwnCost(ctx, s.head, target, false));
  }

  lemma ObjectPrice(ctx: Context, s: Selection, ty: TypeName, total: int)
    requires s.Object? && (IsSkipped(s, ctx.variables) <==> LeftOut(s.head.directives, ctx.variables))
    requires HasField(ctx.schema, ty, s.head.name) && (IsIntrospection(s.head.name) <==> "__" <= s.head.name)
    requires forall inner, sum ::
               PricedAll(ctx, s.children, inner, sum) <==> SetCost(ctx, 0, s.children, inner) == Some(sum)
    requires var ref := ctx.schema.types[ty].fields[s.head.name];
             && (forall name :: NamedType(ref) == name <==> Names(ref, name))
             && (forall w :: OwnCost(ctx, s.head, NamedType(ref), true) == w
                        <==> Weighs(ctx, s.head, NamedType(ref), true, w))
             && (forall k :: ListMultiplier(ctx, s.head, ref) == k <==> Repeats(ctx, s.head.arguments, ref, k))
    ensures Priced(ctx, s, ty, total) <==> SelectionCost(ctx, 0, s, ty) == Some(total)
  {
    hide IsSkipped, LeftOut, Names, Weighs, Repeats, OwnCost, ListMultiplier, IsIntrospection, PricedAll, SetCost;
    var ref := ctx.schema.types[ty].fields[s.head.name];
    var target := NamedType(ref);
    var own, k := OwnCost(ctx, s.head, target, true), ListMultiplier(ctx, s.head, ref);
    assert Names(ref, target) && Weighs(ctx, s.head, target, true, own) && Repeats(ctx, s.head.arguments, ref, k);
    if SelectionCost(ctx, 0, s, ty) == Some(total) && !IsSkipped(s, ctx.variables) && !IsIntrospection(s.head.name) {
      var sum := SetCost(ctx, 0, s.children, target).value;
      assert PricedAll(ctx, s.children, target, sum) && total == own + k * sum;
    }
  }

  lemma {:induction false} SetPrice(ctx: Context, ss: seq<Selection>, ty: TypeName, total: int)
    requires SpreadsIn(ss) !! ctx.fragments.Keys
    ensures PricedAll(ctx, ss, ty, total) <==> SetCost(ctx, 0, ss, ty) == Some(total)
    decreases ss
  {
    hide Priced, SelectionCost;
    if ss != [] {
      var init, last := Init(ss), Last(ss);
      assert SpreadsIn(ss) == SpreadsIn(init) + SpreadsOf(last);
      forall n ensures PricedAll(ctx, init, ty, n) <==> SetCost(ctx, 0, init, ty) == Some(n) {
        SetPrice(ctx, init, ty, n);
      }
      forall n ensures Priced(ctx, last, ty, n) <==> SelectionCost(ctx, 0, last, ty) == Some(n) {
        SelectionPrice(ctx, last, ty, n);
      }
      if SetCost(ctx, 0, ss, ty) == Some(total) {
        var before := SetCost(ctx, 0, init, ty).value;
        assert PricedAll(ctx, init, ty, before) && Priced(ctx, last, ty, total - before);
      }
    }
  }
}
