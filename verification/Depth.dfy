/** Where a query nests objects deeper than a budget allows. */
module Depth {
  import opened Options
  import opened Document
  import opened Sequences

  /** A budget of nested object levels, counted from where it was set. */
  datatype Constraint = Constraint(limit: int, origin: nat, reason: string)

  /** The ceiling that holds whatever is configured. */
  const STRUCTURAL_DEPTH := 100

  datatype Text = Text(schema: Schema, fragments: Fragments)

  function Remaining(c: Constraint, depth: nat): int {
    c.limit - (depth - c.origin)
  }

  /** The tightest of the active budgets, if any is active. */
  function Budget(constraints: seq<Constraint>, depth: nat): Option<int> {
    if constraints == [] then None
    else Tighter(Budget(Init(constraints), depth), Remaining(Last(constraints), depth))
  }

  function Tighter(budget: Option<int>, n: int): Option<int> {
    if budget.Some? && budget.value <= n then budget else Some(n)
  }

  /** The first budget, in the order they were set, that a nesting depth exceeds. */
  function FirstExceeded(constraints: seq<Constraint>, depth: nat): Option<Constraint> {
    if constraints == [] then None
    else if depth - constraints[0].origin > constraints[0].limit then Some(constraints[0])
    else FirstExceeded(constraints[1..], depth)
  }

  function MaxDepth(schema: Schema, ty: TypeName): Option<int> {
    if ty in schema.types && schema.types[ty].maxDepth.Some? && schema.types[ty].maxDepth.value >= 0
    then schema.types[ty].maxDepth else None
  }

  /** Entering a field of a type that declares a maximum sets one more budget. */
  function Entering(schema: Schema, ty: TypeName, depth: nat, constraints: seq<Constraint>): seq<Constraint> {
    match MaxDepth(schema, ty)
    case None => constraints
    case Some(n) => constraints + [Constraint(n, depth, ty)]
  }

  // ------------------------------------------------------------------- the verdict

  datatype Visit =
    | Passed                                     // nothing to descend into
    | Broken(constraint: Constraint, field: FieldHead)
    | Nested(children: seq<Selection>, ty: TypeName, depth: nat, constraints: seq<Constraint>)
    | Follows(fragment: Name, ty: TypeName)

  /** A field with children is checked against the budgets before it is looked up in its type. */
  function VisitField(text: Text, head: FieldHead, children: seq<Selection>, ty: TypeName, depth: nat,
      constraints: seq<Constraint>): Visit
  {
    if IsIntrospection(head.name) then Passed
    else
      match FirstExceeded(constraints, depth + 1)
      case Some(c) => Broken(c, head)
      case None =>
        var fields := FieldsOf(text.schema, ty);
        if head.name !in fields then Passed
        else
          var target := NamedType(fields[head.name]);
          Nested(children, target, depth + 1, Entering(text.schema, target, depth + 1, constraints))
  }

  function VisitOf(text: Text, s: Selection, ty: TypeName, depth: nat, constraints: seq<Constraint>): (v: Visit)
    ensures v.Nested? ==> (s.Object? || s.Inline?) && v.children == s.children
    ensures v.Follows? ==> s.Spread? && v.fragment == s.fragment && v.fragment in text.fragments
  {
    if IsSkipped(s, map[]) then Passed
    else
      match s
      case Leaf(_) => Passed
      case Object(head, children) => VisitField(text, head, children, ty, depth, constraints)
      case Inline(condition, _, children) =>
          Nested(children, InlineType(text.schema, condition, ty), depth, constraints)
      case Spread(name, _) =>
        if name !in text.fragments then Passed
        else Follows(name, Narrowed(text.schema, text.fragments[name].condition, ty))
  }

  function Body(text: Text, name: Name): seq<Selection>
    requires name in text.fragments
  {
    text.fragments[name].selections
  }

  datatype Verdict = Unknown | Clean | Violation(constraint: Constraint, field: FieldHead)

  function Then(a: Verdict, b: Verdict): Verdict {
    if a.Clean? then b else a
  }

  /** The first violation in a selection, by plain recursion in document order. `spreads` bounds how
      many spreads may be nested; Unknown says that the bound was reached. Nothing is remembered. */
  function SelectionVerdict(text: Text, spreads: nat, s: Selection, ty: TypeName, depth: nat,
      constraints: seq<Constraint>): Verdict
    decreases spreads, s
  {
    match VisitOf(text, s, ty, depth, constraints)
    case Passed => Clean
    case Broken(c, field) => Violation(c, field)
    case Nested(children, target, depth', constraints') =>
        SetVerdict(text, spreads, children, target, depth', constraints')
    case Follows(name, target) =>
      if spreads == 0 then Unknown else SetVerdict(text, spreads - 1, Body(text, name), target, depth, constraints)
  }

  function SetVerdict(text: Text, spreads: nat, ss: seq<Selection>, ty: TypeName, depth: nat,
      constraints: seq<Constraint>): Verdict
    decreases spreads, ss
  {
    if ss == [] then Clean
    else Then(SetVerdict(text, spreads, ss[..|ss| - 1], ty, depth, constraints),
              SelectionVerdict(text, spreads, ss[|ss| - 1], ty, depth, constraints))
  }

  /** The recursion ends with this verdict. */
  ghost predicate SelectionYields(text: Text, s: Selection, ty: TypeName, depth: nat,
      constraints: seq<Constraint>, v: Verdict)
  {
    !v.Unknown? && exists n: nat :: SelectionVerdict(text, n, s, ty, depth, constraints) == v
  }

  ghost predicate SetYields(text: Text, ss: seq<Selection>, ty: TypeName, depth: nat,
      constraints: seq<Constraint>, v: Verdict)
  {
    !v.Unknown? && exists n: nat :: SetVerdict(text, n, ss, ty, depth, constraints) == v
  }

  lemma {:induction false} DeeperSelection(text: Text, m: nat, n: nat, s: Selection, ty: TypeName,
      depth: nat, constraints: seq<Constraint>)
    requires m <= n && !SelectionVerdict(text, m, s, ty, depth, constraints).Unknown?
    ensures SelectionVerdict(text, n, s, ty, depth, constraints) == SelectionVerdict(text, m, s, ty, depth, constraints)
    decreases m, s
  {
    match VisitOf(text, s, ty, depth, constraints)
    case Nested(children, target, depth', constraints') =>
        DeeperSet(text, m, n, children, target, depth', constraints');
    case Follows(name, target) => DeeperSet(text, m - 1, n - 1, Body(text, name), target, depth, constraints);
    case _ =>
  }

  lemma {:induction false} DeeperSet(text: Text, m: nat, n: nat, ss: seq<Selection>, ty: TypeName,
      depth: nat, constraints: seq<Constraint>)
    requires m <= n && !SetVerdict(text, m, ss, ty, depth, constraints).Unknown?
    ensures SetVerdict(text, n, ss, ty, depth, constraints) == SetVerdict(text, m, ss, ty, depth, constraints)
    decreases m, ss
  {
    if ss != [] {
      DeeperSet(text, m, n, ss[..|ss| - 1], ty, depth, constraints);
      if SetVerdict(text, m, ss[..|ss| - 1], ty, depth, constraints).Clean? {
        DeeperSelection(text, m, n, ss[|ss| - 1], ty, depth, constraints);
      }
    }
  }

  /** The verdict of a set is the verdict of its first part, continued by the next selection when clean. */
  lemma SetYieldsSnoc(text: Text, ss: seq<Selection>, s: Selection, ty: TypeName, depth: nat,
      constraints: seq<Constraint>, v: Verdict)
    requires SetYields(text, ss, ty, depth, constraints, Clean) && SelectionYields(text, s, ty, depth, constraints, v)
    ensures SetYields(text, ss + [s], ty, depth, constraints, v)
  {
    hide VisitOf, SelectionVerdict;
    var m: nat :| SetVerdict(text, m, ss, ty, depth, constraints) == Clean;
    var n: nat :| SelectionVerdict(text, n, s, ty, depth, constraints) == v;
    DeeperSet(text, m, m + n, ss, ty, depth, constraints);
    DeeperSelection(text, n, m + n, s, ty, depth, constraints);
    assert (ss + [s])[..|ss|] == ss;
    assert SetVerdict(text, m + n, ss + [s], ty, depth, constraints) == v;
  }

  /** A violation found in a first part is the violation of the whole. */
  lemma {:induction false} ViolationIsFinal(text: Text, n: nat, ss: seq<Selection>, count: nat, ty: TypeName,
      depth: nat, constraints: seq<Constraint>)
    requires count <= |ss| && SetVerdict(text, n, ss[..count], ty, depth, constraints).Violation?
    ensures SetVerdict(text, n, ss, ty, depth, constraints) == SetVerdict(text, n, ss[..count], ty, depth, constraints)
  {
    if count < |ss| {
      assert ss[..|ss| - 1][..count] == ss[..count];
      ViolationIsFinal(text, n, ss[..|ss| - 1], count, ty, depth, constraints);
    } else {
      assert ss[..count] == ss;
    }
  }

  // ---------------------------------------------- only the tightest budget decides

  /** The same answer, up to which of the equally tight budgets is named. */
  predicate SameAnswer(a: Verdict, b: Verdict) {
    || (a.Unknown? && b.Unknown?)
    || (a.Clean? && b.Clean?)
    || (a.Violation? && b.Violation? && a.field == b.field)
  }

  lemma {:induction false} BudgetShifts(constraints: seq<Constraint>, depth: nat)
    ensures Budget(constraints, depth + 1)
         == match Budget(constraints, depth) { case None => None case Some(n) => Some(n - 1) }
  {
    if constraints != [] {
      BudgetShifts(Init(constraints), depth);
    }
  }

  /** Some budget is exceeded exactly when the tightest one is used up. */
  lemma {:induction false} ExceededWhenUsedUp(constraints: seq<Constraint>, depth: nat)
    ensures FirstExceeded(constraints, depth).Some? <==>
        Budget(constraints, depth).Some? && Budget(constraints, depth).value < 0
  {
    if constraints != [] {
      FirstExceededSplit(constraints, depth);
      ExceededWhenUsedUp(Init(constraints), depth);
    }
  }

  lemma {:induction false} FirstExceededSplit(constraints: seq<Constraint>, depth: nat)
    requires constraints != []
    ensures FirstExceeded(constraints, depth).Some?
       <==> FirstExceeded(Init(constraints), depth).Some? || Remaining(Last(constraints), depth) < 0
  {
    if |constraints| > 1 {
      FirstExceededSplit(constraints[1..], depth);
      assert Init(constraints)[1..] == Init(constraints[1..]);
    }
  }

  lemma EnteringTightens(schema: Schema, ty: TypeName, depth: nat, constraints: seq<Constraint>)
    ensures Budget(Entering(schema, ty, depth, constraints), depth)
         == match MaxDepth(schema, ty)
            case None => Budget(constraints, depth)
            case Some(n) => Tighter(Budget(constraints, depth), n)
  {
    if MaxDepth(schema, ty).Some? {
      InitLast(constraints, Constraint(MaxDepth(schema, ty).value, depth, ty));
    }
  }

  lemma SameBudgetVisits(text: Text, s: Selection, ty: TypeName, d: nat, cs: seq<Constraint>, d': nat,
      cs': seq<Constraint>)
    requires Budget(cs, d) == Budget(cs', d')
    ensures var v, v' := VisitOf(text, s, ty, d, cs), VisitOf(text, s, ty, d', cs');
            || (v == v' == Passed)
            || (v.Broken? && v'.Broken? && v.field == v'.field)
            || (v.Follows? && v == v')
            || (v.Nested? && v'.Nested? && v.children == v'.children && v.ty == v'.ty
                && Budget(v.constraints, v.depth) == Budget(v'.constraints, v'.depth))
  {
    hide IsSkipped, FirstExceeded, Budget, Entering, MaxDepth;
    BudgetShifts(cs, d);
    BudgetShifts(cs', d');
    ExceededWhenUsedUp(cs, d + 1);
    ExceededWhenUsedUp(cs', d' + 1);
    if s.Object? && s.head.name in FieldsOf(text.schema, ty) {
      var target := NamedType(FieldsOf(text.schema, ty)[s.head.name]);
      EnteringTightens(text.schema, target, d + 1, cs);
      EnteringTightens(text.schema, target, d' + 1, cs');
    }
  }

  /** What a walk finds depends on the list of budgets only through the tightest one that remains. */
  lemma {:induction false} TightestBudgetDecides(text: Text, n: nat, ss: seq<Selection>, ty: TypeName, d: nat,
      cs: seq<Constraint>, d': nat, cs': seq<Constraint>)
    requires Budget(cs, d) == Budget(cs', d')
    ensures SameAnswer(SetVerdict(text, n, ss, ty, d, cs), SetVerdict(text, n, ss, ty, d', cs'))
    decreases n, ss
  {
    if ss != [] {
      var last := ss[|ss| - 1];
      TightestBudgetDecides(text, n, ss[..|ss| - 1], ty, d, cs, d', cs');
      SameBudgetVisits(text, last, ty, d, cs, d', cs');
      var v, v' := VisitOf(text, last, ty, d, cs), VisitOf(text, last, ty, d', cs');
      match v
      case Nested(children, target, _, _) =>
        TightestBudgetDecides(text, n, children, target, v.depth, v.constraints, v'.depth, v'.constraints);
      case Follows(name, target) =>
        if n > 0 { TightestBudgetDecides(text, n - 1, Body(text, name), target, d, cs, d', cs'); }
      case _ =>
    }
  }

  /** A list with a single budget, standing for every list that is as tight. */
  function Canonical(budget: Option<int>): (cs: seq<Constraint>)
    ensures Budget(cs, 0) == budget
  {
    match budget
    case None => []
    case Some(n) =>
      var cs := [Constraint(n, 0, "")];
      assert Init(cs) == [];
      cs
  }

  // -------------------------------------------------------------- main readings

  /** Without reference cycles the recursion ends. */
  lemma {:induction false} AcyclicVerdictIsKnown(text: Text, rank: map<Name, nat>, n: nat, ss: seq<Selection>,
      ty: TypeName, depth: nat, constraints: seq<Constraint>)
    requires IsRank(text.fragments, rank)
    requires forall g <- text.fragments :: g in SpreadsIn(ss) ==> rank[g] < n
    ensures !SetVerdict(text, n, ss, ty, depth, constraints).Unknown?
    decreases n, ss
  {
    if ss != [] {
      var init, last := ss[..|ss| - 1], ss[|ss| - 1];
      assert SpreadsIn(ss) == SpreadsIn(init) + SpreadsOf(last);
      AcyclicVerdictIsKnown(text, rank, n, init, ty, depth, constraints);
      match VisitOf(text, last, ty, depth, constraints)
      case Nested(children, target, depth', constraints') =>
        AcyclicVerdictIsKnown(text, rank, n, children, target, depth', constraints');
      case Follows(name, target) =>
        AcyclicVerdictIsKnown(text, rank, n - 1, Body(text, name), target, depth, constraints);
      case _ =>
    }
  }

  lemma VisitOfExpanded(text: Text, n: nat, s: Selection, ty: TypeName, depth: nat, constraints: seq<Constraint>)
    ensures var x := ExpandSelection(text.fragments, n, s);
            VisitOf(text, x, ty, depth, constraints) ==
              match VisitOf(text, s, ty, depth, constraints)
              case Nested(children, target, depth', constraints') =>
                Nested(Expand(text.fragments, n, children), target, depth', constraints')
              case Follows(name, target) =>
                if n == 0 then Follows(name, target)
                else Nested(Expand(text.fragments, n - 1, Body(text, name)), target, depth, constraints)
              case other => other
  {
    assert IsSkipped(ExpandSelection(text.fragments, n, s), map[]) == IsSkipped(s, map[]);
  }

  /** Inlining spreads keeps the verdict, down to the reported budget and field. */
  lemma {:induction false} ExpansionKeepsVerdict(text: Text, n: nat, ss: seq<Selection>, ty: TypeName,
      depth: nat, constraints: seq<Constraint>)
    requires !SetVerdict(text, n, ss, ty, depth, constraints).Unknown?
    ensures SetVerdict(text, 0, Expand(text.fragments, n, ss), ty, depth, constraints)
        == SetVerdict(text, n, ss, ty, depth, constraints)
    decreases n, ss
  {
    if ss != [] {
      var init, last := ss[..|ss| - 1], ss[|ss| - 1];
      var e, x := Expand(text.fragments, n, init), ExpandSelection(text.fragments, n, last);
      assert (e + [x])[..|e|] == e && (e + [x])[|e|] == x;
      ExpansionKeepsVerdict(text, n, init, ty, depth, constraints);
      if SetVerdict(text, n, init, ty, depth, constraints).Clean? {
        VisitOfExpanded(text, n, last, ty, depth, constraints);
        match VisitOf(text, last, ty, depth, constraints)
        case Nested(children, target, depth', constraints') =>
          ExpansionKeepsVerdict(text, n, children, target, depth', constraints');
        case Follows(name, target) =>
          ExpansionKeepsVerdict(text, n - 1, Body(text, name), target, depth, constraints);
        case _ =>
      }
    }
  }

  // ----------------------------------------------------- inlining anywhere keeps verdicts

  predicate VisitInlines(text: Text, v: Visit, v': Visit) {
    if v.Nested? then v'.Nested? && v' == v.(children := v'.children)
        && Inlines(text.fragments, v.children, v'.children)
    else if v.Follows? && v'.Nested? then
      v'.ty == v.ty && v.fragment in text.fragments && Inlines(text.fragments, Body(text, v.fragment), v'.children)
    else v' == v
  }

  /** A replaced spread is visited like the spread, at the same depth and under the same budgets, and any
      other selection like itself. */
  lemma InlinedVisit(text: Text, fragments': Fragments, s: Selection, s': Selection, ty: TypeName, depth: nat,
      constraints: seq<Constraint>)
    requires BodiesInline(text.fragments, fragments') && InlinesOne(text.fragments, s, s')
    ensures var v, v' := VisitOf(text, s, ty, depth, constraints),
        VisitOf(text.(fragments := fragments'), s', ty, depth, constraints);
            && VisitInlines(text, v, v')
            && (v.Follows? && v'.Nested? ==> v'.depth == depth && v'.constraints == constraints)
  {
    hide IsSkipped, FirstExceeded, Entering;
    assert s.Directives() == s'.Directives();
    SkippedByDirectives(s, s');
  }

  lemma SkippedByDirectives(s: Selection, s': Selection)
    requires s.Directives() == s'.Directives()
    ensures IsSkipped(s, map[]) == IsSkipped(s', map[])
  {
  }

  lemma BodyInlines(text: Text, fragments': Fragments, name: Name)
    requires BodiesInline(text.fragments, fragments') && name in text.fragments
    ensures name in fragments' && Inlines(text.fragments, Body(text, name), Body(text.(fragments := fragments'), name))
  {
  }

  lemma LastOfNested(text: Text, s: Selection, ty: TypeName, depth: nat, constraints: seq<Constraint>)
    requires VisitOf(text, s, ty, depth, constraints).Nested?
    ensures (s.Object? || s.Inline?) && VisitOf(text, s, ty, depth, constraints).children == s.children
  {
  }

  lemma {:induction false} InlinedVerdict(text: Text, fragments': Fragments, n: nat, ss: seq<Selection>,
      ss': seq<Selection>, ty: TypeName,
      depth: nat, constraints: seq<Constraint>)
    requires BodiesInline(text.fragments, fragments') && Inlines(text.fragments, ss, ss')
    requires !SetVerdict(text, n, ss, ty, depth, constraints).Unknown?
    ensures SetVerdict(text.(fragments := fragments'), n, ss', ty, depth, constraints)
        == SetVerdict(text, n, ss, ty, depth, constraints)
    decreases n, ss'
  {
    hide VisitOf, BodiesInline, InlinesOne;
    if ss' != [] {
      var text', last, last' := text.(fragments := fragments'), ss[|ss| - 1], ss'[|ss'| - 1];
      InlinedVerdict(text, fragments', n, ss[..|ss| - 1], ss'[..|ss'| - 1], ty, depth, constraints);
      if SetVerdict(text, n, ss[..|ss| - 1], ty, depth, constraints).Clean? {
        InlinedVisit(text, fragments', last, last', ty, depth, constraints);
        var v, v' := VisitOf(text, last, ty, depth, constraints), VisitOf(text', last', ty, depth, constraints);
        if v'.Nested? { LastOfNested(text', last', ty, depth, constraints); }
        if v.Nested? {
          InlinedVerdict(text, fragments', n, v.children, v'.children, v.ty, v.depth, v.constraints);
        } else if v.Follows? && v'.Nested? {
          InlinedVerdict(text, fragments', n - 1, Body(text, v.fragment), v'.children, v.ty, depth, constraints);
          DeeperSet(text', n - 1, n, v'.children, v.ty, depth, constraints);
        } else if v.Follows? {
          BodyInlines(text, fragments', v.fragment);
          InlinedVerdict(text, fragments', n - 1, Body(text, v.fragment), Body(text', v.fragment), v.ty, depth,
              constraints);
        }
      }
    }
  }

  lemma {:induction false} OriginalVerdict(text: Text, fragments': Fragments, n: nat, ss: seq<Selection>,
      ss': seq<Selection>, ty: TypeName,
      depth: nat, constraints: seq<Constraint>)
      returns (m: nat)
    requires BodiesInline(text.fragments, fragments') && Inlines(text.fragments, ss, ss')
    requires !SetVerdict(text.(fragments := fragments'), n, ss', ty, depth, constraints).Unknown?
    ensures SetVerdict(text, m, ss, ty, depth, constraints)
        == SetVerdict(text.(fragments := fragments'), n, ss', ty, depth, constraints)
    decreases n, ss'
  {
    hide VisitOf, BodiesInline, InlinesOne;
    m := 0;
    if ss' != [] {
      var text', last, last' := text.(fragments := fragments'), ss[|ss| - 1], ss'[|ss'| - 1];
      var init, init' := ss[..|ss| - 1], ss'[..|ss'| - 1];
      m := OriginalVerdict(text, fragments', n, init, init', ty, depth, constraints);
      if SetVerdict(text', n, init', ty, depth, constraints).Clean? {
        InlinedVisit(text, fragments', last, last', ty, depth, constraints);
        var v, v' := VisitOf(text, last, ty, depth, constraints), VisitOf(text', last', ty, depth, constraints);
        if v'.Nested? { LastOfNested(text', last', ty, depth, constraints); }
        var k: nat := 0;
        if v.Nested? {
          k := OriginalVerdict(text, fragments', n, v.children, v'.children, v.ty, v.depth, v.constraints);
        } else if v.Follows? && v'.Nested? {
          k := OriginalVerdict(text, fragments', n, Body(text, v.fragment), v'.children, v.ty, depth, constraints);
          k := k + 1;
        } else if v.Follows? {
          BodyInlines(text, fragments', v.fragment);
          k := OriginalVerdict(text, fragments', n - 1, Body(text, v.fragment), Body(text', v.fragment), v.ty, depth,
              constraints);
          k := k + 1;
        }
        assert SelectionVerdict(text, k, last, ty, depth, constraints)
            == SelectionVerdict(text', n, last', ty, depth, constraints);
        DeeperSet(text, m, m + k, init, ty, depth, constraints);
        DeeperSelection(text, k, m + k, last, ty, depth, constraints);
        m := m + k;
      }
    }
  }

  /** Replacing known spreads by inline fragments, at any places of a selection set and of the fragments'
      bodies, keeps the verdict; on documents with reference cycles too, where neither may have one. */
  lemma InliningKeepsVerdict(text: Text, fragments': Fragments, ss: seq<Selection>, ss': seq<Selection>, ty: TypeName,
      depth: nat, constraints: seq<Constraint>, v: Verdict)
    requires BodiesInline(text.fragments, fragments') && Inlines(text.fragments, ss, ss')
    ensures SetYields(text, ss, ty, depth, constraints, v) <==>
            SetYields(text.(fragments := fragments'), ss', ty, depth, constraints, v)
  {
    if n: nat :| !v.Unknown? && SetVerdict(text, n, ss, ty, depth, constraints) == v {
      InlinedVerdict(text, fragments', n, ss, ss', ty, depth, constraints);
      assert SetVerdict(text.(fragments := fragments'), n, ss', ty, depth, constraints) == v;
    }
    if n: nat :| !v.Unknown? && SetVerdict(text.(fragments := fragments'), n, ss', ty, depth, constraints) == v {
      var m := OriginalVerdict(text, fragments', n, ss, ss', ty, depth, constraints);
      assert SetVerdict(text, m, ss, ty, depth, constraints) == v;
    }
  }

  // -------------------------------------------------- a clean verdict rules out cycles

  /** The spreads a selection walks, with the types their bodies are resolved against and the tightest
      budget there, without what those bodies walk in turn. */
  function WalkedBy(text: Text, s: Selection, ty: TypeName, depth: nat,
      constraints: seq<Constraint>): set<(Name, TypeName, Option<int>)>
    decreases s
  {
    match VisitOf(text, s, ty, depth, constraints)
    case Nested(children, target, depth', constraints') => WalkedIn(text, children, target, depth', constraints')
    case Follows(name, target) => {(name, target, Budget(constraints, depth))}
    case _ => {}
  }

  function WalkedIn(text: Text, ss: seq<Selection>, ty: TypeName, depth: nat,
      constraints: seq<Constraint>): set<(Name, TypeName, Option<int>)>
    decreases ss
  {
    if ss == [] then {}
    else WalkedIn(text, ss[..|ss| - 1], ty, depth, constraints) + WalkedBy(text, ss[|ss| - 1], ty, depth, constraints)
  }

  /** What is walked, too, depends on the list of budgets only through the tightest one. */
  lemma {:induction false} TightestBudgetWalks(text: Text, ss: seq<Selection>, ty: TypeName, d: nat,
      cs: seq<Constraint>, d': nat, cs': seq<Constraint>)
    requires Budget(cs, d) == Budget(cs', d')
    ensures WalkedIn(text, ss, ty, d, cs) == WalkedIn(text, ss, ty, d', cs')
    decreases ss
  {
    if ss != [] {
      var last := ss[|ss| - 1];
      TightestBudgetWalks(text, ss[..|ss| - 1], ty, d, cs, d', cs');
      SameBudgetVisits(text, last, ty, d, cs, d', cs');
      var v, v' := VisitOf(text, last, ty, d, cs), VisitOf(text, last, ty, d', cs');
      if v.Nested? {
        TightestBudgetWalks(text, v.children, v.ty, v.depth, v.constraints, v'.depth, v'.constraints);
      }
    }
  }

  /** A body under every list of budgets as tight as the key says. */
  function KeyVerdict(text: Text, n: nat, k: (Name, TypeName, Option<int>)): Verdict
    requires k.0 in text.fragments
  {
    SetVerdict(text, n, Body(text, k.0), k.1, 0, Canonical(k.2))
  }

  /** The least number of nested spreads at which the body is known to be clean. */
  ghost predicate CleanFrom(text: Text, k: (Name, TypeName, Option<int>), n: nat) {
    && k.0 in text.fragments && KeyVerdict(text, n, k).Clean?
    && (n > 0 ==> !KeyVerdict(text, n - 1, k).Clean?)
  }

  lemma {:induction false} WalkedAreClean(text: Text, n: nat, ss: seq<Selection>, ty: TypeName, depth: nat,
      constraints: seq<Constraint>,
      k: (Name, TypeName, Option<int>))
    requires SetVerdict(text, n, ss, ty, depth, constraints).Clean? && k in WalkedIn(text, ss, ty, depth, constraints)
    ensures n > 0 && k.0 in text.fragments && KeyVerdict(text, n - 1, k).Clean?
    decreases ss
  {
    var init, last := ss[..|ss| - 1], ss[|ss| - 1];
    if k in WalkedIn(text, init, ty, depth, constraints) {
      WalkedAreClean(text, n, init, ty, depth, constraints, k);
    } else {
      match VisitOf(text, last, ty, depth, constraints)
      case Nested(children, target, depth', constraints') =>
          WalkedAreClean(text, n, children, target, depth', constraints', k);
      case Follows(name, target) =>
          TightestBudgetDecides(text, n - 1, Body(text, name), target, depth, constraints, 0, Canonical(k.2));
      case _ =>
    }
  }

  lemma {:induction false} CleanFromSome(text: Text, k: (Name, TypeName, Option<int>), n: nat) returns (m: nat)
    requires k.0 in text.fragments && KeyVerdict(text, n, k).Clean?
    ensures m <= n && CleanFrom(text, k, m)
    decreases n
  {
    if n > 0 && KeyVerdict(text, n - 1, k).Clean? { m := CleanFromSome(text, k, n - 1); } else { m := n; }
  }

  /** Along the spreads a clean body walks, the depth at which bodies are known to be clean strictly falls. */
  lemma CleanSpreadsAreWellFounded(text: Text, k: (Name, TypeName, Option<int>), n: nat,
      walked: (Name, TypeName, Option<int>)) returns (m: nat)
    requires CleanFrom(text, k, n) && walked in WalkedIn(text, Body(text, k.0), k.1, 0, Canonical(k.2))
    ensures m < n && CleanFrom(text, walked, m)
  {
    WalkedAreClean(text, n, Body(text, k.0), k.1, 0, Canonical(k.2), walked);
    m := CleanFromSome(text, walked, n - 1);
  }
}
