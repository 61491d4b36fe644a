/** The depth rule as it runs over a document: the structural cycle check first, then one walk for each
    operation, all of them sharing what was proven clean. */
module DepthLimit {
  import opened Options
  import opened Document
  import opened Depth
  import opened DepthPaths
  import opened DepthTrails
  import opened DepthWalker
  import opened FragmentCycles
  import opened Sequences
  import WorkBounds

  function KindName(kind: OperationKind): string {
    match kind
    case Query => "query"
    case Mutation => "mutation"
    case Subscription => "subscription"
  }

  /** The budgets of an operation: the configured one, then the structural ceiling. */
  function OperationConstraints(globalMax: Option<int>, kind: OperationKind): seq<Constraint> {
    (match globalMax { case None => [] case Some(n) => [Constraint(n, 0, KindName(kind))] })
    + [Constraint(STRUCTURAL_DEPTH, 0, KindName(kind))]
  }

  class DepthLimitValidationRule {
    const schema: Schema
    const document: seq<Definition>
    const walker: DepthRule
    var cyclicFragments: bool

    function WholeText(): Text { Text(schema, FragmentsOf(document)) }

    ghost predicate Valid()
      reads this, walker
    {
      walker.text == WholeText() && walker.Valid()
    }

    constructor (schema: Schema, document: seq<Definition>)
      ensures Valid() && this.schema == schema && this.document == document && fresh(walker)
    {
      this.schema, this.document, cyclicFragments := schema, document, false;
      walker := new DepthRule(Text(schema, FragmentsOf(document)));
    }

    method EnterDocument()
      requires Valid()
      modifies this`cyclicFragments
      ensures Valid()
      ensures cyclicFragments <==> !Acyclic(FragmentsOf(document))
    {
      var cycle := FindFragmentCycle(document);
      cyclicFragments := cycle.Some?;
    }

    /** At most one error: the first place of the text, with all spreads inlined, that is nested deeper
        than a budget allows, and the first budget it exceeds. There is none exactly when no place is.
        `walked` lists the spreads whose body was walked, among them all that were proven clean by it: on a
        valid document, at most one a fragment for each remaining budget. Without a report, all spreads of
        the operation are proven clean. */
    method EnterOperation(operation: Definition, globalMax: Option<int>)
      returns (report: Option<Excess>, ghost walked: seq<SpreadKey>)
      requires Valid() && operation.OperationDefinition?
      requires cyclicFragments <==> !Acyclic(FragmentsOf(document))
      modifies walker
      ensures Valid()
      ensures cyclicFragments || operation.kind !in schema.roots ==> report.None?
      ensures walker.cleanSpreads <= old(walker.cleanSpreads) + Elements(walked) && Distinct(walked)
      ensures !cyclicFragments && operation.kind in schema.roots && report.None? ==>
                WalkedIn(WholeText(), operation.selections, schema.roots[operation.kind], 0,
                         OperationConstraints(globalMax, operation.kind)) <= walker.cleanSpreads
      ensures (forall f <- FragmentsOf(document) :: FragmentsOf(document)[f].condition in schema.types)
              && (globalMax.Some? ==> globalMax.value >= 0)
              ==> |walked| <= |FragmentsOf(document)| * (STRUCTURAL_DEPTH + 1)
      ensures !cyclicFragments && operation.kind in schema.roots ==>
        var text, constraints := WholeText(), OperationConstraints(globalMax, operation.kind);
        var tree := Expand(text.fragments, |text.fragments|, operation.selections);
        && (report.None? <==> Quiet(text, tree, schema.roots[operation.kind], 0, constraints))
        && (report.Some? ==> exists p :: FirstExcess(text, tree, schema.roots[operation.kind], 0, constraints, p,
                                                     (report.value.constraint, report.value.field)))
        && Judged(schema, tree, schema.roots[operation.kind], globalMax, operation.kind, report)
    {
      walked := [];
      if cyclicFragments || operation.kind !in schema.roots {
        return None, walked;
      }
      var constraints := OperationConstraints(globalMax, operation.kind);
      ghost var text := WholeText();
      report, walked := walker.Walk(operation.selections, schema.roots[operation.kind], 0, constraints);
      ExpandedReading(text, operation.selections, schema.roots[operation.kind], constraints);
      JudgedReading(text, Expand(text.fragments, |text.fragments|, operation.selections),
                    schema.roots[operation.kind], globalMax, operation.kind, report);
      if (forall f <- text.fragments :: text.fragments[f].condition in schema.types)
          && (globalMax.Some? ==> globalMax.value >= 0)
      {
        OperationBudgetInRange(globalMax, operation.kind);
        WorkBounds.DepthExpansionsAreFew(text, walked);
      }
    }
  }

  /** What the budgets of an operation find at a place is what the number of fields on the way to it breaks. */
  lemma TrailReading(schema: Schema, globalMax: Option<int>, kind: OperationKind, t: Trail)
    requires t.fields != [] && |t.fields| == |t.entered| + 1
    ensures var found := Found(OperationConstraints(globalMax, kind) + DeclaredOn(schema, t.entered, 0), 0, t);
            && (found.Some? <==> TooDeep(schema, globalMax, t))
            && (found.Some? ==> Blames(schema, globalMax, kind, t, found.value.0) && found.value.1 == Last(t.fields))
  {
    var n := |t.fields|;
    var configured := match globalMax { case None => [] case Some(m) => [Constraint(m, 0, KindName(kind))] };
    var structural := [Constraint(STRUCTURAL_DEPTH, 0, KindName(kind))];
    FirstOfBoth(OperationConstraints(globalMax, kind), DeclaredOn(schema, t.entered, 0), n);
    FirstOfBoth(configured, structural, n);
    assert structural[1..] == [] && (globalMax.Some? ==> configured[1..] == []);
    DeclaredReading(schema, t.entered, 0, n);
    forall i ensures BreaksDeclared(schema, t, i) <==> BreaksAt(schema, t.entered, 0, n, i) { }
    var declared := FirstExceeded(DeclaredOn(schema, t.entered, 0), n);
    if declared.Some? {
      var i :| FirstBreak(schema, t.entered, 0, n, i, declared.value);
      assert BreaksDeclared(schema, t, i);
    }
  }

  /** The report of an operation, by the numbers of fields on the way to the places of its text. */
  ghost predicate Judged(schema: Schema, tree: seq<Selection>, ty: TypeName, globalMax: Option<int>,
      kind: OperationKind, report: Option<Excess>)
  {
    if report.None? then forall p :: !DeepAt(schema, tree, ty, globalMax, p)
    else exists p ::
      && DeepAt(schema, tree, ty, globalMax, p)
      && (forall q :: Before(q, p) ==> !DeepAt(schema, tree, ty, globalMax, q))
      && Blames(schema, globalMax, kind, TrailTo(schema, tree, ty, p).value, report.value.constraint)
      && report.value.field == Last(TrailTo(schema, tree, ty, p).value.fields)
  }

  ghost predicate DeepAt(schema: Schema, tree: seq<Selection>, ty: TypeName, globalMax: Option<int>, p: Path) {
    TrailTo(schema, tree, ty, p).Some? && TooDeep(schema, globalMax, TrailTo(schema, tree, ty, p).value)
  }

  lemma PlaceReading(text: Text, tree: seq<Selection>, ty: TypeName, globalMax: Option<int>, kind: OperationKind,
      p: Path)
    ensures var found := DepthPaths.Excess(text, tree, ty, 0, OperationConstraints(globalMax, kind), p);
            && (found.Some? <==> DeepAt(text.schema, tree, ty, globalMax, p))
            && (found.Some? ==> var t := TrailTo(text.schema, tree, ty, p).value;
                                && Blames(text.schema, globalMax, kind, t, found.value.0)
                                && found.value.1 == Last(t.fields))
  {
    hide OperationConstraints, DepthPaths.Excess, Found, DeclaredOn, TooDeep, Blames;
    ExcessOnTrail(text, tree, ty, 0, OperationConstraints(globalMax, kind), p);
    match TrailTo(text.schema, tree, ty, p)
    case None =>
    case Some(t) => TrailReading(text.schema, globalMax, kind, t);
  }

  lemma JudgedReading(text: Text, tree: seq<Selection>, ty: TypeName, globalMax: Option<int>, kind: OperationKind,
      report: Option<Excess>)
    requires report.None? <==> Quiet(text, tree, ty, 0, OperationConstraints(globalMax, kind))
    requires report.Some? ==> exists p :: FirstExcess(text, tree, ty, 0, OperationConstraints(globalMax, kind), p,
                                                      (report.value.constraint, report.value.field))
    ensures Judged(text.schema, tree, ty, globalMax, kind, report)
  {
    hide OperationConstraints, DepthPaths.Excess, DeepAt, Blames, Before, TrailTo;
    forall p: Path
      ensures var found := DepthPaths.Excess(text, tree, ty, 0, OperationConstraints(globalMax, kind), p);
              found.Some? <==> DeepAt(text.schema, tree, ty, globalMax, p)
    {
      PlaceReading(text, tree, ty, globalMax, kind, p);
    }
    if report.Some? {
      var p :| FirstExcess(text, tree, ty, 0, OperationConstraints(globalMax, kind), p,
                           (report.value.constraint, report.value.field));
      PlaceReading(text, tree, ty, globalMax, kind, p);
      assert DeepAt(text.schema, tree, ty, globalMax, p);
    }
  }

  lemma ExpandedReading(text: Text, ss: seq<Selection>, ty: TypeName, constraints: seq<Constraint>)
    requires Acyclic(text.fragments)
    ensures var tree := Expand(text.fragments, |text.fragments|, ss);
            var v := SetVerdict(text, 0, tree, ty, 0, constraints);
            && !v.Unknown?
            && (v.Clean? <==> Quiet(text, tree, ty, 0, constraints))
            && (v.Violation? ==> exists p :: FirstExcess(text, tree, ty, 0, constraints, p, (v.constraint, v.field)))
  {
    var rank :| IsRank(text.fragments, rank);
    ExpandedIsSpreadFree(text.fragments, rank, |text.fragments|, ss);
    var p := Reading(text, Expand(text.fragments, |text.fragments|, ss), ty, 0, constraints);
  }

  /** The budgets of an operation always leave between zero and the structural ceiling. */
  lemma OperationBudgetInRange(globalMax: Option<int>, kind: OperationKind)
    requires globalMax.Some? ==> globalMax.value >= 0
    ensures InRange(Budget(OperationConstraints(globalMax, kind), 0))
  {
    var cs := OperationConstraints(globalMax, kind);
    assert Budget(cs[..0], 0) == None;
    assert cs[..|cs| - 1] == match globalMax { case None => [] case Some(n) => [Constraint(n, 0, KindName(kind))] };
    if globalMax.Some? {
      assert cs[..1][..0] == [];
    }
  }
}
