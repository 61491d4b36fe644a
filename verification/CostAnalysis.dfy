/** The cost of a document's operation, as reported to callers and as enforced before execution. */
module CostAnalysis {
  import opened Options
  import opened Document
  import opened Cost
  import opened CostBounds
  import opened CostReadings
  import opened CostWalker
  import opened FragmentCycles
  import opened Sequences
  import WorkBounds

  /** The cost of the text with every spread inlined: no fragment is followed any more. */
  function TextCost(ctx: Context, selections: seq<Selection>, ty: TypeName): Option<int> {
    SetCost(ctx, 0, Expand(ctx.fragments, |ctx.fragments|, selections), ty)
  }

  /** What an operation costs: nothing when the schema has no root for its kind. */
  function OperationCost(ctx: Context, operation: Definition): Option<int>
    requires operation.OperationDefinition?
  {
    if operation.kind !in ctx.schema.roots then Some(0)
    else TextCost(ctx, operation.selections, ctx.schema.roots[operation.kind])
  }

  predicate Chosen(d: Definition, name: Option<Name>) {
    d.OperationDefinition? && (name.None? || d.title == name)
  }

  /** The operation with the given name, or the first one when no name is given. */
  function Operation(document: seq<Definition>, name: Option<Name>): (r: Option<Definition>)
    ensures r.Some? ==> r.value in document && Chosen(r.value, name)
    ensures r.None? ==> forall d <- document :: !Chosen(d, name)
  {
    if document == [] then None
    else if Chosen(document[0], name) then Some(document[0])
    else Operation(document[1..], name)
  }

  datatype Report = CyclicFragments(fragment: Name) | Report(total: int, maxCost: Option<int>)

  /** Every type condition of a fragment is a type of the schema, as in a document that validates. */
  predicate ConditionsKnown(schema: Schema, fragments: Fragments) {
    forall f <- fragments :: fragments[f].condition in schema.types
  }

  /** Every spread that an operation walks, in whatever depth, is listed once. */
  ghost predicate WalkedOnce(ctx: Context, operation: Definition, walked: seq<SpreadKey>)
    requires operation.OperationDefinition?
  {
    operation.kind in ctx.schema.roots ==>
      && Distinct(walked)
      && WalkedKeys(ctx, operation.selections, ctx.schema.roots[operation.kind]) <= Elements(walked)
      && forall k <- walked :: k.0 in ctx.fragments && WalkedKeys(ctx, Body(ctx, k.0), k.1) <= Elements(walked)
  }

  /** What an operation costs by the price of its text, with every known spread inlined: nothing when the schema
      has no root for it. */
  ghost predicate OperationPriced(ctx: Context, operation: Definition, total: int)
    requires operation.OperationDefinition?
  {
    if operation.kind !in ctx.schema.roots then total == 0
    else PricedAll(ctx, Expand(ctx.fragments, |ctx.fragments|, operation.selections),
                   ctx.schema.roots[operation.kind], total)
  }

  lemma OperationPrice(ctx: Context, operation: Definition, total: int)
    requires operation.OperationDefinition? && Acyclic(ctx.fragments)
    ensures OperationPriced(ctx, operation, total) <==> OperationCost(ctx, operation) == Some(total)
  {
    hide PricedAll, SetCost, IsRank;
    var rank :| IsRank(ctx.fragments, rank);
    var tree := Expand(ctx.fragments, |ctx.fragments|, operation.selections);
    RankBounds(ctx.fragments, rank);
    ExpandedIsSpreadFree(ctx.fragments, rank, |ctx.fragments|, operation.selections);
    if operation.kind in ctx.schema.roots { SetPrice(ctx, tree, ctx.schema.roots[operation.kind], total); }
  }

  lemma RankBounds(fragments: Fragments, rank: map<Name, nat>)
    requires IsRank(fragments, rank)
    ensures forall f <- fragments :: f in rank && rank[f] < |fragments|
  {
  }

  /** An operation of that name, or any when no name is given. */
  predicate Answers(d: Definition, name: Option<Name>) {
    d.OperationDefinition? && (name.Some? ==> d.title.Some? && d.title.value == name.value)
  }

  /** The operation at a place is the first that answers. */
  ghost predicate AnswersFirst(document: seq<Definition>, name: Option<Name>, i: int) {
    0 <= i < |document| && Answers(document[i], name) && forall j :: 0 <= j < i ==> !Answers(document[j], name)
  }

  lemma {:induction false} FirstOperation(document: seq<Definition>, name: Option<Name>)
    ensures forall i :: AnswersFirst(document, name, i) ==> Operation(document, name) == Some(document[i])
    ensures Operation(document, name).None? ==> forall d <- document :: !Answers(d, name)
    ensures Operation(document, name).Some? ==> exists i :: AnswersFirst(document, name, i)
  {
    if document != [] {
      var rest := document[1..];
      FirstOperation(rest, name);
      if Answers(document[0], name) {
        assert AnswersFirst(document, name, 0);
      } else {
        forall i | AnswersFirst(document, name, i) ensures Operation(document, name) == Some(document[i]) {
          assert AnswersFirst(rest, name, i - 1);
        }
        if i :| AnswersFirst(rest, name, i) { assert AnswersFirst(document, name, i + 1); }
      }
    }
  }

  /** Measures an operation on a fresh analyzer. `walked` lists the spreads whose body was walked: each one
      that the operation reaches, once, so on a valid document no more than there are fragments, however the
      document fans them out. */
  method Measure(ctx: Context, operation: Definition) returns (total: int, ghost walked: seq<SpreadKey>)
    requires operation.OperationDefinition? && Acyclic(ctx.fragments)
    ensures OperationCost(ctx, operation) == Some(total) && OperationPriced(ctx, operation, total)
    ensures WalkedOnce(ctx, operation, walked)
    ensures ConditionsKnown(ctx.schema, ctx.fragments) ==> |walked| <= |ctx.fragments|
  {
    walked := [];
    if operation.kind !in ctx.schema.roots {
      return 0, walked;
    }
    hide OperationPriced;
    var analyzer := new CostAnalyzer(ctx);
    total := analyzer.SelectionSetCost(operation.selections, ctx.schema.roots[operation.kind]);
    walked := analyzer.expansions;
    assert Elements(walked) == analyzer.spreadCosts.Keys;
    OperationPrice(ctx, operation, total);
    if ConditionsKnown(ctx.schema, ctx.fragments) {
      WorkBounds.CostExpansionsAreFew(ctx.schema, ctx.fragments, walked, analyzer.spreadCosts.Keys);
    }
  }

  /** The report is refused exactly for documents whose fragments refer to each other in a cycle. */
  method AnalyzeCost(schema: Schema, settings: CostSettings, maxCost: Option<int>,
                     document: seq<Definition>, operationName: Option<Name>, variables: Variables)
    returns (report: Report, ghost walked: seq<SpreadKey>)
    ensures ConditionsKnown(schema, FragmentsOf(document)) ==> |walked| <= |FragmentsOf(document)|
    ensures report.Report? && Operation(document, operationName).Some? ==>
              var o := Operation(document, operationName).value;
              WalkedOnce(Context(schema, FragmentsOf(document), settings, variables, o.defaults), o, walked)
    ensures report.CyclicFragments? <==> !Acyclic(FragmentsOf(document))
    ensures report.Report? ==> report.maxCost == maxCost
    ensures report.Report? && (forall d <- document :: !Answers(d, operationName)) ==> report.total == 0
    ensures forall i | report.Report? && AnswersFirst(document, operationName, i) ::
              OperationPriced(Context(schema, FragmentsOf(document), settings, variables, document[i].defaults),
                              document[i], report.total)
    ensures report.Report? ==>
      match Operation(document, operationName)
      case None => report.total == 0
      case Some(o) =>
        OperationCost(Context(schema, FragmentsOf(document), settings, variables, o.defaults), o) == Some(report.total)
  {
    walked := [];
    var cycle := FindFragmentCycle(document);
    if cycle.Some? {
      return CyclicFragments(cycle.value), walked;
    }
    FirstOperation(document, operationName);
    match Operation(document, operationName)
    case None => report := Report(0, maxCost);
    case Some(o) =>
      var total;
      total, walked := Measure(Context(schema, FragmentsOf(document), settings, variables, o.defaults), o);
      report := Report(total, maxCost);
  }

  /** The validation rule: over budget, judged without variables and without declared defaults. */
  method ExceedsBudget(schema: Schema, settings: CostSettings, maxCost: Option<int>,
      document: seq<Definition>, operation: Definition)
    returns (refused: bool, ghost walked: seq<SpreadKey>)
    requires operation.OperationDefinition?
    ensures ConditionsKnown(schema, FragmentsOf(document)) ==> |walked| <= |FragmentsOf(document)|
    ensures Acyclic(FragmentsOf(document)) && IsSet(maxCost) ==>
              WalkedOnce(Context(schema, FragmentsOf(document), settings, map[], map[]), operation, walked)
    ensures var ctx := Context(schema, FragmentsOf(document), settings, map[], map[]);
            refused <==> Acyclic(FragmentsOf(document)) && maxCost.Some? && maxCost.value != 0
                         && exists total :: total > maxCost.value && OperationPriced(ctx, operation, total)
    ensures var ctx := Context(schema, FragmentsOf(document), settings, map[], map[]);
            refused <==> (Acyclic(FragmentsOf(document)) && IsSet(maxCost)
                          && OperationCost(ctx, operation).Some? && OperationCost(ctx, operation).value > maxCost.value)
  {
    walked := [];
    var cycle := FindFragmentCycle(document);
    if cycle.Some? || !IsSet(maxCost) {
      return false, walked;
    }
    var total;
    ghost var ctx := Context(schema, FragmentsOf(document), settings, map[], map[]);
    total, walked := Measure(Context(schema, FragmentsOf(document), settings, map[], map[]), operation);
    forall n ensures OperationPriced(ctx, operation, n) <==> n == total { OperationPrice(ctx, operation, n); }
    return total > maxCost.value, walked;
  }

  /** A query the rule lets through stays within the budget under every variable binding. */
  lemma AdmittedStaysWithinBudget(ctx: Context, operation: Definition, maxCost: int)
    requires operation.OperationDefinition? && Acyclic(ctx.fragments) && BoundsPages(ctx.settings) && maxCost >= 0
    requires OperationCost(Unbound(ctx), operation).Some? && OperationCost(Unbound(ctx), operation).value <= maxCost
    ensures OperationCost(ctx, operation).Some? && OperationCost(ctx, operation).value <= maxCost
  {
    if operation.kind in ctx.schema.roots {
      ValidationNeverUndercounts(ctx, 0, Expand(ctx.fragments, |ctx.fragments|, operation.selections),
                                 ctx.schema.roots[operation.kind]);
    }
  }
}
