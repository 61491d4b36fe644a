/** Structural check of the fragment reference graph: edges by a worklist, then Kahn's reduction. */
module FragmentCycles {
  import opened Options
  import opened Document
  import opened Graphs
  import opened Sequences

  /** The known fragments each known fragment refers to. */
  function ReferenceGraph(fragments: Fragments): (g: Graph<Name>)
    ensures g.Keys == fragments.Keys && Closed(g)
  {
    map f | f in fragments :: SpreadsIn(fragments[f].selections) * fragments.Keys
  }

  lemma RankReading(fragments: Fragments, rank: map<Name, nat>)
    ensures Ranks(ReferenceGraph(fragments), rank) <==> IsRank(fragments, rank)
  {
    var g := ReferenceGraph(fragments);
    assert |g| == |g.Keys| == |fragments.Keys| == |fragments|;
  }

  /** The document's fragments refer to each other without a cycle: there is no closed path of references. */
  lemma AcyclicMeansNoCycle(fragments: Fragments)
    requires Acyclic(fragments)
    ensures forall f :: !OnCycle(ReferenceGraph(fragments), f)
  {
    var rank :| IsRank(fragments, rank);
    RankReading(fragments, rank);
    forall f ensures !OnCycle(ReferenceGraph(fragments), f) {
      RankedHasNoCycle(ReferenceGraph(fragments), rank, f);
    }
  }

  // ------------------------------------------------------------------ collecting edges

  function Size(ss: seq<Selection>): nat
    decreases ss
  {
    if ss == [] then 0 else SizeOf(ss[0]) + Size(ss[1..])
  }

  function SizeOf(s: Selection): nat
    decreases s
  {
    match s
    case Object(_, children) => 2 + Size(children)
    case Inline(_, _, children) => 2 + Size(children)
    case _ => 1
  }

  function PendingSize(pending: seq<seq<Selection>>): nat {
    if pending == [] then 0 else PendingSize(pending[..|pending| - 1]) + 1 + Size(pending[|pending| - 1])
  }

  function PendingSpreads(pending: seq<seq<Selection>>): set<Name> {
    if pending == [] then {} else PendingSpreads(pending[..|pending| - 1]) + SpreadsIn(pending[|pending| - 1])
  }

  lemma {:induction false} SpreadsInSplit(ss: seq<Selection>)
    requires ss != []
    ensures SpreadsIn(ss) == SpreadsOf(ss[0]) + SpreadsIn(ss[1..])
    ensures Size(ss) == SizeOf(ss[0]) + Size(ss[1..])
  {
    var init, last := ss[..|ss| - 1], ss[|ss| - 1];
    if |ss| == 1 {
      assert init == [] && ss[1..] == [];
    } else {
      SpreadsInSplit(init);
      assert init[1..] == ss[1..][..|ss[1..]| - 1];
    }
  }

  lemma PendingPush(pending: seq<seq<Selection>>, ss: seq<Selection>)
    ensures PendingSpreads(pending + [ss]) == PendingSpreads(pending) + SpreadsIn(ss)
    ensures PendingSize(pending + [ss]) == PendingSize(pending) + 1 + Size(ss)
  {
    assert (pending + [ss])[..|pending|] == pending;
  }

  lemma CountOneMore(counts: map<Name, nat>, targets: set<Name>, target: Name)
    requires target in counts && target !in targets
    ensures Count(counts, targets + {target}) == Count(counts, targets)[target := Count(counts, targets)[target] + 1]
  {
  }

  /** Of the names in `all`, the known ones are the targets found and those in `open`. */
  ghost predicate Covers(all: set<Name>, known: set<Name>, targets: set<Name>, open: set<Name>) {
    targets <= known && all * known == targets + open * known
  }

  lemma CoverOne(all: set<Name>, known: set<Name>, targets: set<Name>, open: set<Name>, name: Name)
    requires Covers(all, known, targets, open + {name})
    ensures Covers(all, known, if name in known then targets + {name} else targets, open)
    ensures name in targets ==> targets + {name} == targets
  {
  }

  /** One selection set: its known spreads are counted, its nested sets are left pending. */
  method ScanSelections(fragments: Fragments, selections: seq<Selection>, ghost all: set<Name>, counts: map<Name, nat>,
                        found: set<Name>, counted: map<Name, nat>, waiting: seq<seq<Selection>>)
    returns (targets: set<Name>, incoming: map<Name, nat>, pending: seq<seq<Selection>>)
    requires counts.Keys == fragments.Keys && counted == Count(counts, found)
    requires Covers(all, fragments.Keys, found, PendingSpreads(waiting) + SpreadsIn(selections))
    ensures incoming == Count(counts, targets)
    ensures Covers(all, fragments.Keys, targets, PendingSpreads(pending))
    ensures PendingSize(pending) <= PendingSize(waiting) + Size(selections)
  {
    hide PendingSpreads, PendingSize, Size, Count, SpreadsIn, Covers;
    targets, incoming, pending := found, counted, waiting;
    var rest := selections;
    while rest != []
      invariant incoming == Count(counts, targets)
      invariant Covers(all, fragments.Keys, targets, PendingSpreads(pending) + SpreadsIn(rest))
      invariant PendingSize(pending) + Size(rest) <= PendingSize(waiting) + Size(selections)
      decreases |rest|
    {
      SpreadsInSplit(rest);
      match rest[0] {
      case Spread(target, _) =>
        ghost var open := PendingSpreads(pending) + SpreadsIn(rest[1..]);
        assert PendingSpreads(pending) + SpreadsIn(rest) == open + {target};
        CoverOne(all, fragments.Keys, targets, open, target);
        if target in fragments && target !in targets {
          CountOneMore(counts, targets, target);
          targets := targets + {target};
          incoming := incoming[target := incoming[target] + 1];
        }
      case Leaf(_) =>
        assert PendingSpreads(pending) + SpreadsIn(rest) == PendingSpreads(pending) + SpreadsIn(rest[1..]);
      case _ =>
        PendingPush(pending, rest[0].children);
        assert PendingSpreads(pending) + SpreadsIn(rest)
            == PendingSpreads(pending + [rest[0].children]) + SpreadsIn(rest[1..]);
        pending := pending + [rest[0].children];
      }
      rest := rest[1..];
    }
    NothingLeft(pending);
  }

  lemma NothingLeft(pending: seq<seq<Selection>>)
    ensures PendingSpreads(pending) + SpreadsIn([]) == PendingSpreads(pending) && Size([]) == 0
  {
  }

  /** The known fragments a body refers to, each counted once as incoming. */
  method CollectReferences(fragments: Fragments, body: seq<Selection>, counts: map<Name, nat>)
    returns (targets: set<Name>, incoming: map<Name, nat>)
    requires counts.Keys == fragments.Keys
    ensures targets == SpreadsIn(body) * fragments.Keys
    ensures incoming == Count(counts, targets)
  {
    targets, incoming := {}, counts;
    assert incoming == Count(counts, targets);
    var pending := [body];
    assert PendingSpreads(pending) == SpreadsIn(body) by {
      PendingPush([], body);
      assert [] + [body] == pending;
    }
    while pending != []
      invariant incoming == Count(counts, targets)
      invariant Covers(SpreadsIn(body), fragments.Keys, targets, PendingSpreads(pending))
      decreases PendingSize(pending)
    {
      var selections := pending[|pending| - 1];
      pending := pending[..|pending| - 1];
      targets, incoming, pending := ScanSelections(fragments, selections, SpreadsIn(body), counts, targets, incoming,
          pending);
    }
  }

  // ----------------------------------------------------------------- the whole check

  /** The named fragments of a document; a repeated name keeps its last definition. */
  function FragmentsOf(document: seq<Definition>): Fragments {
    if document == [] then map[]
    else
      var before := FragmentsOf(document[..|document| - 1]);
      match document[|document| - 1]
      case FragmentDefinition(name, fragment) => before[name := fragment]
      case _ => before
  }

  /** Where a fragment is defined for the last time. */
  ghost predicate LastDefined(document: seq<Definition>, name: Name, i: int) {
    && 0 <= i < |document| && document[i].FragmentDefinition? && document[i].name == name
    && forall j :: i < j < |document| && document[j].FragmentDefinition? ==> document[j].name != name
  }

  /** A name is known exactly when it is defined, and means its last definition. */
  lemma {:induction false} LastDefinitionCounts(document: seq<Definition>, name: Name)
    ensures name in FragmentsOf(document) <==> exists i :: LastDefined(document, name, i)
    ensures forall i :: LastDefined(document, name, i) ==> FragmentsOf(document)[name] == document[i].fragment
  {
    if document != [] {
      var n := |document| - 1;
      var init := document[..n];
      LastDefinitionCounts(init, name);
      if document[n].FragmentDefinition? && document[n].name == name {
        assert LastDefined(document, name, n);
      } else {
        forall i ensures LastDefined(init, name, i) <==> LastDefined(document, name, i) {
          if LastDefined(document, name, i) { assert init[i] == document[i]; }
        }
      }
    }
  }

  /** Their names, in the order in which they first appear. */
  function FragmentNames(document: seq<Definition>): (names: seq<Name>)
    ensures Distinct(names) && Elements(names) == FragmentsOf(document).Keys
  {
    if document == [] then []
    else
      var before := FragmentNames(document[..|document| - 1]);
      match document[|document| - 1]
      case FragmentDefinition(name, _) =>
        ElementsSnoc(before, name);
        if name in before then before else before + [name]
      case _ => before
  }

  /** The edges of the reference graph and, for each fragment, how many fragments refer to it. */
  method CountReferences(fragments: Fragments, names: seq<Name>) returns (edges: map<Name, set<Name>>,
      incoming: map<Name, nat>)
    requires Distinct(names) && Elements(names) == fragments.Keys
    ensures edges == ReferenceGraph(fragments) && Degrees(edges, incoming)
  {
    ghost var g := ReferenceGraph(fragments);
    edges := map[];
    incoming := map f | f in fragments :: 0;
    ScanStart(g, names, incoming);
    for i := 0 to |names|
      invariant Scanned(g, names, i, edges, incoming)
    {
      hide Scanned, Elements, Distinct, Count;
      var name := names[i];
      ScanNext(g, names, i, edges, incoming);
      var targets;
      targets, incoming := CollectReferences(fragments, fragments[name].selections, incoming);
      edges := edges[name := targets];
    }
    ScanEnd(g, names, edges, incoming);
  }

  /** None exactly when the references of the document's fragments have no cycle; otherwise a
      fragment that some cycle leads to. */
  method FindFragmentCycle(document: seq<Definition>) returns (cycle: Option<Name>)
    ensures cycle.None? <==> Acyclic(FragmentsOf(document))
    ensures cycle.None? <==> forall f :: !OnCycle(ReferenceGraph(FragmentsOf(document)), f)
    ensures cycle.Some? ==> cycle.value in FragmentsOf(document)
    ensures cycle.Some? ==> exists c ::
              OnCycle(ReferenceGraph(FragmentsOf(document)), c)
                  && Reaches(ReferenceGraph(FragmentsOf(document)), c, cycle.value)
  {
    var fragments, names := FragmentsOf(document), FragmentNames(document);
    var edges, degrees := CountReferences(fragments, names);
    var incoming := Reduce(edges, names, degrees);
    cycle := FirstPositive(names, incoming);
    if cycle.Some? {
      assert cycle.value in Elements(names);
      HasCycle(fragments, cycle.value);
    } else {
      HasRank(fragments);
      AcyclicMeansNoCycle(fragments);
    }
  }

  lemma HasCycle(fragments: Fragments, t: Name)
    requires exists c :: OnCycle(ReferenceGraph(fragments), c) && Reaches(ReferenceGraph(fragments), c, t)
    ensures !Acyclic(fragments) && exists f :: OnCycle(ReferenceGraph(fragments), f)
  {
    var c :| OnCycle(ReferenceGraph(fragments), c) && Reaches(ReferenceGraph(fragments), c, t);
    if Acyclic(fragments) { AcyclicMeansNoCycle(fragments); }
  }

  lemma HasRank(fragments: Fragments)
    requires exists rank :: Ranks(ReferenceGraph(fragments), rank)
    ensures Acyclic(fragments)
  {
    var rank :| Ranks(ReferenceGraph(fragments), rank);
    RankReading(fragments, rank);
  }
}
