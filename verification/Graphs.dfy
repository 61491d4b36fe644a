/** Kahn's reduction of a finite directed graph: it drains the nodes nothing refers to, and what it
    cannot drain is exactly what cycles lead to. */
module Graphs {
  import opened Options
  import opened Sequences

  /** Each node with the nodes it refers to. */
  type Graph<N> = map<N, set<N>>

  ghost predicate Closed<N>(g: Graph<N>) {
    forall f <- g :: g[f] <= g.Keys
  }

  ghost predicate IsPath<N>(g: Graph<N>, p: seq<N>) {
    && p != []
    && (forall i :: 0 <= i < |p| ==> p[i] in g)
    && forall i :: 0 < i < |p| ==> p[i] in g[p[i - 1]]
  }

  ghost predicate Reaches<N(!new)>(g: Graph<N>, f: N, t: N) {
    exists p :: IsPath(g, p) && p[0] == f && p[|p| - 1] == t
  }

  /** A path of at least one reference leads from the node back to itself. */
  ghost predicate OnCycle<N(!new)>(g: Graph<N>, f: N) {
    exists p :: IsPath(g, p) && |p| >= 2 && p[0] == f && p[|p| - 1] == f
  }

  /** A numbering that falls along every reference. */
  ghost predicate Ranks<N>(g: Graph<N>, rank: map<N, nat>) {
    && g.Keys <= rank.Keys
    && (forall f <- g :: rank[f] < |g|)
    && forall f <- g, t <- g :: t in g[f] ==> rank[t] < rank[f]
  }

  lemma {:induction false} RankFallsAlongPaths<N>(g: Graph<N>, rank: map<N, nat>, p: seq<N>)
    requires Ranks(g, rank) && IsPath(g, p)
    ensures rank[p[|p| - 1]] + |p| - 1 <= rank[p[0]]
  {
    if |p| > 1 {
      RankFallsAlongPaths(g, rank, p[..|p| - 1]);
    }
  }

  lemma RankedHasNoCycle<N(!new)>(g: Graph<N>, rank: map<N, nat>, f: N)
    requires Ranks(g, rank)
    ensures !OnCycle(g, f)
  {
    if OnCycle(g, f) {
      var p :| IsPath(g, p) && |p| >= 2 && p[0] == f && p[|p| - 1] == f;
      RankFallsAlongPaths(g, rank, p);
    }
  }

  // ------------------------------------------------- a residue without sources is cyclic

  /** The nodes among some set that refer to `t`. */
  function Sources<N>(g: Graph<N>, among: set<N>, t: N): set<N>
    requires among <= g.Keys
  {
    set s | s in among && t in g[s]
  }

  /** Every node of `left` is referred to by one of them. */
  ghost predicate NoSource<N>(g: Graph<N>, left: set<N>) {
    && left <= g.Keys
    && forall t {:trigger Sources(g, left, t)} :: t in left ==> Sources(g, left, t) != {}
  }

  /** Walking references backwards inside such a set runs into a cycle, from which the start is reached. */
  lemma {:induction false} BackwardsIntoCycle<N(!new)>(g: Graph<N>, left: set<N>, p: seq<N>)
    requires NoSource(g, left)
    requires IsPath(g, p) && Distinct(p) && Elements(p) <= left
    ensures exists c :: OnCycle(g, c) && Reaches(g, c, p[|p| - 1])
    decreases |left| - |p|
  {
    DistinctSize(p);
    SubsetSize(Elements(p), left);
    assert p[0] in Elements(p);
    assert Sources(g, left, p[0]) != {};
    var q :| q in Sources(g, left, p[0]);
    if q in p {
      var i :| 0 <= i < |p| && p[i] == q;
      CycleClosed(g, q, p, i);
    } else {
      PathPrepended(g, q, p, left);
      DistinctSize([q] + p);
      SubsetSize(Elements([q] + p), left);
      BackwardsIntoCycle(g, left, [q] + p);
    }
  }

  lemma PathPrepended<N>(g: Graph<N>, q: N, p: seq<N>, left: set<N>)
    requires q in g && IsPath(g, p) && p[0] in g[q]
    requires q in left && q !in p && Distinct(p) && Elements(p) <= left
    ensures IsPath(g, [q] + p) && Distinct([q] + p) && Elements([q] + p) <= left
  {
    assert forall i :: 0 < i < |[q] + p| ==> ([q] + p)[i] == p[i - 1];
  }

  lemma CycleClosed<N(!new)>(g: Graph<N>, q: N, p: seq<N>, i: nat)
    requires q in g && IsPath(g, p) && p[0] in g[q]
    requires i < |p| && p[i] == q
    ensures OnCycle(g, q) && Reaches(g, q, p[|p| - 1])
  {
    var loop, rest := [q] + p[..i + 1], p[i..];
    assert IsPath(g, loop) && |loop| >= 2 && loop[0] == q && loop[|loop| - 1] == q;
    assert IsPath(g, rest) && rest[0] == q && rest[|rest| - 1] == p[|p| - 1];
  }

  lemma NoSourceIsCyclic<N(!new)>(g: Graph<N>, left: set<N>, t: N)
    requires NoSource(g, left) && t in left
    ensures exists c :: OnCycle(g, c) && Reaches(g, c, t)
  {
    BackwardsIntoCycle(g, left, [t]);
    assert [t][|[t]| - 1] == t;
  }

  // ------------------------------------------------------- an order along the references

  /** Every node that refers to an element of `order` stands earlier in it. */
  ghost predicate SourcesFirst<N>(g: Graph<N>, order: seq<N>) {
    order == [] ||
    var init, last := order[..|order| - 1], order[|order| - 1];
    && last in g && last !in init
    && (forall s <- g :: last in g[s] ==> s in init)
    && SourcesFirst(g, init)
  }

  function IndexOf<N(==)>(order: seq<N>, f: N): (i: nat)
    requires f in order
    ensures i < |order|
  {
    if order[|order| - 1] == f then |order| - 1 else IndexOf(order[..|order| - 1], f)
  }

  /** A reference leads from an earlier to a later place. */
  lemma {:induction false} SourceStandsEarlier<N>(g: Graph<N>, order: seq<N>, f: N, t: N)
    requires SourcesFirst(g, order) && f in g && t in order && t in g[f]
    ensures f in order && IndexOf(order, f) < IndexOf(order, t)
  {
    var init, last := order[..|order| - 1], order[|order| - 1];
    if t != last {
      SourceStandsEarlier(g, init, f, t);
    }
  }

  lemma {:induction false} SourcesFirstIsDistinct<N>(g: Graph<N>, order: seq<N>)
    requires SourcesFirst(g, order)
    ensures |Elements(order)| == |order| && Elements(order) <= g.Keys
  {
    if order != [] {
      var init, last := order[..|order| - 1], order[|order| - 1];
      SourcesFirstIsDistinct(g, init);
      assert order == init + [last];
      ElementsSnoc(init, last);
    }
  }

  lemma CompleteOrderRanks<N>(g: Graph<N>, order: seq<N>) returns (rank: map<N, nat>)
    requires SourcesFirst(g, order) && Elements(order) == g.Keys
    ensures Ranks(g, rank)
  {
    SourcesFirstIsDistinct(g, order);
    assert forall f <- g :: f in Elements(order);
    rank := map f | f in g :: |order| - 1 - IndexOf(order, f);
    forall f <- g, t <- g | t in g[f] ensures rank[t] < rank[f] {
      SourceStandsEarlier(g, order, f, t);
    }
  }

  // ------------------------------------------------------------------- the reduction

  /** `done` was drained in this order and `left` was not. */
  ghost predicate Drained<N>(g: Graph<N>, done: seq<N>, left: set<N>) {
    SourcesFirst(g, done) && left == g.Keys - Elements(done)
  }

  /** Degrees count the sources in `left`, and a drained node's references to `todo` once more;
      `ready` holds what is left with degree zero. */
  ghost predicate Counted<N>(g: Graph<N>, left: set<N>, ready: seq<N>, incoming: map<N, nat>, todo: set<N>) {
    && todo <= left <= g.Keys == incoming.Keys
    && (forall t <- left :: incoming[t] == |Sources(g, left, t)| + if t in todo then 1 else 0)
    && (forall t <- g :: t !in left ==> incoming[t] == 0)
    && Distinct(ready)
    && (forall r <- left :: r in ready <==> incoming[r] == 0)
    && Elements(ready) <= left
  }

  lemma SourcesMember<N>(g: Graph<N>, among: set<N>, s: N, t: N)
    requires among <= g.Keys && s in among && t in g[s]
    ensures s in Sources(g, among, t)
  {
  }

  /** The front of the queue is referred to only by what was drained, and refers only to what is left. */
  lemma FrontHasNoSource<N>(g: Graph<N>, done: seq<N>, left: set<N>, x: N)
    requires Closed(g) && Drained(g, done, left) && x in left && Sources(g, left, x) == {}
    ensures Drained(g, done + [x], left - {x})
    ensures g[x] <= left - {x}
  {
    ElementsSnoc(done, x);
    assert (done + [x])[..|done|] == done;
    forall s <- left ensures x !in g[s] {
      if x in g[s] { SourcesMember(g, left, s, x); }
    }
    forall t <- g[x] ensures t in left {
      if t in done { SourceStandsEarlier(g, done, x, t); }
    }
  }

  lemma DegreesWithout<N>(g: Graph<N>, left: set<N>, x: N, t: N)
    requires left <= g.Keys && x in left
    ensures |Sources(g, left, t)| == |Sources(g, left - {x}, t)| + if t in g[x] then 1 else 0
  {
    if t in g[x] {
      assert Sources(g, left, t) == Sources(g, left - {x}, t) + {x};
    } else {
      assert Sources(g, left, t) == Sources(g, left - {x}, t);
    }
  }

  lemma FrontIsReady<N>(g: Graph<N>, left: set<N>, ready: seq<N>, incoming: map<N, nat>)
    requires Counted(g, left, ready, incoming, {}) && ready != []
    ensures ready[0] in left && Sources(g, left, ready[0]) == {}
  {
    assert ready[0] in Elements(ready);
    assert |Sources(g, left, ready[0])| == 0;
  }

  lemma TakeReady<N>(g: Graph<N>, left: set<N>, ready: seq<N>, incoming: map<N, nat>)
    requires Counted(g, left, ready, incoming, {}) && ready != []
    requires ready[0] in left && g[ready[0]] <= left - {ready[0]}
    ensures Counted(g, left - {ready[0]}, ready[1..], incoming, g[ready[0]])
  {
    hide Sources;
    var x := ready[0];
    assert ready == [x] + ready[1..];
    forall t <- left ensures incoming[t] == |Sources(g, left - {x}, t)| + if t in g[x] then 1 else 0 {
      DegreesWithout(g, left, x, t);
    }
    forall r <- Elements(ready[1..]) ensures r in left - {x} { assert r in Elements(ready); }
  }

  lemma Decrement<N>(g: Graph<N>, left: set<N>, ready: seq<N>, incoming: map<N, nat>, todo: set<N>, t: N)
    requires Counted(g, left, ready, incoming, todo) && t in todo
    ensures t in incoming && incoming[t] > 0
    ensures Counted(g, left, if incoming[t] == 1 then ready + [t] else ready,
        incoming[t := incoming[t] - 1], todo - {t})
  {
    hide Sources;
    assert t !in ready;
    ElementsSnoc(ready, t);
  }

  lemma DrainedFits<N>(g: Graph<N>, done: seq<N>, left: set<N>)
    requires Drained(g, done, left)
    ensures |done| <= |g|
  {
    SourcesFirstIsDistinct(g, done);
    SubsetSize(Elements(done), g.Keys);
  }

  /** When nothing is ready, what was not drained has no source among itself. */
  lemma StuckIsCyclic<N(!new)>(g: Graph<N>, left: set<N>, incoming: map<N, nat>, t: N)
    requires Counted(g, left, [], incoming, {})
    requires t in g && incoming[t] != 0
    ensures exists c :: OnCycle(g, c) && Reaches(g, c, t)
  {
    hide Sources, OnCycle, Reaches, Distinct, Elements;
    forall u <- left ensures Sources(g, left, u) != {} {
      assert incoming[u] == |Sources(g, left, u)|;
    }
    NoSourceIsCyclic(g, left, t);
  }

  /** The drained node's references stop counting; nodes without further sources become ready. */
  method Drain<N(==)>(ghost g: Graph<N>, targets: set<N>, ghost left: set<N>, waiting: seq<N>, counts: map<N, nat>)
    returns (ready: seq<N>, incoming: map<N, nat>)
    requires Counted(g, left, waiting, counts, targets)
    ensures Counted(g, left, ready, incoming, {})
  {
    hide Counted;
    ready, incoming := waiting, counts;
    var todo := targets;
    while todo != {}
      invariant Counted(g, left, ready, incoming, todo)
      decreases todo
    {
      var target :| target in todo;
      Decrement(g, left, ready, incoming, todo, target);
      incoming := incoming[target := incoming[target] - 1];
      if incoming[target] == 0 {
        ready := ready + [target];
      }
      todo := todo - {target};
    }
  }

  function Count<N>(incoming: map<N, nat>, targets: set<N>): (r: map<N, nat>)
    ensures r.Keys == incoming.Keys
  {
    map t | t in incoming :: incoming[t] + if t in targets then 1 else 0
  }

  /** Degrees at the start: how many nodes refer to each. */
  ghost predicate Degrees<N>(g: Graph<N>, incoming: map<N, nat>) {
    incoming.Keys == g.Keys && forall t <- g :: incoming[t] == |Sources(g, g.Keys, t)|
  }

  /** Edges and degrees when the first `count` nodes were looked at. */
  ghost predicate Scanned<N>(g: Graph<N>, names: seq<N>, count: nat, edges: Graph<N>, incoming: map<N, nat>) {
    && Distinct(names) && Elements(names) == g.Keys == incoming.Keys
    && count <= |names| && edges.Keys == Elements(names[..count]) && edges.Keys <= g.Keys
    && (forall f <- edges :: edges[f] == g[f])
    && forall t <- g :: incoming[t] == |Sources(g, edges.Keys, t)|
  }

  lemma ScanStart<N>(g: Graph<N>, names: seq<N>, incoming: map<N, nat>)
    requires Distinct(names) && Elements(names) == g.Keys == incoming.Keys
    requires forall t <- g :: incoming[t] == 0
    ensures Scanned(g, names, 0, map[], incoming)
  {
    forall t <- g ensures |Sources(g, {}, t)| == 0 {
      assert Sources(g, {}, t) == {};
    }
    var none: Graph<N> := map[];
    assert none.Keys == {} == Elements(names[..0]);
  }

  lemma ScanNext<N>(g: Graph<N>, names: seq<N>, count: nat, edges: Graph<N>, incoming: map<N, nat>)
    requires Scanned(g, names, count, edges, incoming) && count < |names|
    ensures names[count] in g && incoming.Keys == g.Keys
    ensures Scanned(g, names, count + 1, edges[names[count] := g[names[count]]], Count(incoming, g[names[count]]))
  {
    var f, seen := names[count], edges.Keys;
    NextElement(names, count);
    assert edges[f := g[f]].Keys == seen + {f};
    hide Elements, Distinct, Sources, Count;
    CountNext(g, seen, f, incoming);
  }

  lemma CountNext<N>(g: Graph<N>, seen: set<N>, f: N, incoming: map<N, nat>)
    requires seen <= g.Keys == incoming.Keys && f in g && f !in seen
    requires forall t <- g :: incoming[t] == |Sources(g, seen, t)|
    ensures forall t <- g :: Count(incoming, g[f])[t] == |Sources(g, seen + {f}, t)|
  {
    hide Sources;
    forall t <- g ensures Count(incoming, g[f])[t] == |Sources(g, seen + {f}, t)| {
      assert seen + {f} - {f} == seen;
      DegreesWithout(g, seen + {f}, f, t);
    }
  }

  lemma ScanEnd<N>(g: Graph<N>, names: seq<N>, edges: Graph<N>, incoming: map<N, nat>)
    requires Scanned(g, names, |names|, edges, incoming)
    ensures edges == g && Degrees(g, incoming)
  {
    assert names[..|names|] == names;
  }

  method FirstPositive<N>(names: seq<N>, incoming: map<N, nat>) returns (first: Option<N>)
    requires Elements(names) == incoming.Keys
    ensures first.None? ==> forall t <- incoming :: incoming[t] == 0
    ensures first.Some? ==> exists i :: 0 <= i < |names| && names[i] == first.value && incoming[names[i]] != 0
                                  && forall j :: 0 <= j < i ==> incoming[names[j]] == 0
  {
    assert forall i :: 0 <= i < |names| ==> names[i] in Elements(names);
    for i := 0 to |names|
      invariant forall j :: 0 <= j < i ==> incoming[names[j]] == 0
    {
      if incoming[names[i]] != 0 {
        return Some(names[i]);
      }
    }
    forall t <- incoming ensures incoming[t] == 0 {
      assert t in Elements(names);
    }
    return None;
  }

  function WithoutSources<N(==,!new)>(names: seq<N>, incoming: map<N, nat>): (r: seq<N>)
    requires forall n :: n in names ==> n in incoming
    ensures forall n :: n in r <==> n in names && incoming[n] == 0
    ensures Distinct(names) ==> Distinct(r)
  {
    if names == [] then []
    else
      var rest := WithoutSources(names[1..], incoming);
      if incoming[names[0]] == 0 then [names[0]] + rest else rest
  }

  /** Drains the graph; a degree that stays positive marks a node that some cycle leads to, and when
      there is none the graph has a rank and no cycle. */
  method Reduce<N(==,!new)>(g: Graph<N>, names: seq<N>, degrees: map<N, nat>) returns (incoming: map<N, nat>)
    requires Closed(g) && Distinct(names) && Elements(names) == g.Keys && Degrees(g, degrees)
    ensures incoming.Keys == g.Keys
    ensures forall t <- g :: incoming[t] != 0 ==> exists c :: OnCycle(g, c) && Reaches(g, c, t)
    ensures (forall t <- g :: incoming[t] == 0) ==> exists rank :: Ranks(g, rank)
  {
    incoming := degrees;
    assert forall n :: n in names ==> n in Elements(names);
    var ready := WithoutSources(names, incoming);
    ghost var done: seq<N>, left := [], g.Keys;
    NothingDrained(g, names, incoming);
    while ready != []
      invariant Counted(g, left, ready, incoming, {}) && Drained(g, done, left)
      decreases |g| - |done|
    {
      hide *;
      FrontIsReady(g, left, ready, incoming);
      var name := ready[0];
      FrontHasNoSource(g, done, left, name);
      TakeReady(g, left, ready, incoming);
      done, left := done + [name], left - {name};
      DrainedFits(g, done, left);
      ready, incoming := Drain(g, g[name], left, ready[1..], incoming);
    }
    forall t <- g | incoming[t] != 0 ensures exists c :: OnCycle(g, c) && Reaches(g, c, t) {
      StuckIsCyclic(g, left, incoming, t);
    }
    if forall t <- g :: incoming[t] == 0 {
      var rank := AllDrained(g, done, left, incoming);
    }
  }

  lemma NothingDrained<N(!new)>(g: Graph<N>, names: seq<N>, incoming: map<N, nat>)
    requires Degrees(g, incoming) && Distinct(names) && Elements(names) == g.Keys
    requires forall n :: n in names ==> n in incoming
    ensures Counted(g, g.Keys, WithoutSources(names, incoming), incoming, {})
    ensures Drained<N>(g, [], g.Keys)
  {
    hide Sources;
    assert forall t <- g :: t in Elements(names);
    assert g.Keys - Elements<N>([]) == g.Keys;
  }

  lemma AllDrained<N>(g: Graph<N>, done: seq<N>, left: set<N>, incoming: map<N, nat>) returns (rank: map<N, nat>)
    requires Counted(g, left, [], incoming, {}) && Drained(g, done, left)
    requires forall t <- g :: incoming[t] == 0
    ensures Ranks(g, rank)
  {
    assert left == {};
    SourcesFirstIsDistinct(g, done);
    assert Elements(done) == g.Keys;
    rank := CompleteOrderRanks(g, done);
  }
}
