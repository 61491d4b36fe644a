/** How many fragment bodies a guard walks: a document that fans its spreads out costs no more than one
    walk for each fragment and remaining budget. */
module WorkBounds {
  import opened Options
  import opened Document
  import opened Sequences
  import opened Walks
  import CostWalker
  import Depth
  import DepthWalker

  lemma {:induction false} RowSize<A, B>(row: set<(A, B)>, a: A, seconds: set<B>)
    requires forall p <- row :: p.0 == a && p.1 in seconds
    ensures |row| <= |seconds|
    decreases seconds
  {
    if seconds == {} {
      assert row == {};
    } else {
      var b :| b in seconds;
      RowSize(row - {(a, b)}, a, seconds - {b});
      SubsetSize(row, row - {(a, b)} + {(a, b)});
    }
  }

  lemma {:induction false} ProductSize<A, B>(pairs: set<(A, B)>, firsts: set<A>, seconds: set<B>)
    requires forall p <- pairs :: p.0 in firsts && p.1 in seconds
    ensures |pairs| <= |firsts| * |seconds|
    decreases firsts
  {
    if firsts == {} {
      assert pairs == {};
    } else {
      var a :| a in firsts;
      var row := set p | p in pairs && p.0 == a;
      RowSize(row, a, seconds);
      ProductSize(pairs - row, firsts - {a}, seconds);
      assert pairs == row + (pairs - row);
      assert |pairs| == |row| + |pairs - row|;
      assert |firsts| * |seconds| == |firsts - {a}| * |seconds| + |seconds|;
    }
  }

  /** Keys that differ and fit their fragments are no more than fragments times what else keys hold. */
  lemma FewKeys<X>(schema: Schema, fragments: Fragments, keys: seq<Key<X>>, others: set<X>)
    requires Distinct(keys)
    requires forall i :: 0 <= i < |keys| ==> KeyFits(schema, fragments, keys[i]) && keys[i].2 in others
    requires forall f <- fragments :: fragments[f].condition in schema.types
    ensures |keys| <= |fragments| * |others|
  {
    var pairs := seq(|keys|, i requires 0 <= i < |keys| => (keys[i].0, keys[i].2));
    assert Distinct(pairs) by {
      forall i, j | 0 <= i < j < |pairs| ensures pairs[i] != pairs[j] {
        assert keys[i] != keys[j];
      }
    }
    DistinctSize(pairs);
    ProductSize(Elements(pairs), fragments.Keys, others);
    assert |fragments.Keys| == |fragments|;
  }

  /** One cost analysis of a valid document walks each fragment at most once. */
  lemma CostExpansionsAreFew(schema: Schema, fragments: Fragments, expansions: seq<CostWalker.SpreadKey>,
      settled: set<CostWalker.SpreadKey>)
    requires ExpandedOnce(schema, fragments, expansions, settled)
    requires forall f <- fragments :: fragments[f].condition in schema.types
    ensures |expansions| <= |fragments|
  {
    forall i | 0 <= i < |expansions| ensures expansions[i].2 in {()} {
      match expansions[i].2 case () =>
    }
    FewKeys(schema, fragments, expansions, {()});
  }

  function Budgets(n: nat): (r: set<Option<int>>)
    ensures |r| == n + 1 && forall b :: b in r <==> b.Some? && 0 <= b.value <= n
  {
    if n == 0 then {Some(0)} else Budgets(n - 1) + {Some(n)}
  }

  /** One depth walk of a valid document walks each fragment at most once for each remaining budget. */
  lemma DepthExpansionsAreFew(text: Depth.Text, expansions: seq<DepthWalker.SpreadKey>)
    requires DepthWalker.OnceEach(text, expansions) && DepthWalker.AllInRange(expansions)
    requires forall f <- text.fragments :: text.fragments[f].condition in text.schema.types
    ensures |expansions| <= |text.fragments| * (Depth.STRUCTURAL_DEPTH + 1)
  {
    FewKeys(text.schema, text.fragments, expansions, Budgets(Depth.STRUCTURAL_DEPTH));
  }
}
