/** Facts about finite sequences that several modules share. */
module Sequences {
  function Init<T>(s: seq<T>): seq<T>
    requires s != []
  {
    s[..|s| - 1]
  }

  function Last<T>(s: seq<T>): T
    requires s != []
  {
    s[|s| - 1]
  }

  lemma InitLast<T>(s: seq<T>, x: T)
    ensures Init(s + [x]) == s && Last(s + [x]) == x
  {
  }

  ghost predicate Distinct<T>(s: seq<T>) {
    forall i, j :: 0 <= i < j < |s| ==> s[i] != s[j]
  }

  function Elements<T>(s: seq<T>): set<T> { set x | x in s }

  lemma ElementsSnoc<T>(s: seq<T>, x: T)
    ensures Elements(s + [x]) == Elements(s) + {x}
  {
  }

  lemma {:induction false} DistinctSize<T>(s: seq<T>)
    requires Distinct(s)
    ensures |Elements(s)| == |s|
  {
    if s != [] {
      var init, last := s[..|s| - 1], s[|s| - 1];
      DistinctSize(init);
      ElementsSnoc(init, last);
      assert init + [last] == s;
      assert last !in init;
    }
  }

  lemma SubsetSize<T>(a: set<T>, b: set<T>)
    requires a <= b
    ensures |a| <= |b|
  {
    assert |b| == |a| + |b - a| by { assert b == a + (b - a); }
  }

  lemma NextElement<T>(names: seq<T>, i: nat)
    requires i < |names| && Distinct(names)
    ensures names[i] in Elements(names) && names[i] !in Elements(names[..i])
    ensures Elements(names[..i + 1]) == Elements(names[..i]) + {names[i]}
  {
    assert names[..i + 1] == names[..i] + [names[i]];
    ElementsSnoc(names[..i], names[i]);
  }

  lemma {:induction false} AllDistinct<T>(s: seq<T>)
    requires |Elements(s)| == |s|
    ensures Distinct(s)
  {
    if s != [] {
      var init, last := Init(s), Last(s);
      assert init + [last] == s;
      ElementsSnoc(init, last);
      ElementsFit(init);
      assert last in init ==> Elements(s) == Elements(init);
      AllDistinct(init);
    }
  }

  lemma {:induction false} ElementsFit<T>(s: seq<T>)
    ensures |Elements(s)| <= |s|
  {
    if s != [] {
      assert Init(s) + [Last(s)] == s;
      ElementsSnoc(Init(s), Last(s));
      ElementsFit(Init(s));
    }
  }
}
