/** What a depth verdict says about the places of a spread-free text: which fields are nested too
    deeply, and that the reported one is the first of them in document order. */
module DepthPaths {
  import opened Options
  import opened Document
  import opened Sequences
  import opened Depth

  /** A place: the index of a selection, then of one of its children, and so on. */
  type Path = seq<nat>

  /** Document order: a selection stands before its children, and both before what follows. */
  predicate Before(p: Path, q: Path) {
    q != [] && (p == [] || p[0] < q[0] || (p[0] == q[0] && Before(p[1..], q[1..])))
  }

  /** The budget that the field at a place exceeds, with the field. Every field on the way there may be
      nested too deeply itself: that does not hide what lies below it. */
  function Excess(text: Text, ss: seq<Selection>, ty: TypeName, depth: nat, constraints: seq<Constraint>,
      p: Path): Option<(Constraint, FieldHead)>
    decreases ss
  {
    if p == [] || p[0] >= |ss| then None
    else SelectionExcess(text, ss[p[0]], ty, depth, constraints, p[1..])
  }

  function SelectionExcess(text: Text, s: Selection, ty: TypeName, depth: nat, constraints: seq<Constraint>,
      rest: Path): Option<(Constraint, FieldHead)>
    decreases s
  {
    if IsSkipped(s, map[]) then None
    else
      match s
      case Leaf(_) => None
      case Spread(_, _) => None
      case Inline(condition, _, children) =>
        Excess(text, children, InlineType(text.schema, condition, ty), depth, constraints, rest)
      case Object(head, children) =>
        if IsIntrospection(head.name) then None
        else if rest == [] then
          (match FirstExceeded(constraints, depth + 1)
           case None => None
           case Some(c) => Some((c, head)))
        else if head.name !in FieldsOf(text.schema, ty) then None
        else
          var target := NamedType(FieldsOf(text.schema, ty)[head.name]);
          Excess(text, children, target, depth + 1, Entering(text.schema, target, depth + 1, constraints), rest)
  }

  ghost predicate Quiet(text: Text, ss: seq<Selection>, ty: TypeName, depth: nat, constraints: seq<Constraint>) {
    forall p: Path :: Excess(text, ss, ty, depth, constraints, p).None?
  }

  /** Place `p` is nested too deeply as `found` says, and nothing before it is. */
  ghost predicate FirstExcess(text: Text, ss: seq<Selection>, ty: TypeName, depth: nat,
      constraints: seq<Constraint>, p: Path,
                              found: (Constraint, FieldHead))
  {
    && Excess(text, ss, ty, depth, constraints, p) == Some(found)
    && forall q: Path :: Before(q, p) ==> Excess(text, ss, ty, depth, constraints, q).None?
  }

  ghost predicate SelectionQuiet(text: Text, s: Selection, ty: TypeName, depth: nat, constraints: seq<Constraint>) {
    forall rest: Path :: SelectionExcess(text, s, ty, depth, constraints, rest).None?
  }

  /** Without spreads to follow, a selection is clean exactly when no place in it is nested too deeply;
      otherwise the verdict is the first such place. */
  lemma {:induction false} SelectionReading(text: Text, s: Selection, ty: TypeName, depth: nat,
      constraints: seq<Constraint>) returns (rest: Path)
    requires SpreadsOf(s) !! text.fragments.Keys
    ensures var v := SelectionVerdict(text, 0, s, ty, depth, constraints);
            && !v.Unknown?
            && (v.Clean? <==> SelectionQuiet(text, s, ty, depth, constraints))
            && (v.Violation? ==>
                  && SelectionExcess(text, s, ty, depth, constraints, rest) == Some((v.constraint, v.field))
                  && forall q: Path :: Before(q, rest) ==> SelectionExcess(text, s, ty, depth, constraints, q).None?)
    decreases s
  {
    rest := [];
    match VisitOf(text, s, ty, depth, constraints)
    case Nested(children, target, depth', constraints') =>
      rest := Reading(text, children, target, depth', constraints');
      NestedExcess(text, s, ty, depth, constraints);
    case Broken(c, field) =>
      assert SelectionExcess(text, s, ty, depth, constraints, []) == Some((c, field));
    case _ =>
  }

  lemma NestedExcess(text: Text, s: Selection, ty: TypeName, depth: nat, constraints: seq<Constraint>)
    requires VisitOf(text, s, ty, depth, constraints).Nested?
    ensures var v := VisitOf(text, s, ty, depth, constraints);
            forall rest: Path :: SelectionExcess(text, s, ty, depth, constraints, rest)
                              == Excess(text, v.children, v.ty, v.depth, v.constraints, rest)
  {
  }

  /** The same for a selection set: its verdict is clean exactly when no place exceeds a budget, and
      otherwise names the budget and the field of the first place, in document order, that does. */
  lemma {:induction false} Reading(text: Text, ss: seq<Selection>, ty: TypeName, depth: nat,
      constraints: seq<Constraint>) returns (p: Path)
    requires SpreadsIn(ss) !! text.fragments.Keys
    ensures var v := SetVerdict(text, 0, ss, ty, depth, constraints);
            && !v.Unknown?
            && (v.Clean? <==> Quiet(text, ss, ty, depth, constraints))
            && (v.Violation? ==> FirstExcess(text, ss, ty, depth, constraints, p, (v.constraint, v.field)))
    decreases ss
  {
    p := [];
    if ss != [] {
      var init, last := ss[..|ss| - 1], ss[|ss| - 1];
      assert SpreadsIn(ss) == SpreadsIn(init) + SpreadsOf(last);
      p := Reading(text, init, ty, depth, constraints);
      assert forall q: Path :: q != [] && q[0] < |init| ==>
        Excess(text, ss, ty, depth, constraints, q) == Excess(text, init, ty, depth, constraints, q);
      if SetVerdict(text, 0, init, ty, depth, constraints).Clean? {
        var rest := SelectionReading(text, last, ty, depth, constraints);
        p := [|init|] + rest;
        assert p[1..] == rest;
        if SelectionVerdict(text, 0, last, ty, depth, constraints).Clean? {
          forall q: Path ensures Excess(text, ss, ty, depth, constraints, q).None? {
            if q != [] && q[0] == |init| {
              assert SelectionExcess(text, last, ty, depth, constraints, q[1..]).None?;
            }
          }
        } else {
          assert Excess(text, ss, ty, depth, constraints, p).Some?;
        }
      } else {
        assert Excess(text, ss, ty, depth, constraints, p).Some?;
      }
    }
  }
}
