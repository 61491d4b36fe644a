/** Depth limits by counting: how many object fields lie on the way to a place of a spread-free text, and which
    limit their number breaks. */
module DepthTrails {
  import opened Options
  import opened Document
  import opened DocumentReadings
  import opened Sequences
  import opened Depth
  import opened DepthPaths

  /** The object fields on the way to a place, itself included, and the types entered on the way. */
  datatype Trail = Trail(fields: seq<FieldHead>, entered: seq<TypeName>)
  {
    function Behind(head: FieldHead, ty: TypeName): Trail { Trail([head] + fields, [ty] + entered) }
  }

  /** None when no object field is there: skipped, introspection and unknown fields lead nowhere. */
  ghost function TrailTo(schema: Schema, ss: seq<Selection>, ty: TypeName, p: Path): (t: Option<Trail>)
    ensures t.Some? ==> t.value.fields != [] && |t.value.fields| == |t.value.entered| + 1
    decreases ss
  {
    if p == [] || p[0] >= |ss| then None else TrailIn(schema, ss[p[0]], ty, p[1..])
  }

  ghost function TrailIn(schema: Schema, s: Selection, ty: TypeName, rest: Path): (t: Option<Trail>)
    ensures t.Some? ==> t.value.fields != [] && |t.value.fields| == |t.value.entered| + 1
    decreases s
  {
    match s
    case Leaf(_) => None
    case Spread(_, _) => None
    case Inline(condition, directives, children) =>
      if LeftOut(directives, map[]) then None
      else
        TrailTo(schema, children, if condition.Some? && condition.value in schema.types then condition.value else ty,
                rest)
    case Object(head, children) =>
      if LeftOut(head.directives, map[]) || "__" <= head.name then None
      else if rest == [] then Some(Trail([head], []))
      else if !HasField(schema, ty, head.name) then None
      else
        var target := NamedType(schema.types[ty].fields[head.name]);
        match TrailTo(schema, children, target, rest)
        case None => None
        case Some(t) => Some(t.Behind(head, target))
  }

  // ----------------------------------------------------------------- what is too deep

  /** The type entered at this place of the trail declares a maximum, and more fields than that follow it. */
  ghost predicate BreaksDeclared(schema: Schema, t: Trail, i: int) {
    && 0 <= i < |t.entered| && t.entered[i] in schema.types && schema.types[t.entered[i]].maxDepth.Some?
    && 0 <= schema.types[t.entered[i]].maxDepth.value < |t.fields| - (i + 1)
  }

  ghost predicate TooDeep(schema: Schema, configured: Option<int>, t: Trail) {
    || (configured.Some? && |t.fields| > configured.value)
    || |t.fields| > 100
    || exists i :: BreaksDeclared(schema, t, i)
  }

  ghost predicate IsWordFor(kind: OperationKind, word: string) {
    word == if kind == Query then "query" else if kind == Mutation then "mutation" else "subscription"
  }

  /** The limit to report: the configured one if it is broken, else the structural one, else that of the outermost
      type whose maximum is broken. */
  ghost predicate Blames(schema: Schema, configured: Option<int>, kind: OperationKind, t: Trail, c: Constraint) {
    if configured.Some? && |t.fields| > configured.value then
      c.limit == configured.value && c.origin == 0 && IsWordFor(kind, c.reason)
    else if |t.fields| > 100 then c.limit == 100 && c.origin == 0 && IsWordFor(kind, c.reason)
    else
      exists i :: BreaksDeclared(schema, t, i) && (forall j :: 0 <= j < i ==> !BreaksDeclared(schema, t, j))
                  && schema.types[t.entered[i]].maxDepth == Some(c.limit) && c.origin == i + 1
                  && c.reason == t.entered[i]
  }

  // --------------------------------------------------------- the budgets along a trail

  /** The budgets that the types entered on a trail set. */
  function DeclaredOn(schema: Schema, entered: seq<TypeName>, depth: nat): seq<Constraint> {
    if entered == [] then []
    else Entering(schema, entered[0], depth + 1, []) + DeclaredOn(schema, entered[1..], depth + 1)
  }

  ghost function Found(constraints: seq<Constraint>, depth: nat, t: Trail): Option<(Constraint, FieldHead)>
    requires t.fields != []
  {
    match FirstExceeded(constraints, depth + |t.fields|)
    case None => None
    case Some(c) => Some((c, Last(t.fields)))
  }

  /** A place exceeds what its trail exceeds. */
  lemma {:induction false} ExcessOnTrail(text: Text, ss: seq<Selection>, ty: TypeName, depth: nat,
      constraints: seq<Constraint>, p: Path)
    ensures match TrailTo(text.schema, ss, ty, p)
            case None => Excess(text, ss, ty, depth, constraints, p).None?
            case Some(t) =>
              Excess(text, ss, ty, depth, constraints, p)
              == Found(constraints + DeclaredOn(text.schema, t.entered, depth), depth, t)
    decreases ss
  {
    hide IsSkipped, LeftOut, Found, SelectionExcess, TrailIn;
    if p != [] && p[0] < |ss| { SelectionOnTrail(text, ss[p[0]], ty, depth, constraints, p[1..]); }
  }

  lemma {:induction false} SelectionOnTrail(text: Text, s: Selection, ty: TypeName, depth: nat,
      constraints: seq<Constraint>, rest: Path)
    ensures match TrailIn(text.schema, s, ty, rest)
            case None => SelectionExcess(text, s, ty, depth, constraints, rest).None?
            case Some(t) =>
              SelectionExcess(text, s, ty, depth, constraints, rest)
              == Found(constraints + DeclaredOn(text.schema, t.entered, depth), depth, t)
    decreases s
  {
    hide IsSkipped, LeftOut, IsIntrospection, Found, DeclaredOn, Entering, Excess, TrailTo;
    SkippedReading(s, map[]);
    match s
    case Inline(condition, _, children) =>
      ExcessOnTrail(text, children, InlineType(text.schema, condition, ty), depth, constraints, rest);
    case Object(head, children) =>
      IntrospectionReading(head.name);
      if rest == [] {
        HereOnTrail(text.schema, head, depth, constraints);
      } else if HasField(text.schema, ty, head.name) {
        var target := NamedType(text.schema.types[ty].fields[head.name]);
        var entering := Entering(text.schema, target, depth + 1, constraints);
        ExcessOnTrail(text, children, target, depth + 1, entering, rest);
        match TrailTo(text.schema, children, target, rest)
        case Some(t) => BehindOnTrail(text.schema, head, target, t, depth, constraints);
        case None =>
      }
    case _ =>
  }

  lemma HereOnTrail(schema: Schema, head: FieldHead, depth: nat, constraints: seq<Constraint>)
    ensures Found(constraints + DeclaredOn(schema, [], depth), depth, Trail([head], []))
         == match FirstExceeded(constraints, depth + 1) { case None => None case Some(c) => Some((c, head)) }
  {
    assert constraints + DeclaredOn(schema, [], depth) == constraints;
  }

  lemma BehindOnTrail(schema: Schema, head: FieldHead, target: TypeName, t: Trail, depth: nat,
      constraints: seq<Constraint>)
    requires t.fields != []
    ensures var (behind, deeper) := (t.Behind(head, target), Entering(schema, target, depth + 1, constraints));
            Found(deeper + DeclaredOn(schema, t.entered, depth + 1), depth + 1, t)
            == Found(constraints + DeclaredOn(schema, behind.entered, depth), depth, behind)
  {
    var behind := t.Behind(head, target);
    assert behind.entered[1..] == t.entered;
    assert Entering(schema, target, depth + 1, constraints) == constraints + Entering(schema, target, depth + 1, []);
    assert constraints + DeclaredOn(schema, behind.entered, depth)
        == Entering(schema, target, depth + 1, constraints) + DeclaredOn(schema, t.entered, depth + 1);
    assert Last(behind.fields) == Last(t.fields);
  }

  // ------------------------------------------------------------ which budget is exceeded

  lemma {:induction false} FirstOfBoth(a: seq<Constraint>, b: seq<Constraint>, depth: nat)
    ensures FirstExceeded(a + b, depth)
         == if FirstExceeded(a, depth).Some? then FirstExceeded(a, depth) else FirstExceeded(b, depth)
  {
    if a == [] {
      assert a + b == b;
    } else {
      assert (a + b)[1..] == a[1..] + b;
      FirstOfBoth(a[1..], b, depth);
    }
  }

  /** A type at a place of what was entered sets a limit that `n` fields from the start break. */
  ghost predicate BreaksAt(schema: Schema, entered: seq<TypeName>, depth: nat, n: int, i: int) {
    && 0 <= i < |entered| && entered[i] in schema.types && schema.types[entered[i]].maxDepth.Some?
    && 0 <= schema.types[entered[i]].maxDepth.value < n - (depth + i + 1)
  }

  /** And it is the outermost one, with the budget it sets. */
  ghost predicate FirstBreak(schema: Schema, entered: seq<TypeName>, depth: nat, n: int, i: int, c: Constraint) {
    && BreaksAt(schema, entered, depth, n, i) && (forall j :: 0 <= j < i ==> !BreaksAt(schema, entered, depth, n, j))
    && schema.types[entered[i]].maxDepth == Some(c.limit) && c.origin == depth + i + 1 && c.reason == entered[i]
  }

  lemma {:induction false} DeclaredReading(schema: Schema, entered: seq<TypeName>, depth: nat, n: nat)
    ensures var first := FirstExceeded(DeclaredOn(schema, entered, depth), n);
            if first.None? then forall i :: !BreaksAt(schema, entered, depth, n, i)
            else exists i :: FirstBreak(schema, entered, depth, n, i, first.value)
    decreases |entered|
  {
    if entered != [] {
      var rest, d := entered[1..], depth + 1;
      DeclaredReading(schema, rest, d, n);
      FirstOfBoth(Entering(schema, entered[0], d, []), DeclaredOn(schema, rest, d), n);
      HeadBreaks(schema, entered, depth, n);
      forall i | i > 0 ensures BreaksAt(schema, entered, depth, n, i) <==> BreaksAt(schema, rest, d, n, i - 1) { }
      var later := FirstExceeded(DeclaredOn(schema, rest, d), n);
      if !BreaksAt(schema, entered, depth, n, 0) && later.Some? {
        var i :| FirstBreak(schema, rest, d, n, i, later.value);
        assert entered[i + 1] == rest[i];
        assert BreaksAt(schema, entered, depth, n, i + 1);
        assert FirstBreak(schema, entered, depth, n, i + 1, later.value);
      } else if BreaksAt(schema, entered, depth, n, 0) {
        assert FirstBreak(schema, entered, depth, n, 0, FirstExceeded(DeclaredOn(schema, entered, depth), n).value);
      }
    }
  }

  lemma HeadBreaks(schema: Schema, entered: seq<TypeName>, depth: nat, n: nat)
    requires entered != []
    ensures var first := FirstExceeded(Entering(schema, entered[0], depth + 1, []), n);
            && (first.Some? <==> BreaksAt(schema, entered, depth, n, 0))
            && (first.Some? ==> && schema.types[entered[0]].maxDepth == Some(first.value.limit)
                                && first.value.origin == depth + 1 && first.value.reason == entered[0])
  {
  }

  // ------------------------------------------------------------------- document order

  /** A place stands before another when it leads to it, or turns off earlier where the two part. */
  lemma {:induction false} BeforeReading(p: Path, q: Path)
    ensures Before(p, q) <==> p < q || exists k :: 0 <= k < |p| && k < |q| && p[..k] == q[..k] && p[k] < q[k]
    decreases |p|
  {
    if p != [] && q != [] {
      BeforeReading(p[1..], q[1..]);
      if k :| 0 <= k < |p| && k < |q| && p[..k] == q[..k] && p[k] < q[k] && k > 0 {
        assert p[0] == p[..k][0] && q[0] == q[..k][0];
        assert p[1..][..k - 1] == p[..k][1..] && q[1..][..k - 1] == q[..k][1..];
        assert p[1..][k - 1] == p[k] && q[1..][k - 1] == q[k];
      }
      if p[0] == q[0] {
        if k :| 0 <= k < |p[1..]| && k < |q[1..]| && p[1..][..k] == q[1..][..k] && p[1..][k] < q[1..][k] {
          assert p[..k + 1] == [p[0]] + p[1..][..k] && q[..k + 1] == [q[0]] + q[1..][..k];
          assert p[k + 1] < q[k + 1];
        }
        assert p == [p[0]] + p[1..] && q == [q[0]] + q[1..];
      } else if p[0] < q[0] {
        assert p[..0] == q[..0];
      }
    }
  }
}
