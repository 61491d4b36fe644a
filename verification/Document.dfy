/** A parsed GraphQL document and the finite schema it is checked against.
    Both query guards (cost and depth) read these values; neither changes them. */
module Document {
  import opened Options

  type Name = string
  type TypeName = string

  /** An argument or default value node, as far as the guards look into it. */
  datatype Value =
    | BooleanValue(truth: bool)
    | IntegerValue(number: int)
    | VariableValue(variable: Name)
    | OtherValue

  datatype Argument = Argument(name: Name, value: Value)

  /** A directive use; `condition` is its "if" argument, when it has one. */
  datatype Directive = Directive(name: Name, condition: Option<Value>)

  /** `location` is the node's place in the text: it is what an error points at. */
  datatype FieldHead = FieldHead(location: nat, name: Name, arguments: seq<Argument>, directives: seq<Directive>)

  datatype Selection =
    | Leaf(head: FieldHead)                                  // a field without a selection set
    | Object(head: FieldHead, children: seq<Selection>)      // a field with one
    | Inline(condition: Option<TypeName>, inlineDirectives: seq<Directive>, children: seq<Selection>)
    | Spread(fragment: Name, spreadDirectives: seq<Directive>)
  {
    function Directives(): seq<Directive> {
      match this
      case Leaf(head) => head.directives
      case Object(head, _) => head.directives
      case Inline(_, directives, _) => directives
      case Spread(_, directives) => directives
    }
  }

  datatype Fragment = Fragment(condition: TypeName, selections: seq<Selection>)

  type Fragments = map<Name, Fragment>

  datatype OperationKind = Query | Mutation | Subscription

  datatype Definition =
    | FragmentDefinition(name: Name, fragment: Fragment)
    | OperationDefinition(kind: OperationKind, title: Option<Name>, defaults: map<Name, Value>,
        selections: seq<Selection>)

  // ---------------------------------------------------------------- the schema

  datatype TypeRef = Named(name: TypeName) | ListOf(inner: TypeRef) | NonNull(inner: TypeRef)

  /** `complexity` and `maxDepth` are the declared integers, before the sign check. */
  datatype TypeDef = TypeDef(fields: map<Name, TypeRef>, complexity: Option<int>, maxDepth: Option<int>,
      listContainer: bool)

  datatype Schema = Schema(types: map<TypeName, TypeDef>, roots: map<OperationKind, TypeName>)

  function NamedType(ref: TypeRef): TypeName {
    match ref
    case Named(name) => name
    case ListOf(inner) => NamedType(inner)
    case NonNull(inner) => NamedType(inner)
  }

  function FieldsOf(schema: Schema, ty: TypeName): map<Name, TypeRef> {
    if ty in schema.types then schema.types[ty].fields else map[]
  }

  /** A type condition narrows the type when the schema knows it and changes nothing otherwise. */
  function Narrowed(schema: Schema, condition: TypeName, ty: TypeName): TypeName {
    if condition in schema.types then condition else ty
  }

  function InlineType(schema: Schema, condition: Option<TypeName>, ty: TypeName): TypeName {
    match condition
    case None => ty
    case Some(name) => Narrowed(schema, name, ty)
  }

  predicate IsIntrospection(name: Name) {
    |name| >= 2 && name[0] == '_' && name[1] == '_'
  }

  // ------------------------------------------------------- @skip and @include

  /** A bound variable value; `asInteger` is what converting it to an integer gives, if anything. */
  datatype Bound = BoundBoolean(truth: bool) | BoundOther(asInteger: Option<int>)

  type Variables = map<Name, Bound>

  /** The "if" value of the first use of a directive: later uses are not looked at. */
  function FirstCondition(directives: seq<Directive>, name: Name): Option<Value> {
    if directives == [] then None
    else if directives[0].name == name then directives[0].condition
    else FirstCondition(directives[1..], name)
  }

  /** The boolean a condition provably has; an unbound variable or a non-boolean decides nothing. */
  function Decided(condition: Option<Value>, variables: Variables): Option<bool> {
    match condition
    case Some(BooleanValue(b)) => Some(b)
    case Some(VariableValue(v)) =>
      if v in variables && variables[v].BoundBoolean? then Some(variables[v].truth) else None
    case _ => None
  }

  predicate IsSkipped(s: Selection, variables: Variables) {
    || Decided(FirstCondition(s.Directives(), "skip"), variables) == Some(true)
    || Decided(FirstCondition(s.Directives(), "include"), variables) == Some(false)
  }

  // ------------------------------------------------------ fragment references

  /** Every fragment named by a spread anywhere inside, skipped or not. */
  function SpreadsOf(s: Selection): set<Name>
    decreases s
  {
    match s
    case Leaf(_) => {}
    case Object(_, children) => SpreadsIn(children)
    case Inline(_, _, children) => SpreadsIn(children)
    case Spread(name, _) => {name}
  }

  function SpreadsIn(ss: seq<Selection>): set<Name>
    decreases ss
  {
    if ss == [] then {} else SpreadsIn(ss[..|ss| - 1]) + SpreadsOf(ss[|ss| - 1])
  }

  lemma {:induction false} SpreadsInMember(ss: seq<Selection>, i: nat)
    requires i < |ss|
    ensures SpreadsOf(ss[i]) <= SpreadsIn(ss)
  {
    if i < |ss| - 1 {
      SpreadsInMember(ss[..|ss| - 1], i);
    }
  }

  /** A numbering of the known fragments that falls along every reference. */
  ghost predicate IsRank(fragments: Fragments, rank: map<Name, nat>) {
    && fragments.Keys <= rank.Keys
    && (forall f <- fragments :: rank[f] < |fragments|)
    && forall f <- fragments, g <- fragments :: g in SpreadsIn(fragments[f].selections) ==> rank[g] < rank[f]
  }

  ghost predicate Acyclic(fragments: Fragments) {
    exists rank :: IsRank(fragments, rank)
  }

  // ------------------------------------------------------ inlining all fragments

  /** The document text with every known spread replaced, `depth` levels deep, by an inline fragment
      with the fragment's type condition, the spread's directives and the fragment's body. */
  function ExpandSelection(fragments: Fragments, depth: nat, s: Selection): (r: Selection)
    ensures r.Directives() == s.Directives()
    decreases depth, s
  {
    match s
    case Leaf(_) => s
    case Object(head, children) => Object(head, Expand(fragments, depth, children))
    case Inline(condition, directives, children) => Inline(condition, directives, Expand(fragments, depth, children))
    case Spread(name, directives) =>
      if name in fragments && depth > 0 then
        Inline(Some(fragments[name].condition), directives, Expand(fragments, depth - 1, fragments[name].selections))
      else s
  }

  function Expand(fragments: Fragments, depth: nat, ss: seq<Selection>): (r: seq<Selection>)
    ensures |r| == |ss|
    decreases depth, ss
  {
    if ss == [] then []
    else Expand(fragments, depth, ss[..|ss| - 1]) + [ExpandSelection(fragments, depth, ss[|ss| - 1])]
  }

  /** On a document without reference cycles, as many levels as there are fragments leave no known spread. */
  lemma {:induction false} ExpandedIsSpreadFree(fragments: Fragments, rank: map<Name, nat>, depth: nat,
      ss: seq<Selection>)
    requires IsRank(fragments, rank)
    requires forall g <- fragments :: g in SpreadsIn(ss) ==> rank[g] < depth
    ensures SpreadsIn(Expand(fragments, depth, ss)) !! fragments.Keys
    decreases depth, ss
  {
    if ss != [] {
      var init, last := ss[..|ss| - 1], ss[|ss| - 1];
      assert SpreadsIn(ss) == SpreadsIn(init) + SpreadsOf(last);
      ExpandedIsSpreadFree(fragments, rank, depth, init);
      var e := Expand(fragments, depth, init);
      assert (e + [ExpandSelection(fragments, depth, last)])[..|e|] == e;
      match last
      case Leaf(_) =>
      case Object(_, children) => ExpandedIsSpreadFree(fragments, rank, depth, children);
      case Inline(_, _, children) => ExpandedIsSpreadFree(fragments, rank, depth, children);
      case Spread(name, _) =>
        if name in fragments {
          ExpandedIsSpreadFree(fragments, rank, depth - 1, fragments[name].selections);
        }
    }
  }

  // ------------------------------------------------------ inlining some spreads

  /** The inline fragment that may stand in a known spread's place. */
  function InPlaceOf(fragments: Fragments, name: Name, directives: seq<Directive>): Selection
    requires name in fragments
  {
    Inline(Some(fragments[name].condition), directives, fragments[name].selections)
  }

  /** Some known spreads, at any places, are replaced by inline fragments with their type conditions,
      directives and bodies, in which spreads may be replaced in turn. */
  predicate InlinesOne(fragments: Fragments, s: Selection, s': Selection)
    decreases s'
  {
    match s'
    case Object(head, children) => s.Object? && s.head == head && Inlines(fragments, s.children, children)
    case Inline(condition, directives, children) =>
      || (s.Inline? && s.condition == condition && s.inlineDirectives == directives
          && Inlines(fragments, s.children, children))
      || (s.Spread? && s.fragment in fragments && condition == Some(fragments[s.fragment].condition)
          && s.spreadDirectives == directives && Inlines(fragments, fragments[s.fragment].selections, children))
    case _ => s == s'
  }

  predicate Inlines(fragments: Fragments, ss: seq<Selection>, ss': seq<Selection>)
    decreases ss'
  {
    if ss == [] || ss' == [] then ss == ss'
    else Inlines(fragments, ss[..|ss| - 1], ss'[..|ss'| - 1]) && InlinesOne(fragments, ss[|ss| - 1], ss'[|ss'| - 1])
  }

  /** The same in the bodies of the fragments. */
  ghost predicate BodiesInline(fragments: Fragments, fragments': Fragments) {
    && fragments.Keys == fragments'.Keys
    && forall f <- fragments ::
         && fragments[f].condition == fragments'[f].condition
         && Inlines(fragments, fragments[f].selections, fragments'[f].selections)
  }

  lemma {:induction false} OneInlinesItself(fragments: Fragments, s: Selection)
    ensures InlinesOne(fragments, s, s)
    decreases s
  {
    match s
    case Object(_, children) => InlinesItself(fragments, children);
    case Inline(_, _, children) => InlinesItself(fragments, children);
    case _ =>
  }

  lemma {:induction false} InlinesItself(fragments: Fragments, ss: seq<Selection>)
    ensures Inlines(fragments, ss, ss)
    decreases ss
  {
    if ss != [] {
      InlinesItself(fragments, ss[..|ss| - 1]);
      OneInlinesItself(fragments, ss[|ss| - 1]);
    }
  }

  /** A selection may be replaced where it stands. */
  lemma {:induction false} OneInlines(fragments: Fragments, ss: seq<Selection>, i: nat, s': Selection)
    requires i < |ss| && InlinesOne(fragments, ss[i], s')
    ensures Inlines(fragments, ss, ss[i := s'])
    decreases |ss|
  {
    hide InlinesOne;
    var ss' := ss[i := s'];
    var init, init' := ss[..|ss| - 1], ss'[..|ss| - 1];
    if i == |ss| - 1 {
      assert init == init';
      InlinesItself(fragments, init);
    } else {
      OneInlines(fragments, init, i, s');
      assert init' == init[i := s'];
      OneInlinesItself(fragments, ss[|ss| - 1]);
    }
  }

  /** The selection at the end of a path of positions, through fields and inline fragments. */
  function SelectionAt(ss: seq<Selection>, path: seq<nat>): Option<Selection> {
    if path == [] || path[0] >= |ss| then None
    else if |path| == 1 then Some(ss[path[0]])
    else match ss[path[0]]
      case Object(_, children) => SelectionAt(children, path[1..])
      case Inline(_, _, children) => SelectionAt(children, path[1..])
      case _ => None
  }

  function ReplacedAt(ss: seq<Selection>, path: seq<nat>, s': Selection): seq<Selection>
    requires SelectionAt(ss, path).Some?
  {
    var i := path[0];
    if |path| == 1 then ss[i := s']
    else match ss[i]
      case Object(head, children) => ss[i := Object(head, ReplacedAt(children, path[1..], s'))]
      case Inline(condition, directives, children) =>
        ss[i := Inline(condition, directives, ReplacedAt(children, path[1..], s'))]
  }

  /** Replacing one known spread, at any path of a selection set, is such a replacement. */
  lemma {:induction false} OneSpreadInlines(fragments: Fragments, ss: seq<Selection>, path: seq<nat>)
    requires var at := SelectionAt(ss, path); at.Some? && at.value.Spread? && at.value.fragment in fragments
    ensures var at := SelectionAt(ss, path).value;
            Inlines(fragments, ss, ReplacedAt(ss, path, InPlaceOf(fragments, at.fragment, at.spreadDirectives)))
    decreases |path|
  {
    hide Inlines;
    var at := SelectionAt(ss, path).value;
    var s' := InPlaceOf(fragments, at.fragment, at.spreadDirectives);
    var i := path[0];
    if |path| == 1 {
      InlinesItself(fragments, fragments[at.fragment].selections);
      OneInlines(fragments, ss, i, s');
    } else {
      match ss[i]
      case Object(head, children) =>
        OneSpreadInlines(fragments, children, path[1..]);
        OneInlines(fragments, ss, i, Object(head, ReplacedAt(children, path[1..], s')));
      case Inline(condition, directives, children) =>
        OneSpreadInlines(fragments, children, path[1..]);
        OneInlines(fragments, ss, i, Inline(condition, directives, ReplacedAt(children, path[1..], s')));
    }
  }

  /** So is inlining all of them, any number of levels deep. */
  lemma {:induction false} ExpandInlines(fragments: Fragments, depth: nat, ss: seq<Selection>)
    ensures Inlines(fragments, ss, Expand(fragments, depth, ss))
    decreases depth, ss
  {
    if ss != [] {
      var init, last := ss[..|ss| - 1], ss[|ss| - 1];
      var e := Expand(fragments, depth, init);
      assert (e + [ExpandSelection(fragments, depth, last)])[..|e|] == e;
      ExpandInlines(fragments, depth, init);
      match last
      case Object(_, children) => ExpandInlines(fragments, depth, children);
      case Inline(_, _, children) => ExpandInlines(fragments, depth, children);
      case Spread(name, _) =>
        if name in fragments && depth > 0 { ExpandInlines(fragments, depth - 1, fragments[name].selections); }
      case Leaf(_) =>
    }
  }
}
