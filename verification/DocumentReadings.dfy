/** What the nodes of a document say, put without reference to how a guard reads them. */
module DocumentReadings {
  import opened Options
  import opened Document

  // ------------------------------------------------------------- @skip and @include

  ghost predicate FirstUse(directives: seq<Directive>, name: Name, i: int) {
    0 <= i < |directives| && directives[i].name == name && forall j :: 0 <= j < i ==> directives[j].name != name
  }

  ghost predicate Says(condition: Option<Value>, variables: Variables, truth: bool) {
    || condition == Some(BooleanValue(truth))
    || exists v: Name :: condition == Some(VariableValue(v)) && v in variables && variables[v] == BoundBoolean(truth)
  }

  /** The first @skip says true, or the first @include says false, by a literal or a bound boolean. */
  ghost predicate LeftOut(directives: seq<Directive>, variables: Variables) {
    || (exists i :: FirstUse(directives, "skip", i) && Says(directives[i].condition, variables, true))
    || (exists i :: FirstUse(directives, "include", i) && Says(directives[i].condition, variables, false))
  }

  lemma {:induction false} FirstConditionReading(directives: seq<Directive>, name: Name)
    ensures (exists i :: FirstUse(directives, name, i)) || FirstCondition(directives, name) == None
    ensures forall i :: FirstUse(directives, name, i) ==> FirstCondition(directives, name) == directives[i].condition
  {
    if directives != [] {
      var rest := directives[1..];
      FirstConditionReading(rest, name);
      if directives[0].name == name {
        assert FirstUse(directives, name, 0);
      } else {
        forall i ensures FirstUse(rest, name, i) <==> FirstUse(directives, name, i + 1) {
          if FirstUse(rest, name, i) {
            forall j | 0 <= j < i + 1 ensures directives[j].name != name {
              if j > 0 { assert rest[j - 1] == directives[j]; }
            }
          }
          if FirstUse(directives, name, i + 1) && i >= 0 {
            forall j | 0 <= j < i ensures rest[j].name != name { assert rest[j] == directives[j + 1]; }
          }
        }
        forall i | FirstUse(directives, name, i) ensures FirstCondition(directives, name) == directives[i].condition {
          assert FirstUse(rest, name, i - 1);
        }
        if i :| FirstUse(rest, name, i) { assert FirstUse(directives, name, i + 1); }
      }
    }
  }

  lemma DecidedReading(condition: Option<Value>, variables: Variables, truth: bool)
    ensures Decided(condition, variables) == Some(truth) <==> Says(condition, variables, truth)
  {
  }

  lemma SkippedReading(s: Selection, variables: Variables)
    ensures IsSkipped(s, variables) <==> LeftOut(s.Directives(), variables)
  {
    hide Decided, Says, FirstCondition, FirstUse;
    var directives := s.Directives();
    FirstConditionReading(directives, "skip");
    FirstConditionReading(directives, "include");
    forall c, truth ensures Decided(c, variables) == Some(truth) <==> Says(c, variables, truth) {
      DecidedReading(c, variables, truth);
    }
    NothingDecided(variables);
  }

  lemma NothingDecided(variables: Variables)
    ensures Decided(None, variables) == None
  {
  }

  // ------------------------------------------------------------------- names and types

  /** Introspection fields begin with two underscores. */
  lemma IntrospectionReading(name: Name)
    ensures IsIntrospection(name) <==> "__" <= name
  {
  }

  /** A named type under list and non-null layers, the outermost first; true is a list. */
  function Wrapped(layers: seq<bool>, name: TypeName): TypeRef {
    if layers == [] then Named(name)
    else if layers[0] then ListOf(Wrapped(layers[1..], name)) else NonNull(Wrapped(layers[1..], name))
  }

  ghost predicate Names(ref: TypeRef, name: TypeName) { exists layers :: ref == Wrapped(layers, name) }

  ghost predicate Lists(ref: TypeRef) { exists layers, name :: ref == Wrapped(layers, name) && true in layers }

  ghost function LayersOf(ref: TypeRef): (layers: seq<bool>)
    ensures ref == Wrapped(layers, NamedType(ref))
  {
    match ref
    case Named(_) => []
    case ListOf(inner) => [true] + LayersOf(inner)
    case NonNull(inner) => [false] + LayersOf(inner)
  }

  lemma {:induction false} WrappedName(layers: seq<bool>, name: TypeName)
    ensures NamedType(Wrapped(layers, name)) == name && LayersOf(Wrapped(layers, name)) == layers
  {
    if layers != [] { WrappedName(layers[1..], name); }
  }

  lemma NamedTypeReading(ref: TypeRef, name: TypeName)
    ensures NamedType(ref) == name <==> Names(ref, name)
  {
    if layers :| ref == Wrapped(layers, name) { WrappedName(layers, name); }
    assert ref == Wrapped(LayersOf(ref), NamedType(ref));
  }

  /** A field of a type the schema knows. */
  predicate HasField(schema: Schema, ty: TypeName, name: Name) {
    ty in schema.types && name in schema.types[ty].fields
  }

  /** The type an inline fragment's selections are resolved against. */
  predicate Narrows(schema: Schema, condition: Option<TypeName>, ty: TypeName, inner: TypeName) {
    if condition.Some? && condition.value in schema.types then condition == Some(inner) else inner == ty
  }
}
