/** The text that directives may add, charged to one counter by every field that shares it. */
module OutputBudget {
  import opened Options
  import opened Sequences

  /** A counter after some charge, and whether the charge was accepted. Nothing is counted without a maximum. */
  function Charged(used: nat, grown: nat, maximum: Option<int>): (nat, bool) {
    match maximum
    case None => (used, true)
    case Some(m) => (used + grown, used + grown <= m)
  }

  // ------------------------------------------------------ charges in whatever order they come

  /** The counter after charges that got the lock in this order. */
  function UsedAfter(used: nat, charges: seq<nat>, maximum: Option<int>): nat
    decreases |charges|
  {
    if charges == [] then used else UsedAfter(Charged(used, charges[0], maximum).0, charges[1..], maximum)
  }

  /** The text the accepted ones among them added. */
  function AcceptedText(used: nat, charges: seq<nat>, maximum: Option<int>): nat
    decreases |charges|
  {
    if charges == [] then 0
    else
      var (after, accepted) := Charged(used, charges[0], maximum);
      (if accepted then charges[0] else 0) + AcceptedText(after, charges[1..], maximum)
  }

  /** However the charges of a request interleave, the accepted text stays within what the maximum left. */
  lemma {:induction false} AcceptedTextIsBounded(used: nat, charges: seq<nat>, maximum: int)
    ensures AcceptedText(used, charges, Some(maximum)) <= if used <= maximum then maximum - used else 0
    decreases |charges|
  {
    if charges != [] {
      AcceptedTextIsBounded(Charged(used, charges[0], Some(maximum)).0, charges[1..], maximum);
    }
  }

  lemma {:induction false} UsedGrows(used: nat, charges: seq<nat>, maximum: Option<int>)
    ensures UsedAfter(used, charges, maximum) >= used
    decreases |charges|
  {
    if charges != [] { UsedGrows(Charged(used, charges[0], maximum).0, charges[1..], maximum); }
  }

  function Total(charges: seq<nat>): nat {
    if charges == [] then 0 else Total(Init(charges)) + Last(charges)
  }

  lemma {:induction false} TotalInParts(a: seq<nat>, b: seq<nat>)
    ensures Total(a + b) == Total(a) + Total(b)
    decreases |b|
  {
    if b == [] {
      assert a + b == a;
    } else {
      assert Init(a + b) == a + Init(b);
      TotalInParts(a, Init(b));
    }
  }

  lemma {:induction false} UsedIsTotal(used: nat, charges: seq<nat>, maximum: Option<int>)
    ensures UsedAfter(used, charges, maximum) == used + if maximum.None? then 0 else Total(charges)
    decreases |charges|
  {
    if charges != [] {
      UsedIsTotal(Charged(used, charges[0], maximum).0, charges[1..], maximum);
      assert charges == [charges[0]] + charges[1..] && Init([charges[0]]) == [];
      TotalInParts([charges[0]], charges[1..]);
    }
  }

  /** A charge is accepted exactly when there is no maximum, or the text used before all of them and charged up to
      it, itself included, is within it. */
  lemma AcceptedWithinMaximum(used: nat, charges: seq<nat>, maximum: Option<int>, i: nat)
    requires i < |charges|
    ensures Charged(UsedAfter(used, charges[..i], maximum), charges[i], maximum).1
       <==> maximum.None? || used + Total(charges[..i + 1]) <= maximum.value
  {
    UsedIsTotal(used, charges[..i], maximum);
    assert charges[..i + 1] == charges[..i] + [charges[i]];
    assert Init([charges[i]]) == [];
    TotalInParts(charges[..i], [charges[i]]);
  }

  lemma TotalFromFront(charges: seq<nat>, k: nat)
    requires 0 < k <= |charges|
    ensures Total(charges[..k]) == charges[0] + Total(charges[1..][..k - 1])
  {
    var first: seq<nat> := [charges[0]];
    assert charges[..k] == first + charges[1..][..k - 1];
    assert Init(first) == [];
    TotalInParts(first, charges[1..][..k - 1]);
  }

  /** The accepted text is that of the longest beginning of the charges that fits. */
  lemma {:induction false} LongestBeginningIsAccepted(used: nat, charges: seq<nat>, maximum: int) returns (k: nat)
    ensures k <= |charges| && AcceptedText(used, charges, Some(maximum)) == Total(charges[..k])
    ensures k > 0 ==> used + Total(charges[..k]) <= maximum
    ensures k < |charges| ==> used + Total(charges[..k + 1]) > maximum
    decreases |charges|
  {
    if charges == [] || used + charges[0] > maximum {
      k := 0;
      AcceptedTextIsBounded(used, charges, maximum);
      if charges != [] {
        TotalFromFront(charges, 1);
        AcceptedTextIsBounded(used + charges[0], charges[1..], maximum);
      }
    } else {
      var rest := charges[1..];
      var n := LongestBeginningIsAccepted(used + charges[0], rest, maximum);
      TotalFromFront(charges, n + 1);
      if n < |rest| { TotalFromFront(charges, n + 2); }
      k := n + 1;
    }
  }

  /** Once a charge is refused, every later one is, checks for nothing included. */
  lemma RefusedForGood(used: nat, charges: seq<nat>, maximum: Option<int>, i: nat, j: nat)
    requires i <= j < |charges|
    requires !Charged(UsedAfter(used, charges[..i], maximum), charges[i], maximum).1
    ensures !Charged(UsedAfter(used, charges[..j], maximum), charges[j], maximum).1
  {
    if i < j {
      assert charges[..i + 1] == charges[..i] + [charges[i]];
      UsedInParts(used, charges[..i], [charges[i]], maximum);
      assert charges[..j] == charges[..i + 1] + charges[i + 1..j];
      UsedInParts(used, charges[..i + 1], charges[i + 1..j], maximum);
      UsedGrows(UsedAfter(used, charges[..i + 1], maximum), charges[i + 1..j], maximum);
    }
  }

  lemma {:induction false} UsedInParts(used: nat, a: seq<nat>, b: seq<nat>, maximum: Option<int>)
    ensures UsedAfter(used, a + b, maximum) == UsedAfter(UsedAfter(used, a, maximum), b, maximum)
    decreases |a|
  {
    if a == [] {
      assert a + b == b;
    } else {
      assert (a + b)[1..] == a[1..] + b;
      UsedInParts(Charged(used, a[0], maximum).0, a[1..], b, maximum);
    }
  }

  // -------------------------------------------------------------------- one field's directives

  datatype Value = Text(chars: string) | Other(id: nat)

  function LengthOf(v: Value): nat { if v.Text? then |v.chars| else 0 }

  /** The directives of one field applied in turn. `directives` holds None for the built-in ones and those
      nobody registered; a registered one is refused before it runs when the budget is spent. Gives the
      counter and the value, or no value when a charge was refused. */
  function Processed<D>(apply: (D, Value) -> Value, directives: seq<Option<D>>, value: Value, used: nat,
      maximum: Option<int>): (nat, Option<Value>)
    decreases |directives|
  {
    if directives == [] then (used, Some(value))
    else match directives[0]
      case None => Processed(apply, directives[1..], value, used, maximum)
      case Some(d) =>
        if !Charged(used, 0, maximum).1 then (used, None)
        else
          var next := apply(d, value);
          if next.Text? && LengthOf(next) > LengthOf(value) then
            var (after, accepted) := Charged(used, LengthOf(next) - LengthOf(value), maximum);
            if accepted then Processed(apply, directives[1..], next, after, maximum) else (after, None)
          else Processed(apply, directives[1..], next, used, maximum)
  }

  /** The directives that run. */
  function Registered<D>(directives: seq<Option<D>>): seq<D> {
    if directives == [] then []
    else (if directives[0].Some? then [directives[0].value] else []) + Registered(directives[1..])
  }

  /** What they make of a value, one after the other. */
  function Applied<D>(apply: (D, Value) -> Value, ds: seq<D>, value: Value): Value {
    if ds == [] then value else apply(Last(ds), Applied(apply, Init(ds), value))
  }

  /** By how many characters the text one makes is longer than the text it was given. */
  function Growth(before: Value, next: Value): nat {
    var length := if before.Text? then |before.chars| else 0;
    if next.Text? && |next.chars| > length then |next.chars| - length else 0
  }

  function Growths<D>(apply: (D, Value) -> Value, ds: seq<D>, value: Value): seq<nat> {
    if ds == [] then []
    else
      var before := Applied(apply, Init(ds), value);
      Growths(apply, Init(ds), value) + [Growth(before, apply(Last(ds), before))]
  }

  lemma {:induction false} AppliedFromFront<D>(apply: (D, Value) -> Value, ds: seq<D>, value: Value)
    requires ds != []
    ensures Applied(apply, ds, value) == Applied(apply, ds[1..], apply(ds[0], value))
    ensures Growths(apply, ds, value)
         == [Growth(value, apply(ds[0], value))] + Growths(apply, ds[1..], apply(ds[0], value))
    decreases |ds|
  {
    if |ds| == 1 {
      assert Init(ds) == [] && ds[1..] == [];
    } else {
      assert Init(ds)[1..] == Init(ds[1..]) && Last(ds) == Last(ds[1..]) && Init(ds)[0] == ds[0];
      AppliedFromFront(apply, Init(ds), value);
    }
  }

  /** The value comes through exactly when no directive runs or all that they add fits the maximum; it is then what
      they make of it, and the counter has gone up by all they added. Otherwise the counter has gone up by what was
      added up to the first excess. */
  ghost predicate ComesThrough<D>(apply: (D, Value) -> Value, ds: seq<D>, value: Value, used: nat,
      maximum: Option<int>, after: nat, result: Option<Value>)
  {
    var growths := Growths(apply, ds, value);
    && (result.Some? <==> maximum.None? || ds == [] || used + Total(growths) <= maximum.value)
    && (result.Some? ==> result.value == Applied(apply, ds, value)
                         && after == used + if maximum.None? then 0 else Total(growths))
    && (result.None? ==> exists k :: FirstOver(growths, used, maximum.value, k, after))
  }

  ghost predicate FirstOver(growths: seq<nat>, used: nat, maximum: int, k: nat, after: nat) {
    && k <= |growths| && after == used + Total(growths[..k]) > maximum
    && forall j :: 0 <= j < k ==> used + Total(growths[..j]) <= maximum
  }

  lemma {:induction false} ProcessedExactly<D>(apply: (D, Value) -> Value, directives: seq<Option<D>>, value: Value,
      used: nat, maximum: Option<int>)
    ensures var (after, result) := Processed(apply, directives, value, used, maximum);
            ComesThrough(apply, Registered(directives), value, used, maximum, after, result)
    decreases |directives|
  {
    hide ComesThrough, Applied, Growths, Growth;
    if directives == [] {
      NothingRuns(apply, value, used, maximum);
    } else if directives[0].None? {
      assert Registered(directives) == Registered(directives[1..]);
      ProcessedExactly(apply, directives[1..], value, used, maximum);
    } else {
      var d := directives[0].value;
      var next := apply(d, value);
      var rest := Registered(directives[1..]);
      var (after, result) := Processed(apply, directives, value, used, maximum);
      assert Registered(directives) == [d] + rest && ([d] + rest)[1..] == rest;
      AppliedFromFront(apply, [d] + rest, value);
      GrowthReading(value, next);
      if maximum.Some? && used + Growth(value, next) > maximum.value {
        RefusedHere(apply, d, rest, value, used, maximum.value);
      } else {
        var grown := if maximum.None? then 0 else Growth(value, next);
        ProcessedExactly(apply, directives[1..], next, used + grown, maximum);
        ThroughFromFront(apply, d, rest, value, used, maximum, after, result);
      }
    }
  }

  lemma NothingRuns<D>(apply: (D, Value) -> Value, value: Value, used: nat, maximum: Option<int>)
    ensures ComesThrough(apply, [], value, used, maximum, used, Some(value))
  {
  }

  lemma GrowthReading(value: Value, next: Value)
    ensures Growth(value, next)
         == if next.Text? && LengthOf(next) > LengthOf(value) then LengthOf(next) - LengthOf(value) else 0
  {
  }

  lemma RefusedHere<D>(apply: (D, Value) -> Value, d: D, rest: seq<D>, value: Value, used: nat, maximum: int)
    requires used + Growth(value, apply(d, value)) > maximum
    ensures var growth := Growth(value, apply(d, value));
            var total := if used > maximum then used else used + growth;
            ComesThrough(apply, [d] + rest, value, used, Some(maximum), total, None)
  {
    hide Applied, Growth;
    var ds := [d] + rest;
    assert ds[1..] == rest;
    AppliedFromFront(apply, ds, value);
    var growth := Growth(value, apply(d, value));
    var later := Growths(apply, rest, apply(d, value));
    var growths := Growths(apply, ds, value);
    assert growths == [growth] + later && growths[..0] == [] && growths[..1] == [growth] && Init([growth]) == [];
    TotalInParts([growth], later);
    if used > maximum {
      assert FirstOver(growths, used, maximum, 0, used);
    } else {
      assert FirstOver(growths, used, maximum, 1, used + growth);
    }
  }

  lemma ThroughFromFront<D>(apply: (D, Value) -> Value, d: D, rest: seq<D>, value: Value, used: nat,
      maximum: Option<int>, after: nat, result: Option<Value>)
    requires maximum.Some? ==> used + Growth(value, apply(d, value)) <= maximum.value
    requires var grown := if maximum.None? then 0 else Growth(value, apply(d, value));
             ComesThrough(apply, rest, apply(d, value), used + grown, maximum, after, result)
    ensures ComesThrough(apply, [d] + rest, value, used, maximum, after, result)
  {
    hide Applied, Growth, FirstOver;
    var ds := [d] + rest;
    assert ds[1..] == rest && ds[0] == d;
    AppliedFromFront(apply, ds, value);
    var growth := Growth(value, apply(d, value));
    var later := Growths(apply, rest, apply(d, value));
    var growths := Growths(apply, ds, value);
    assert growths == [growth] + later && Init([growth]) == [];
    TotalInParts([growth], later);
    if rest == [] { assert later == []; }
    if result.None? {
      var k :| FirstOver(later, used + growth, maximum.value, k, after);
      OverFromFront(growth, later, used, maximum.value, k, after);
    }
  }

  lemma OverFromFront(growth: nat, later: seq<nat>, used: nat, maximum: int, k: nat, after: nat)
    requires FirstOver(later, used + growth, maximum, k, after) && used + growth <= maximum
    ensures FirstOver([growth] + later, used, maximum, k + 1, after)
  {
    var growths: seq<nat> := [growth] + later;
    assert growths[1..] == later;
    forall j | 0 < j <= |growths| ensures Total(growths[..j]) == growth + Total(later[..j - 1]) {
      TotalFromFront(growths, j);
    }
    assert growths[..0] == [];
  }

  /** A value that comes through is longer than it was by no more than the budget had left. */
  lemma {:induction false} ProcessedTextIsBounded<D>(apply: (D, Value) -> Value, directives: seq<Option<D>>,
      value: Value, used: nat, maximum: int)
    requires Processed(apply, directives, value, used, Some(maximum)).1.Some?
    ensures var (after, result) := Processed(apply, directives, value, used, Some(maximum));
            && LengthOf(result.value) <= LengthOf(value) + (after - used)
            && (after == used || after <= maximum)
    decreases |directives|
  {
    if directives != [] {
      match directives[0] {
        case None => ProcessedTextIsBounded(apply, directives[1..], value, used, maximum);
        case Some(d) =>
          var next := apply(d, value);
          var grown := if next.Text? && LengthOf(next) > LengthOf(value) then LengthOf(next) - LengthOf(value) else 0;
          ProcessedTextIsBounded(apply, directives[1..], next, used + grown, maximum);
      }
    }
  }

  // --------------------------------------------------- several fields on one counter

  /** Where a field's loop stands: before its next directives, with a directive let through but not yet run,
      with a longer value not yet charged for, or refused. */
  datatype Place<D> =
    | Before(directives: seq<Option<D>>, value: Value)
    | Running(directive: D, rest: seq<Option<D>>, value: Value)
    | Charging(next: Value, rest: seq<Option<D>>, value: Value)
    | Refused(value: Value)

  /** A field's loop, how long its value was at first, and the growth it was granted since. */
  datatype Field<D> = Field(place: Place<D>, first: nat, granted: nat)

  datatype Shared<D> = Shared(used: nat, fields: seq<Field<D>>)

  /** A field moves on by one step that nothing can fall into; a directive that runs may make any value. */
  datatype Turn = Turn(field: nat, made: Value)

  /** What a field asks the counter for in its next step, if anything. */
  function Asked<D>(place: Place<D>): Option<nat> {
    match place
    case Before(directives, _) => if directives != [] && directives[0].Some? then Some(0) else None
    case Charging(next, _, value) =>
      Some(if LengthOf(next) > LengthOf(value) then LengthOf(next) - LengthOf(value) else 0)
    case _ => None
  }

  /** Where the step leads, when what it asked for was granted. */
  function Moved<D>(place: Place<D>, made: Value): Place<D> {
    match place
    case Before(directives, value) =>
      if directives == [] then place
      else (match directives[0]
        case None => Before(directives[1..], value)
        case Some(d) => Running(d, directives[1..], value))
    case Running(_, rest, value) =>
      if made.Text? && LengthOf(made) > LengthOf(value) then Charging(made, rest, value) else Before(rest, made)
    case Charging(next, rest, _) => Before(rest, next)
    case Refused(_) => place
  }

  function TurnTaken<D>(s: Shared<D>, turn: Turn, maximum: Option<int>): Shared<D> {
    if turn.field >= |s.fields| then s
    else
      var f := s.fields[turn.field];
      match Asked(f.place)
      case None => s.(fields := s.fields[turn.field := f.(place := Moved(f.place, turn.made))])
      case Some(n) =>
        var (used, granted) := Charged(s.used, n, maximum);
        if granted then Shared(used, s.fields[turn.field := Field(Moved(f.place, turn.made), f.first, f.granted + n)])
        else Shared(used, s.fields[turn.field := f.(place := Refused(f.place.value))])
  }

  function TurnsTaken<D>(s: Shared<D>, turns: seq<Turn>, maximum: Option<int>): Shared<D>
    decreases |turns|
  {
    if turns == [] then s else TurnsTaken(TurnTaken(s, turns[0], maximum), turns[1..], maximum)
  }

  /** What a turn asks the counter for. */
  function AskedBy<D>(s: Shared<D>, turn: Turn): Option<nat> {
    if turn.field < |s.fields| then Asked(s.fields[turn.field].place) else None
  }

  /** The charges of a schedule in the order they got the lock. */
  function ChargesOf<D>(s: Shared<D>, turns: seq<Turn>, maximum: Option<int>): seq<nat>
    decreases |turns|
  {
    if turns == [] then []
    else
      (if AskedBy(s, turns[0]).Some? then [AskedBy(s, turns[0]).value] else [])
      + ChargesOf(TurnTaken(s, turns[0], maximum), turns[1..], maximum)
  }

  function Granted<D>(fields: seq<Field<D>>): nat {
    if fields == [] then 0 else Granted(Init(fields)) + Last(fields).granted
  }

  lemma {:induction false} GrantedMore<D>(fields: seq<Field<D>>, i: nat, f: Field<D>)
    requires i < |fields|
    ensures Granted(fields[i := f]) == Granted(fields) - fields[i].granted + f.granted
  {
    if i < |fields| - 1 {
      assert Init(fields[i := f]) == Init(fields)[i := f];
      GrantedMore(Init(fields), i, f);
    } else {
      assert Init(fields[i := f]) == Init(fields);
    }
  }

  lemma TurnCharges<D>(s: Shared<D>, turn: Turn, maximum: Option<int>)
    ensures var next, n := TurnTaken(s, turn, maximum), if AskedBy(s, turn).Some? then AskedBy(s, turn).value else 0;
            && next.used == (if AskedBy(s, turn).Some? then Charged(s.used, n, maximum).0 else s.used)
            && Granted(next.fields) == Granted(s.fields) + if Charged(s.used, n, maximum).1 then n else 0
  {
    hide Asked, Moved, Granted;
    if turn.field < |s.fields| {
      GrantedMore(s.fields, turn.field, TurnTaken(s, turn, maximum).fields[turn.field]);
    }
  }

  /** Whatever the schedule, the counter and the growth granted to all fields are those of its charges. */
  lemma {:induction false} TurnsAreCharges<D>(s: Shared<D>, turns: seq<Turn>, maximum: Option<int>)
    ensures var after, charges := TurnsTaken(s, turns, maximum), ChargesOf(s, turns, maximum);
            && after.used == UsedAfter(s.used, charges, maximum)
            && Granted(after.fields) == Granted(s.fields) + AcceptedText(s.used, charges, maximum)
    decreases |turns|
  {
    hide AskedBy, TurnTaken, Granted;
    if turns != [] {
      var next := TurnTaken(s, turns[0], maximum);
      var rest := ChargesOf(next, turns[1..], maximum);
      TurnCharges(s, turns[0], maximum);
      TurnsAreCharges(next, turns[1..], maximum);
      if AskedBy(s, turns[0]).Some? {
        var charge := AskedBy(s, turns[0]).value;
        assert ChargesOf(s, turns, maximum) == [charge] + rest;
        assert ([charge] + rest)[1..] == rest;
      } else {
        assert ChargesOf(s, turns, maximum) == [] + rest == rest;
      }
    }
  }

  /** A value is no longer than it was at first and has been granted since. */
  ghost predicate Fits<D>(s: Shared<D>) {
    forall i :: 0 <= i < |s.fields| ==> LengthOf(s.fields[i].place.value) <= s.fields[i].first + s.fields[i].granted
  }

  lemma TurnFits<D>(s: Shared<D>, turn: Turn, maximum: Option<int>)
    requires Fits(s)
    ensures Fits(TurnTaken(s, turn, maximum))
  {
  }

  lemma {:induction false} TurnsFit<D>(s: Shared<D>, turns: seq<Turn>, maximum: Option<int>)
    requires Fits(s)
    ensures Fits(TurnsTaken(s, turns, maximum))
    decreases |turns|
  {
    hide Fits, TurnTaken;
    if turns != [] {
      TurnFits(s, turns[0], maximum);
      TurnsFit(TurnTaken(s, turns[0], maximum), turns[1..], maximum);
    }
  }

  /** Fields on one counter, started at any time and run in any interleaving: every value stays within its
      first length and what it was granted, and all that is granted stays within what the maximum left. */
  lemma SharedBudgetHolds<D>(s: Shared<D>, turns: seq<Turn>, maximum: int)
    requires Fits(s)
    ensures var after := TurnsTaken(s, turns, Some(maximum));
            && Fits(after)
            && Granted(after.fields) - Granted(s.fields) <= if s.used <= maximum then maximum - s.used else 0
  {
    hide TurnsTaken, ChargesOf, Granted, Fits;
    TurnsFit(s, turns, Some(maximum));
    TurnsAreCharges(s, turns, Some(maximum));
    AcceptedTextIsBounded(s.used, ChargesOf(s, turns, Some(maximum)), maximum);
  }

  /** Once one field was refused for want of budget, no field is granted anything any more. */
  lemma NothingAfterRefusal<D>(s: Shared<D>, turns: seq<Turn>, maximum: int)
    requires s.used > maximum
    ensures Granted(TurnsTaken(s, turns, Some(maximum)).fields) == Granted(s.fields)
    ensures TurnsTaken(s, turns, Some(maximum)).used > maximum
  {
    hide TurnsTaken, ChargesOf, Granted;
    var charges := ChargesOf(s, turns, Some(maximum));
    TurnsAreCharges(s, turns, Some(maximum));
    AcceptedTextIsBounded(s.used, charges, maximum);
    UsedGrows(s.used, charges, Some(maximum));
  }

  /** The turns of a field that runs without another one in between. */
  function TurnsAlone<D>(apply: (D, Value) -> Value, i: nat, directives: seq<Option<D>>, value: Value, used: nat,
      maximum: Option<int>): seq<Turn>
    decreases |directives|
  {
    if directives == [] then []
    else match directives[0]
      case None => [Turn(i, value)] + TurnsAlone(apply, i, directives[1..], value, used, maximum)
      case Some(d) =>
        if !Charged(used, 0, maximum).1 then [Turn(i, value)]
        else
          var next := apply(d, value);
          var ran := [Turn(i, value), Turn(i, next)];
          if next.Text? && LengthOf(next) > LengthOf(value) then
            var (after, accepted) := Charged(used, LengthOf(next) - LengthOf(value), maximum);
            ran + [Turn(i, next)]
            + if accepted then TurnsAlone(apply, i, directives[1..], next, after, maximum) else []
          else ran + TurnsAlone(apply, i, directives[1..], next, used, maximum)
  }

  lemma {:induction false} TurnsInParts<D>(s: Shared<D>, a: seq<Turn>, b: seq<Turn>, maximum: Option<int>)
    ensures TurnsTaken(s, a + b, maximum) == TurnsTaken(TurnsTaken(s, a, maximum), b, maximum)
    decreases |a|
  {
    hide TurnTaken;
    if a == [] {
      assert a + b == b;
    } else {
      assert (a + b)[1..] == a[1..] + b;
      TurnsInParts(TurnTaken(s, a[0], maximum), a[1..], b, maximum);
    }
  }

  /** One directive of a field that runs alone. */
  lemma OneDirective<D>(s: Shared<D>, i: nat, directives: seq<Option<D>>, value: Value, next: Value,
      maximum: Option<int>)
    requires i < |s.fields| && s.fields[i].place == Before(directives, value)
    requires directives != [] && directives[0].Some? && Charged(s.used, 0, maximum).1
    ensures var grows := next.Text? && LengthOf(next) > LengthOf(value);
            var grown := if grows then LengthOf(next) - LengthOf(value) else 0;
            var (used, accepted) := Charged(s.used, grown, maximum);
            var ran := [Turn(i, value), Turn(i, next)] + if grows then [Turn(i, next)] else [];
            var after := TurnsTaken(s, ran, maximum);
            && after.used == used && |after.fields| == |s.fields|
            && after.fields[i].place == (if accepted then Before(directives[1..], next) else Refused(value))
            && forall k :: 0 <= k < |s.fields| && k != i ==> after.fields[k] == s.fields[k]
  {
    var first := TurnTaken(s, Turn(i, value), maximum);
    var second := TurnTaken(first, Turn(i, next), maximum);
    TwoTurns(s, Turn(i, value), Turn(i, next), maximum);
    if next.Text? && LengthOf(next) > LengthOf(value) {
      TurnsInParts(s, [Turn(i, value), Turn(i, next)], [Turn(i, next)], maximum);
      OneTurn(second, Turn(i, next), maximum);
    } else {
      assert [Turn(i, value), Turn(i, next)] + [] == [Turn(i, value), Turn(i, next)];
    }
  }

  lemma OneTurn<D>(s: Shared<D>, a: Turn, maximum: Option<int>)
    ensures TurnsTaken(s, [a], maximum) == TurnTaken(s, a, maximum)
  {
    hide TurnTaken;
    assert [a][1..] == [];
  }

  lemma TwoTurns<D>(s: Shared<D>, a: Turn, b: Turn, maximum: Option<int>)
    ensures TurnsTaken(s, [a, b], maximum) == TurnTaken(TurnTaken(s, a, maximum), b, maximum)
  {
    hide TurnTaken;
    assert [a, b][1..] == [b];
    OneTurn(TurnTaken(s, a, maximum), b, maximum);
  }

  /** A field that gets all its turns in a row ends as the sequential loop does, and touches no other field. */
  lemma {:induction false} AloneIsProcessed<D>(apply: (D, Value) -> Value, s: Shared<D>, i: nat,
      directives: seq<Option<D>>, value: Value, maximum: Option<int>)
    requires i < |s.fields| && s.fields[i].place == Before(directives, value)
    ensures var (used, result) := Processed(apply, directives, value, s.used, maximum);
            var after := TurnsTaken(s, TurnsAlone(apply, i, directives, value, s.used, maximum), maximum);
            && after.used == used && |after.fields| == |s.fields|
            && (if result.Some? then after.fields[i].place == Before([], result.value)
                else after.fields[i].place.Refused?)
            && forall k :: 0 <= k < |s.fields| && k != i ==> after.fields[k] == s.fields[k]
    decreases |directives|
  {
    hide TurnTaken, TurnsTaken;
    var turns := TurnsAlone(apply, i, directives, value, s.used, maximum);
    if directives == [] {
      NoTurns(s, maximum);
    } else if directives[0].None? || !Charged(s.used, 0, maximum).1 {
      var rest := if directives[0].None? then TurnsAlone(apply, i, directives[1..], value, s.used, maximum) else [];
      assert turns == [Turn(i, value)] + rest;
      TurnsInParts(s, [Turn(i, value)], rest, maximum);
      OneTurn(s, Turn(i, value), maximum);
      FirstTurn(s, i, directives, value, maximum);
      var next := TurnTaken(s, Turn(i, value), maximum);
      if directives[0].None? {
        AloneIsProcessed(apply, next, i, directives[1..], value, maximum);
      } else {
        NoTurns(next, maximum);
      }
    } else {
      var next := apply(directives[0].value, value);
      var grows := next.Text? && LengthOf(next) > LengthOf(value);
      var ran := [Turn(i, value), Turn(i, next)] + if grows then [Turn(i, next)] else [];
      OneDirective(s, i, directives, value, next, maximum);
      var after := TurnsTaken(s, ran, maximum);
      var rest := if after.fields[i].place.Refused? then []
                  else TurnsAlone(apply, i, directives[1..], next, after.used, maximum);
      assert turns == ran + rest;
      TurnsInParts(s, ran, rest, maximum);
      if after.fields[i].place.Refused? {
        NoTurns(after, maximum);
      } else {
        AloneIsProcessed(apply, after, i, directives[1..], next, maximum);
      }
    }
  }

  lemma NoTurns<D>(s: Shared<D>, maximum: Option<int>)
    ensures TurnsTaken(s, [], maximum) == s
  {
  }

  lemma FirstTurn<D>(s: Shared<D>, i: nat, directives: seq<Option<D>>, value: Value, maximum: Option<int>)
    requires i < |s.fields| && s.fields[i].place == Before(directives, value) && directives != []
    requires directives[0].None? || !Charged(s.used, 0, maximum).1
    ensures var next := TurnTaken(s, Turn(i, value), maximum);
            && next.used == s.used && |next.fields| == |s.fields|
            && next.fields[i].place == (if directives[0].None? then Before(directives[1..], value) else Refused(value))
            && forall k :: 0 <= k < |s.fields| && k != i ==> next.fields[k] == s.fields[k]
  {
  }

  class RequestBudget {
    var used: nat

    constructor ()
      ensures used == 0
    {
      used := 0;
    }

    /** Charges text a directive added; zero only checks. The caller holds the lock. */
    method Charge(grown: nat, maximum: Option<int>) returns (accepted: bool)
      modifies this
      ensures (used, accepted) == Charged(old(used), grown, maximum)
      ensures accepted <==> maximum.None? || old(used) + grown <= maximum.value
      ensures used == old(used) + if maximum.None? then 0 else grown
    {
      if maximum.None? { return true; }
      used := used + grown;
      return used <= maximum.value;
    }

    method ProcessValue<D>(apply: (D, Value) -> Value, directives: seq<Option<D>>, value: Value,
        maximum: Option<int>) returns (result: Option<Value>)
      modifies this
      ensures (used, result) == Processed(apply, directives, value, old(used), maximum)
      ensures ComesThrough(apply, Registered(directives), value, old(used), maximum, used, result)
    {
      hide ComesThrough;
      ProcessedExactly(apply, directives, value, used, maximum);
      var current := value;
      for i := 0 to |directives|
        invariant Processed(apply, directives, value, old(used), maximum)
            == Processed(apply, directives[i..], current, used, maximum)
      {
        assert directives[i..][1..] == directives[i + 1..];
        if directives[i].Some? {
          var accepted := Charge(0, maximum);
          if !accepted { return None; }
          var before := LengthOf(current);
          current := apply(directives[i].value, current);
          if current.Text? && LengthOf(current) > before {
            accepted := Charge(LengthOf(current) - before, maximum);
            if !accepted { return None; }
          }
        }
      }
      return Some(current);
    }
  }
}
