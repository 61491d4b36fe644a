/** The evidence of a batch of dispatches: a journal of events, a manifest and a result, written after the
    batch and replayed later from those records alone. */
module Journal {
  import opened Options
  import opened Sequences

  const GROUPS: nat := 8
  const MAX_RECORDS: nat := 256

  datatype Path = Path(id: nat)
  datatype Digest = Digest(id: nat)
  datatype Source = Source(commit: nat, tree: nat)
  datatype Plan = Plan(source: Source, details: nat)
  datatype Group = Group(id: nat)

  /** A journal record. A preflight without a well-typed source has none; the other records that do not
      decode are Unknown. */
  datatype Event =
    | Other
    | Preflight(source: Option<Source>)
    | Context(number: int, base: Path, of: Source)
    | ChildStart(number: int, invocation: nat)
    | Start(number: int, plan: Plan)
    | Success(number: int, path: Path, digest: Digest)
    | Unknown

  datatype Receipt = Receipt(number: int, plan: Plan, path: Path, digest: Digest, base: Option<Path>)

  datatype Batch = Batch(groups: seq<Group>, order: seq<Path>, receipts: seq<Receipt>)

  datatype Row = Row(number: int, path: Path, digest: Digest)

  /** A receipt as recorded with the result; older records lack the field of the schema base. */
  datatype Embedded = Embedded(number: int, plan: Plan, path: Path, digest: Digest, base: Option<Option<Path>>)

  datatype Recorded = Recorded(groups: seq<Group>, order: seq<Path>, receipts: Option<seq<Embedded>>)

  datatype Evidence = Evidence(events: seq<Event>, manifest: seq<Row>, recorded: Recorded)

  // ----------------------------------------------------------------- reading the journal

  datatype Log = Log(
    starts: map<int, Plan>,
    contexts: map<int, Path>,
    successes: map<int, (Path, Digest)>,
    preflight: Option<Source>,
    legacy: bool)

  const NOTHING := Log(map[], map[], map[], None, false)

  /** The base a measuring child's own record witnesses, if it agrees with the plan. */
  type Corroboration = (nat, Plan) -> Option<Path>

  predicate AwaitsContext(log: Log, d: int) { d in log.starts && d !in log.successes && d !in log.contexts }

  /** One more record; None when it is refused. */
  function Read(child: Corroboration, n: nat, log: Log, e: Event): Option<Log> {
    match e
    case Other => Some(log)
    case Preflight(source) =>
      if log.preflight.Some? || source.None? then None else Some(log.(preflight := source))
    case Context(d, base, of) =>
      if AwaitsContext(log, d) && log.starts[d].source == of then Some(log.(contexts := log.contexts[d := base]))
      else None
    case ChildStart(d, invocation) =>
      if AwaitsContext(log, d) && child(invocation, log.starts[d]).Some? then
        Some(log.(contexts := log.contexts[d := child(invocation, log.starts[d]).value], legacy := true))
      else None
    case Start(d, plan) =>
      if 1 <= d <= n && d == |log.starts| + 1 then Some(log.(starts := log.starts[d := plan])) else None
    case Success(d, path, digest) =>
      if 1 <= d <= n && d in log.starts && d in log.contexts && d == |log.successes| + 1 then
        Some(log.(successes := log.successes[d := (path, digest)]))
      else None
    case Unknown => None
  }

  function ReadAll(child: Corroboration, n: nat, events: seq<Event>): Option<Log> {
    if events == [] then Some(NOTHING)
    else match ReadAll(child, n, Init(events))
      case None => None
      case Some(log) => Read(child, n, log, Last(events))
  }

  /** All dispatches are there, from one checkout and from the source of the preflight, if there was one. */
  predicate IsWhole(n: nat, log: Log) {
    && |log.starts| == n && |log.successes| == n && |log.contexts| == n
    && (log.legacy ==> log.preflight.Some?)
    && (log.preflight.Some? ==> forall d <- log.starts :: log.starts[d].source == log.preflight.value)
    && log.contexts != map[] && forall d <- log.contexts, e <- log.contexts :: log.contexts[d] == log.contexts[e]
  }

  // ------------------------------------------------------- what an accepted journal holds

  predicate IsContext(e: Event) { e.Context? || e.ChildStart? }

  /** The base a context record gives a dispatch of this plan. */
  function BaseOf(child: Corroboration, plan: Plan, e: Event): Option<Path>
    requires IsContext(e)
  {
    if e.ChildStart? then child(e.invocation, plan)
    else if plan.source == e.of then Some(e.base) else None
  }

  ghost predicate StartsTold(events: seq<Event>, log: Log) {
    forall d <- log.starts :: Start(d, log.starts[d]) in events && 1 <= d <= |log.starts|
  }

  ghost predicate SuccessesTold(events: seq<Event>, log: Log) {
    forall d <- log.successes ::
      Success(d, log.successes[d].0, log.successes[d].1) in events && 1 <= d <= |log.successes| && d in log.contexts
  }

  ghost predicate HasContext(events: seq<Event>, d: int) { exists e <- events :: IsContext(e) && e.number == d }

  ghost predicate ContextsTold(events: seq<Event>, log: Log) {
    forall d <- log.contexts :: HasContext(events, d) && d in log.starts
  }

  ghost predicate SourcesTold(events: seq<Event>, log: Log) {
    && (log.preflight.Some? ==> Preflight(log.preflight) in events)
    && (log.legacy ==> exists e <- events :: e.ChildStart?)
  }

  ghost predicate AllTold(child: Corroboration, events: seq<Event>, log: Log) {
    forall e <- events :: Told(child, log, e)
  }

  /** The log is what the events say: each of its entries comes from an event, and each event is in it. */
  ghost predicate Tells(child: Corroboration, events: seq<Event>, log: Log) {
    StartsTold(events, log) && SuccessesTold(events, log) && ContextsTold(events, log) && SourcesTold(events, log)
    && AllTold(child, events, log)
  }

  predicate Told(child: Corroboration, log: Log, e: Event) {
    match e
    case Start(d, plan) => d in log.starts && log.starts[d] == plan
    case Success(d, path, digest) => d in log.successes && log.successes[d] == (path, digest)
    case Preflight(source) => source.Some? && log.preflight == source
    case Unknown => false
    case Other => true
    case _ => e.number in log.starts && e.number in log.contexts
              && BaseOf(child, log.starts[e.number], e) == Some(log.contexts[e.number])
              && (e.ChildStart? ==> log.legacy)
  }

  lemma {:induction false} JournalTells(child: Corroboration, n: nat, events: seq<Event>)
    requires ReadAll(child, n, events).Some?
    ensures Tells(child, events, ReadAll(child, n, events).value)
    decreases |events|
  {
    if events != [] {
      JournalTells(child, n, Init(events));
      ReadTells(child, n, Init(events), ReadAll(child, n, Init(events)).value, Last(events));
      assert events == Init(events) + [Last(events)];
    }
  }

  lemma ReadTells(child: Corroboration, n: nat, events: seq<Event>, log: Log, e: Event)
    requires Tells(child, events, log) && Read(child, n, log, e).Some?
    ensures Tells(child, events + [e], Read(child, n, log, e).value)
  {
    hide StartsTold, SuccessesTold, ContextsTold, SourcesTold, AllTold, Read;
    ReadTellsStarts(child, n, events, log, e);
    ReadTellsSuccesses(child, n, events, log, e);
    ReadTellsContexts(child, n, events, log, e);
    ReadTellsSources(child, n, events, log, e);
    ReadTellsAll(child, n, events, log, e);
  }

  lemma ReadTellsSources(child: Corroboration, n: nat, events: seq<Event>, log: Log, e: Event)
    requires SourcesTold(events, log) && Read(child, n, log, e).Some?
    ensures SourcesTold(events + [e], Read(child, n, log, e).value)
  {
    Wider(events, e);
    if log.legacy {
      var x :| x in events && x.ChildStart?;
      assert x in events + [e];
    }
  }

  lemma Wider(events: seq<Event>, e: Event)
    ensures e in events + [e] && forall x <- events :: x in events + [e]
  {
    assert (events + [e])[|events|] == e;
    forall x <- events ensures x in events + [e] {
      var i :| 0 <= i < |events| && events[i] == x;
      assert (events + [e])[i] == x;
    }
  }

  lemma KeyAdded<T>(m: map<int, T>, d: int, v: T)
    requires d !in m
    ensures |m[d := v]| == |m| + 1
  {
    assert m[d := v].Keys == m.Keys + {d};
    assert |m[d := v].Keys| == |m.Keys| + 1;
  }

  lemma ReadTellsStarts(child: Corroboration, n: nat, events: seq<Event>, log: Log, e: Event)
    requires StartsTold(events, log) && Read(child, n, log, e).Some?
    ensures StartsTold(events + [e], Read(child, n, log, e).value)
  {
    Wider(events, e);
    if e.Start? {
      assert e.number !in log.starts;
      KeyAdded(log.starts, e.number, e.plan);
    }
  }

  lemma ReadTellsSuccesses(child: Corroboration, n: nat, events: seq<Event>, log: Log, e: Event)
    requires SuccessesTold(events, log) && Read(child, n, log, e).Some?
    ensures SuccessesTold(events + [e], Read(child, n, log, e).value)
  {
    Wider(events, e);
    if e.Success? {
      assert e.number !in log.successes;
      KeyAdded(log.successes, e.number, (e.path, e.digest));
    }
  }

  lemma ReadTellsContexts(child: Corroboration, n: nat, events: seq<Event>, log: Log, e: Event)
    requires ContextsTold(events, log) && Read(child, n, log, e).Some?
    ensures ContextsTold(events + [e], Read(child, n, log, e).value)
  {
    Wider(events, e);
    forall d <- Read(child, n, log, e).value.contexts ensures HasContext(events + [e], d) {
      if d in log.contexts {
        var x :| x in events && IsContext(x) && x.number == d;
        assert x in events + [e];
      } else {
        assert IsContext(e) && e.number == d;
      }
    }
  }

  lemma ReadTellsAll(child: Corroboration, n: nat, events: seq<Event>, log: Log, e: Event)
    requires AllTold(child, events, log) && StartsTold(events, log) && SuccessesTold(events, log)
        && Read(child, n, log, e).Some?
    ensures AllTold(child, events + [e], Read(child, n, log, e).value)
  {
    hide StartsTold, SuccessesTold;
    var after := Read(child, n, log, e).value;
    NumbersBelow(events, log);
    assert Told(child, after, e);
    forall x <- events ensures Told(child, after, x) { assert Told(child, log, x); }
  }

  lemma NumbersBelow(events: seq<Event>, log: Log)
    requires StartsTold(events, log) && SuccessesTold(events, log)
    ensures |log.starts| + 1 !in log.starts && |log.successes| + 1 !in log.successes
  {
  }

  // ------------------------------------------------------- one start, one context, one success

  /** In an accepted journal every record of a dispatch occurs once: no two records of the same kind
      carry the same number. */
  lemma {:induction false} RecordedOnce(child: Corroboration, n: nat, events: seq<Event>, i: nat, j: nat)
    requires ReadAll(child, n, events).Some? && i < j < |events|
    ensures events[i].Start? && events[j].Start? ==> events[i].number < events[j].number
    ensures events[i].Success? && events[j].Success? ==> events[i].number < events[j].number
    ensures IsContext(events[i]) && IsContext(events[j]) ==> events[i].number != events[j].number
    ensures events[i].Preflight? ==> !events[j].Preflight?
    decreases |events|
  {
    hide Told;
    assert events == Init(events) + [Last(events)];
    if j < |events| - 1 {
      RecordedOnce(child, n, Init(events), i, j);
    } else {
      EarlierIsTold(child, n, Init(events), events[i]);
      ToldBefore(child, n, Init(events), events[i], events[j]);
    }
  }

  lemma EarlierIsTold(child: Corroboration, n: nat, events: seq<Event>, e: Event)
    requires ReadAll(child, n, events).Some? && e in events
    ensures Told(child, ReadAll(child, n, events).value, e)
  {
    JournalTells(child, n, events);
  }

  lemma ToldBefore(child: Corroboration, n: nat, events: seq<Event>, early: Event, late: Event)
    requires ReadAll(child, n, events).Some?
    requires var log := ReadAll(child, n, events).value; Told(child, log, early) && Read(child, n, log, late).Some?
    ensures early.Start? && late.Start? ==> early.number < late.number
    ensures early.Success? && late.Success? ==> early.number < late.number
    ensures IsContext(early) && IsContext(late) ==> early.number != late.number
    ensures early.Preflight? ==> !late.Preflight?
    ensures early.Success? && IsContext(late) ==> early.number != late.number
    ensures early.Success? && late.Start? ==> early.number < late.number
    ensures IsContext(early) && late.Start? ==> early.number < late.number
  {
    JournalTells(child, n, events);
  }

  /** And in its order: a dispatch starts, then gets its context, then succeeds. */
  lemma {:induction false} RecordedInOrder(child: Corroboration, n: nat, events: seq<Event>, i: nat, j: nat)
    requires ReadAll(child, n, events).Some? && i < j < |events|
    ensures events[j].Start? && (events[i].Success? || IsContext(events[i])) ==> events[i].number != events[j].number
    ensures IsContext(events[j]) && events[i].Success? ==> events[i].number != events[j].number
    decreases |events|
  {
    hide Told;
    assert events == Init(events) + [Last(events)];
    if j < |events| - 1 {
      RecordedInOrder(child, n, Init(events), i, j);
    } else {
      EarlierIsTold(child, n, Init(events), events[i]);
      ToldBefore(child, n, Init(events), events[i], events[j]);
    }
  }

  lemma {:induction false} RangeIsFull(s: set<int>, n: nat)
    requires (forall d <- s :: 1 <= d <= n) && |s| == n
    ensures forall d :: 1 <= d <= n ==> d in s
  {
    if n > 0 {
      if n in s {
        RangeIsFull(s - {n}, n - 1);
      } else {
        RangeIsNoLarger(s, n - 1);
      }
    }
  }

  lemma {:induction false} RangeIsNoLarger(s: set<int>, n: nat)
    requires forall d <- s :: 1 <= d <= n
    ensures |s| <= n
  {
    if n > 0 {
      RangeIsNoLarger(s - {n}, n - 1);
      assert |s| <= |s - {n}| + 1 by { if n in s { assert s == (s - {n}) + {n}; } else { assert s - {n} == s; } }
    } else {
      assert forall d <- s :: false;
      assert s == {};
    }
  }

  /** A whole journal has, for every dispatch, a start, then a context, then a success. */
  lemma DispatchIsRecorded(child: Corroboration, n: nat, events: seq<Event>, d: int) returns (s: nat, c: nat, x: nat)
    requires ReadAll(child, n, events).Some? && IsWhole(n, ReadAll(child, n, events).value) && 1 <= d <= n
    ensures var log := ReadAll(child, n, events).value;
            && s < c < x < |events| && d in log.starts && d in log.contexts && d in log.successes
            && events[s] == Start(d, log.starts[d]) && events[x] == Success(d, log.successes[d].0, log.successes[d].1)
            && IsContext(events[c]) && events[c].number == d
            && BaseOf(child, log.starts[d], events[c]) == Some(log.contexts[d])
  {
    hide ReadAll, BaseOf;
    var log := ReadAll(child, n, events).value;
    JournalTells(child, n, events);
    WholeKeys(child, n, events, log);
    s :| 0 <= s < |events| && events[s] == Start(d, log.starts[d]);
    x :| 0 <= x < |events| && events[x] == Success(d, log.successes[d].0, log.successes[d].1);
    var e :| e in events && IsContext(e) && e.number == d;
    c :| 0 <= c < |events| && events[c] == e;
    assert Told(child, log, e);
    InOrder(child, n, events, s, c, x, d);
  }

  lemma InOrder(child: Corroboration, n: nat, events: seq<Event>, s: nat, c: nat, x: nat, d: int)
    requires ReadAll(child, n, events).Some? && s < |events| && c < |events| && x < |events|
    requires events[s].Start? && events[x].Success? && IsContext(events[c])
    requires events[s].number == events[c].number == events[x].number == d
    ensures s < c < x
    ensures BaseOf.requires(child, events[s].plan, events[c])
  {
    if c < s { RecordedInOrder(child, n, events, c, s); }
    if x < c { RecordedInOrder(child, n, events, x, c); }
  }

  ghost predicate SameRecords(a: seq<Event>, b: seq<Event>) { forall e: Event :: e != Other ==> (e in a <==> e in b) }

  /** What a journal says depends on its records, not on how they are interleaved. */
  lemma InterleavingIsIrrelevant(child: Corroboration, n: nat, a: seq<Event>, b: seq<Event>)
    requires SameRecords(a, b) && ReadAll(child, n, a).Some? && ReadAll(child, n, b).Some?
    ensures ReadAll(child, n, a) == ReadAll(child, n, b)
  {
    hide ReadAll, Tells, SameRecords;
    var x, y := ReadAll(child, n, a).value, ReadAll(child, n, b).value;
    JournalTells(child, n, a);
    JournalTells(child, n, b);
    assert SameRecords(b, a) by { SameBothWays(a, b); }
    LogWithin(child, a, b, x, y);
    LogWithin(child, b, a, y, x);
    EqualMaps(x.starts, y.starts);
    EqualMaps(x.successes, y.successes);
    EqualMaps(x.contexts, y.contexts);
  }

  lemma SameBothWays(a: seq<Event>, b: seq<Event>)
    requires SameRecords(a, b)
    ensures SameRecords(b, a)
  {
  }

  lemma EqualMaps<T>(a: map<int, T>, b: map<int, T>)
    requires forall d <- a :: d in b && b[d] == a[d]
    requires forall d <- b :: d in a && a[d] == b[d]
    ensures a == b
  {
    forall d ensures d in a <==> d in b {
      if d in a { assert b[d] == a[d]; }
      if d in b { assert a[d] == b[d]; }
    }
    assert a.Keys == b.Keys;
    forall d | d in a ensures a[d] == b[d] {
      assert d in b && b[d] == a[d];
    }
  }

  lemma LogWithin(child: Corroboration, a: seq<Event>, b: seq<Event>, x: Log, y: Log)
    requires SameRecords(a, b) && Tells(child, a, x) && Tells(child, b, y)
    ensures forall d <- x.starts :: d in y.starts && y.starts[d] == x.starts[d]
    ensures forall d <- x.successes :: d in y.successes && y.successes[d] == x.successes[d]
    ensures forall d <- x.contexts :: d in y.contexts && y.contexts[d] == x.contexts[d]
    ensures (x.preflight.Some? ==> y.preflight == x.preflight) && (x.legacy ==> y.legacy)
  {
    forall d <- x.starts ensures d in y.starts && y.starts[d] == x.starts[d] {
      assert Told(child, y, Start(d, x.starts[d]));
    }
    forall d <- x.successes ensures d in y.successes && y.successes[d] == x.successes[d] {
      assert Told(child, y, Success(d, x.successes[d].0, x.successes[d].1));
    }
    forall d <- x.contexts ensures d in y.contexts && y.contexts[d] == x.contexts[d] {
      assert HasContext(a, d);
      var e :| e in a && IsContext(e) && e.number == d;
      assert Told(child, x, e) && Told(child, y, e);
    }
    if x.preflight.Some? { assert Told(child, y, Preflight(x.preflight)); }
    if x.legacy {
      var e :| e in a && e.ChildStart?;
      assert Told(child, y, e);
    }
  }

  // ------------------------------------------------------------------------- the replay

  function ReceiptOf(log: Log, d: int): Receipt
    requires d in log.starts && d in log.successes && d in log.contexts
  {
    Receipt(d, log.starts[d], log.successes[d].0, log.successes[d].1, Some(log.contexts[d]))
  }

  /** Receipts by number, for a log that has all of them. */
  function ReceiptsOf(log: Log, n: nat): seq<Receipt> {
    seq(n, i requires 0 <= i < n =>
      if i + 1 in log.starts && i + 1 in log.successes && i + 1 in log.contexts then ReceiptOf(log, i + 1)
      else Receipt(i + 1, Plan(Source(0, 0), 0), Path(0), Digest(0), None))
  }

  function RowOf(r: Receipt): Row { Row(r.number, r.path, r.digest) }

  function RowsOf(receipts: seq<Receipt>): seq<Row> {
    seq(|receipts|, i requires 0 <= i < |receipts| => RowOf(receipts[i]))
  }

  function PathsOf(receipts: seq<Receipt>): seq<Path> {
    seq(|receipts|, i requires 0 <= i < |receipts| => receipts[i].path)
  }

  /** A recorded receipt; where the field is missing the base is taken from the journal. */
  function Restored(e: Embedded, base: Option<Path>): Receipt {
    Receipt(e.number, e.plan, e.path, e.digest, if e.base.Some? then e.base.value else base)
  }

  function AllRestored(embedded: seq<Embedded>, receipts: seq<Receipt>): seq<Receipt>
    requires |embedded| == |receipts|
  {
    seq(|embedded|, i requires 0 <= i < |embedded| => Restored(embedded[i], receipts[i].base))
  }

  /** The batch and its receipts, from records that agree with each other throughout. */
  function Replayed(child: Corroboration, n: nat, evidence: Evidence): Option<(Batch, seq<Receipt>)> {
    var recorded := evidence.recorded;
    if evidence.events == [] || |evidence.events| > MAX_RECORDS then None
    else match ReadAll(child, n, evidence.events)
      case None => None
      case Some(log) =>
        var receipts := ReceiptsOf(log, n);
        if !IsWhole(n, log) || evidence.manifest != RowsOf(receipts) then None
        else if |recorded.groups| != GROUPS || recorded.order != PathsOf(receipts) then None
        else match recorded.receipts
          case None => Some((Batch(recorded.groups, recorded.order, []), receipts))
          case Some(embedded) =>
            if |embedded| == n && AllRestored(embedded, receipts) == receipts then
              Some((Batch(recorded.groups, recorded.order, receipts), receipts))
            else None
  }

  // ------------------------------------------------------------------------ the writing

  function EventsOf(r: Receipt): seq<Event>
    requires r.base.Some?
  {
    [Start(r.number, r.plan), Context(r.number, r.base.value, r.plan.source), Success(r.number, r.path, r.digest)]
  }

  function AllEvents(receipts: seq<Receipt>): seq<Event>
    requires forall r <- receipts :: r.base.Some?
  {
    if receipts == [] then [] else AllEvents(Init(receipts)) + EventsOf(Last(receipts))
  }

  function EmbeddedOf(r: Receipt): Embedded { Embedded(r.number, r.plan, r.path, r.digest, Some(r.base)) }

  function AllEmbedded(receipts: seq<Receipt>): seq<Embedded> {
    seq(|receipts|, i requires 0 <= i < |receipts| => EmbeddedOf(receipts[i]))
  }

  /** The evidence of a batch; None when a receipt lacks its checked schema base or the count is off. */
  function Written(n: nat, batch: Batch): Option<Evidence> {
    if |batch.receipts| != n || exists r <- batch.receipts :: r.base.None? then None
    else Some(Evidence(AllEvents(batch.receipts), RowsOf(batch.receipts),
                       Recorded(batch.groups, batch.order, Some(AllEmbedded(batch.receipts)))))
  }

  /** A batch the live run produces: receipts numbered from one, one checkout, raws in dispatch order. */
  predicate IsComplete(n: nat, batch: Batch) {
    && |batch.groups| == GROUPS && |batch.receipts| == n && batch.order == PathsOf(batch.receipts)
    && forall i :: 0 <= i < n ==> batch.receipts[i].number == i + 1 && batch.receipts[i].base == batch.receipts[0].base
  }

  /** The log of the first receipts' events. */
  function LogOf(receipts: seq<Receipt>): Log
    requires forall r <- receipts :: r.base.Some?
  {
    if receipts == [] then NOTHING
    else
      var (log, r) := (LogOf(Init(receipts)), Last(receipts));
      log.(starts := log.starts[r.number := r.plan], contexts := log.contexts[r.number := r.base.value],
           successes := log.successes[r.number := (r.path, r.digest)])
  }

  ghost predicate Numbered(receipts: seq<Receipt>) {
    forall i :: 0 <= i < |receipts| ==> receipts[i].number == i + 1
  }

  lemma {:induction false} LogOfReceipts(receipts: seq<Receipt>)
    requires Numbered(receipts) && forall r <- receipts :: r.base.Some?
    ensures var log := LogOf(receipts);
            && (forall d :: d in log.starts <==> 1 <= d <= |receipts|)
            && log.contexts.Keys == log.successes.Keys == log.starts.Keys && |log.starts| == |receipts|
            && log.preflight == None && !log.legacy
    ensures var log := LogOf(receipts);
            forall i {:trigger receipts[i]} :: 0 <= i < |receipts| ==> ReceiptOf(log, i + 1) == receipts[i]
  {
    if receipts != [] {
      var before, r := Init(receipts), Last(receipts);
      LogOfReceipts(before);
      KeyAdded(LogOf(before).starts, r.number, r.plan);
    }
  }

  /** Reading the written events gives back the log of the receipts. */
  lemma {:induction false} WrittenIsRead(child: Corroboration, n: nat, receipts: seq<Receipt>)
    requires Numbered(receipts) && |receipts| <= n && forall r <- receipts :: r.base.Some?
    ensures ReadAll(child, n, AllEvents(receipts)) == Some(LogOf(receipts)) && |AllEvents(receipts)| == 3 * |receipts|
  {
    if receipts != [] {
      var before, r := Init(receipts), Last(receipts);
      assert r in receipts;
      WrittenIsRead(child, n, before);
      LogOfReceipts(before);
      LogOfReceipts(receipts);
      ThreeRead(child, n, AllEvents(before), LogOf(before), r);
    }
  }

  lemma ThreeRead(child: Corroboration, n: nat, events: seq<Event>, log: Log, r: Receipt)
    requires ReadAll(child, n, events) == Some(log) && r.base.Some?
    requires r.number == |log.starts| + 1 == |log.successes| + 1 <= n
    requires r.number !in log.contexts && r.number !in log.successes
    ensures ReadAll(child, n, events + EventsOf(r))
         == Some(log.(starts := log.starts[r.number := r.plan], contexts := log.contexts[r.number := r.base.value],
                      successes := log.successes[r.number := (r.path, r.digest)]))
  {
    hide ReadAll;
    var all := EventsOf(r);
    ReadOneMore(child, n, events, all[0]);
    ReadOneMore(child, n, events + [all[0]], all[1]);
    ReadOneMore(child, n, events + [all[0]] + [all[1]], all[2]);
    assert events + all == events + [all[0]] + [all[1]] + [all[2]];
  }

  lemma ReadOneMore(child: Corroboration, n: nat, events: seq<Event>, e: Event)
    ensures ReadAll(child, n, events + [e])
         == match ReadAll(child, n, events) case None => None case Some(log) => Read(child, n, log, e)
  {
    InitLast(events, e);
  }

  /** Replaying the evidence of a batch gives that batch and its receipts, exactly for complete batches. */
  lemma ReplayReturnsTheBatch(child: Corroboration, n: nat, batch: Batch)
    requires Written(n, batch).Some? && 1 <= n && 3 * n <= MAX_RECORDS
    ensures var replayed := Replayed(child, n, Written(n, batch).value);
            && (replayed.Some? <==> IsComplete(n, batch))
            && (replayed.Some? ==> replayed.value == (batch, batch.receipts))
  {
    hide ReadAll, IsWhole, AllEvents;
    var evidence := Written(n, batch).value;
    if IsComplete(n, batch) {
      CompleteIsReplayed(child, n, batch);
    }
    if Replayed(child, n, evidence).Some? {
      var log := ReadAll(child, n, evidence.events).value;
      var receipts := ReceiptsOf(log, n);
      EmbeddedAgain(batch.receipts, receipts);
      WholeReceipts(child, n, evidence.events, log);
    }
  }

  lemma EmbeddedAgain(receipts: seq<Receipt>, other: seq<Receipt>)
    requires |receipts| == |other|
    ensures AllRestored(AllEmbedded(receipts), other) == receipts
  {
  }

  lemma WholeReceipts(child: Corroboration, n: nat, events: seq<Event>, log: Log)
    requires ReadAll(child, n, events) == Some(log) && IsWhole(n, log)
    ensures forall i, j :: 0 <= i < n && 0 <= j < n ==> ReceiptsOf(log, n)[i].base == ReceiptsOf(log, n)[j].base
  {
    hide ReadAll, IsWhole;
    WholeKeys(child, n, events, log);
    forall i, j | 0 <= i < n && 0 <= j < n ensures ReceiptsOf(log, n)[i].base == ReceiptsOf(log, n)[j].base {
      OneCheckout(n, log, i + 1, j + 1);
    }
  }

  lemma WholeKeys(child: Corroboration, n: nat, events: seq<Event>, log: Log)
    requires ReadAll(child, n, events) == Some(log) && IsWhole(n, log)
    ensures forall d :: 1 <= d <= n ==> d in log.starts && d in log.successes && d in log.contexts
  {
    hide ReadAll, StartsTold, SuccessesTold, AllTold, ContextsTold, SourcesTold;
    JournalTells(child, n, events);
    assert (forall d <- log.starts :: 1 <= d <= n) by { StartsInRange(events, log); }
    assert forall d <- log.successes :: 1 <= d <= n && d in log.contexts by { SuccessesInRange(events, log); }
    RangeIsFull(log.starts.Keys, n);
    RangeIsFull(log.successes.Keys, n);
    forall d | 1 <= d <= n ensures d in log.starts && d in log.successes && d in log.contexts {
      assert d in log.starts.Keys && d in log.successes.Keys;
    }
  }

  lemma StartsInRange(events: seq<Event>, log: Log)
    requires StartsTold(events, log)
    ensures forall d <- log.starts :: 1 <= d <= |log.starts|
  {
  }

  lemma SuccessesInRange(events: seq<Event>, log: Log)
    requires SuccessesTold(events, log)
    ensures forall d <- log.successes :: 1 <= d <= |log.successes| && d in log.contexts
  {
  }

  lemma OneCheckout(n: nat, log: Log, d: int, e: int)
    requires IsWhole(n, log) && d in log.contexts && e in log.contexts
    ensures log.contexts[d] == log.contexts[e]
  {
  }

  lemma CompleteIsReplayed(child: Corroboration, n: nat, batch: Batch)
    requires Written(n, batch).Some? && 1 <= n && 3 * n <= MAX_RECORDS && IsComplete(n, batch)
    ensures Replayed(child, n, Written(n, batch).value) == Some((batch, batch.receipts))
  {
    hide ReadAll, AllEvents, LogOf;
    WrittenIsRead(child, n, batch.receipts);
    LogOfReceipts(batch.receipts);
    var log := LogOf(batch.receipts);
    assert ReceiptsOf(log, n) == batch.receipts;
    EmbeddedAgain(batch.receipts, batch.receipts);
    assert IsWhole(n, log) by {
      assert 1 in log.contexts;
      assert |log.contexts.Keys| == n && |log.successes.Keys| == n;
      forall d <- log.contexts ensures Some(log.contexts[d]) == batch.receipts[0].base {
        assert ReceiptOf(log, d - 1 + 1) == batch.receipts[d - 1];
      }
    }
  }

  // ---------------------------------------------------------------------------- as it runs

  /** Folds the journal into the dictionaries of starts, contexts and successes. */
  method ReadJournal(child: Corroboration, n: nat, events: seq<Event>) returns (read: Option<Log>)
    ensures read == ReadAll(child, n, events)
  {
    hide ReadAll;
    var starts: map<int, Plan>, contexts: map<int, Path>, successes: map<int, (Path, Digest)> := map[], map[], map[];
    var preflight: Option<Source>, legacy := None, false;
    NothingRead(child, n, events);
    for i := 0 to |events|
      invariant ReadAll(child, n, events[..i]) == Some(Log(starts, contexts, successes, preflight, legacy))
    {
      var e := events[i];
      ReadOneMore(child, n, events[..i], e);
      assert events[..i + 1] == events[..i] + [e];
      ghost var before := Log(starts, contexts, successes, preflight, legacy);
      if Read(child, n, before, e).None? { NothingAfter(child, n, events, i + 1); }
      match e {
        case Other =>
        case Preflight(source) =>
          if preflight.Some? || source.None? { return None; }
          preflight := source;
        case Context(d, base, of) =>
          if d !in starts || d in successes || d in contexts || starts[d].source != of { return None; }
          contexts := contexts[d := base];
        case ChildStart(d, invocation) =>
          if d !in starts || d in successes || d in contexts { return None; }
          legacy := true;
          var base := child(invocation, starts[d]);
          if base.None? { return None; }
          contexts := contexts[d := base.value];
        case Start(d, plan) =>
          if d < 1 || d > n || d != |starts| + 1 { return None; }
          starts := starts[d := plan];
        case Success(d, path, digest) =>
          if d < 1 || d > n || d !in starts || d !in contexts || d != |successes| + 1 { return None; }
          successes := successes[d := (path, digest)];
        case Unknown => return None;
      }
    }
    assert events[..|events|] == events;
    return Some(Log(starts, contexts, successes, preflight, legacy));
  }

  lemma NothingRead(child: Corroboration, n: nat, events: seq<Event>)
    ensures ReadAll(child, n, events[..0]) == Some(NOTHING)
  {
  }

  /** A journal whose beginning is refused is refused. */
  lemma {:induction false} NothingAfter(child: Corroboration, n: nat, events: seq<Event>, i: nat)
    requires i <= |events| && ReadAll(child, n, events[..i]).None?
    ensures ReadAll(child, n, events).None?
    decreases |events|
  {
    if i == |events| {
      assert events[..i] == events;
    } else {
      assert Init(events)[..i] == events[..i];
      NothingAfter(child, n, Init(events), i);
    }
  }

  /** Reconstructs a batch from its retained evidence. */
  method LoadReplay(child: Corroboration, n: nat, evidence: Evidence) returns (replay: Option<(Batch, seq<Receipt>)>)
    ensures replay == Replayed(child, n, evidence)
  {
    hide ReadAll, IsWhole, ReceiptsOf, RowsOf, PathsOf, AllRestored;
    if evidence.events == [] || |evidence.events| > MAX_RECORDS { return None; }
    var read := ReadJournal(child, n, evidence.events);
    if read.None? || !IsWhole(n, read.value) { return None; }
    var receipts := ReceiptsOf(read.value, n);
    var agrees := ManifestAgrees(evidence.manifest, receipts);
    if !agrees { return None; }
    var recorded := evidence.recorded;
    if |recorded.groups| != GROUPS || recorded.order != PathsOf(receipts) { return None; }
    assert |receipts| == n by { CountOfReceipts(read.value, n); }
    if recorded.receipts.None? { return Some((Batch(recorded.groups, recorded.order, []), receipts)); }
    if |recorded.receipts.value| != n { return None; }
    var embedded := AllRestored(recorded.receipts.value, receipts);
    if embedded != receipts { return None; }
    return Some((Batch(recorded.groups, recorded.order, embedded), receipts));
  }

  lemma CountOfReceipts(log: Log, n: nat)
    ensures |ReceiptsOf(log, n)| == n
  {
  }

  /** Compares the manifest with the journal, row by row. */
  method ManifestAgrees(manifest: seq<Row>, receipts: seq<Receipt>) returns (agrees: bool)
    ensures agrees <==> manifest == RowsOf(receipts)
  {
    if |manifest| != |receipts| { return false; }
    for i := 0 to |manifest|
      invariant forall k :: 0 <= k < i ==> manifest[k] == RowsOf(receipts)[k]
    {
      if manifest[i] != RowOf(receipts[i]) {
        assert RowsOf(receipts)[i] != manifest[i];
        return false;
      }
    }
    return true;
  }

  /** The records of a complete batch: three events and a manifest row for each receipt. */
  method WriteEvidence(n: nat, batch: Batch) returns (evidence: Option<Evidence>)
    ensures evidence == Written(n, batch)
  {
    hide AllEvents, EventsOf;
    if |batch.receipts| != n { return None; }
    var events: seq<Event>, manifest: seq<Row> := [], [];
    assert AllEvents(batch.receipts[..0]) == [] by { NoEvents(); }
    for i := 0 to n
      invariant forall r <- batch.receipts[..i] :: r.base.Some?
      invariant events == AllEvents(batch.receipts[..i]) && manifest == RowsOf(batch.receipts[..i])
    {
      var r := batch.receipts[i];
      if r.base.None? {
        assert r in batch.receipts;
        return None;
      }
      assert batch.receipts[..i + 1] == batch.receipts[..i] + [r];
      MoreEvents(batch.receipts[..i], r);
      events := events + EventsOf(r);
      manifest := manifest + [RowOf(r)];
    }
    assert batch.receipts[..n] == batch.receipts;
    return Some(Evidence(events, manifest, Recorded(batch.groups, batch.order, Some(AllEmbedded(batch.receipts)))));
  }

  lemma NoEvents()
    ensures AllEvents([]) == []
  {
  }

  lemma MoreEvents(receipts: seq<Receipt>, r: Receipt)
    requires r.base.Some? && forall x <- receipts :: x.base.Some?
    ensures AllEvents(receipts + [r]) == AllEvents(receipts) + EventsOf(r)
    ensures RowsOf(receipts + [r]) == RowsOf(receipts) + [RowOf(r)]
  {
    InitLast(receipts, r);
  }
}
