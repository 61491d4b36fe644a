/** Which evidence is replayed, read off its records one by one: what each record needs of the records
    before it, and what the journal, the manifest and the result have to agree on. */
module JournalReadings {
  import opened Options
  import opened Sequences
  import opened Journal

  ghost predicate Started(events: seq<Event>, d: int) { exists e <- events :: e.Start? && e.number == d }

  ghost predicate Succeeded(events: seq<Event>, d: int) { exists e <- events :: e.Success? && e.number == d }

  ghost predicate HasPreflight(events: seq<Event>) { exists e <- events :: e.Preflight? }

  /** A started dispatch whose plan agrees with this context record. */
  ghost predicate Suits(child: Corroboration, events: seq<Event>, e: Event)
    requires IsContext(e)
  {
    exists s <- events :: s.Start? && s.number == e.number && BaseOf(child, s.plan, e).Some?
  }

  /** What a record needs of the records before it. */
  ghost predicate Fits(child: Corroboration, n: nat, earlier: seq<Event>, e: Event) {
    match e
    case Other => true
    case Unknown => false
    case Preflight(source) => source.Some? && !HasPreflight(earlier)
    case Start(d, _) => 1 <= d <= n && !Started(earlier, d) && (d == 1 || Started(earlier, d - 1))
    case Success(d, _, _) =>
      && 1 <= d <= n && HasContext(earlier, d)
      && !Succeeded(earlier, d) && (d == 1 || Succeeded(earlier, d - 1))
    case _ => Suits(child, earlier, e) && !HasContext(earlier, e.number) && !Succeeded(earlier, e.number)
  }

  ghost predicate AllFit(child: Corroboration, n: nat, events: seq<Event>) {
    forall i | 0 <= i < |events| :: Fits(child, n, events[..i], events[i])
  }

  // ------------------------------------------------------------------ the records one by one

  lemma StartsKnown(child: Corroboration, n: nat, events: seq<Event>, log: Log, d: int)
    requires ReadAll(child, n, events) == Some(log)
    ensures d in log.starts <==> Started(events, d)
    ensures d in log.starts <==> 1 <= d <= |log.starts|
    ensures forall plan :: Start(d, plan) in events <==> d in log.starts && log.starts[d] == plan
  {
    hide ReadAll;
    JournalTells(child, n, events);
    StartsInRange(events, log);
    RangeIsFull(log.starts.Keys, |log.starts|);
    assert 1 <= d <= |log.starts| ==> d in log.starts.Keys;
    if Started(events, d) {
      var e :| e in events && e.Start? && e.number == d;
      assert Told(child, log, e);
    }
    forall plan | Start(d, plan) in events ensures d in log.starts && log.starts[d] == plan {
      assert Told(child, log, Start(d, plan));
    }
  }

  lemma SuccessesKnown(child: Corroboration, n: nat, events: seq<Event>, log: Log, d: int)
    requires ReadAll(child, n, events) == Some(log)
    ensures d in log.successes <==> Succeeded(events, d)
    ensures d in log.successes <==> 1 <= d <= |log.successes|
    ensures forall p, x :: Success(d, p, x) in events <==> d in log.successes && log.successes[d] == (p, x)
  {
    hide ReadAll;
    JournalTells(child, n, events);
    SuccessesInRange(events, log);
    RangeIsFull(log.successes.Keys, |log.successes|);
    assert 1 <= d <= |log.successes| ==> d in log.successes.Keys;
    if Succeeded(events, d) {
      var e :| e in events && e.Success? && e.number == d;
      assert Told(child, log, e);
    }
    forall p, x | Success(d, p, x) in events ensures d in log.successes && log.successes[d] == (p, x) {
      assert Told(child, log, Success(d, p, x));
    }
  }

  lemma ContextsKnown(child: Corroboration, n: nat, events: seq<Event>, log: Log, d: int)
    requires ReadAll(child, n, events) == Some(log)
    ensures d in log.contexts <==> HasContext(events, d)
    ensures d in log.contexts ==> d in log.starts
    ensures d in log.successes ==> d in log.contexts
    ensures forall e <- events | IsContext(e) && e.number == d ::
              d in log.starts && d in log.contexts && BaseOf(child, log.starts[d], e) == Some(log.contexts[d])
  {
    hide ReadAll, BaseOf;
    JournalTells(child, n, events);
    forall e <- events | IsContext(e) && e.number == d
      ensures d in log.starts && d in log.contexts && BaseOf(child, log.starts[d], e) == Some(log.contexts[d])
    {
      assert Told(child, log, e);
    }
  }

  lemma SourcesKnown(child: Corroboration, n: nat, events: seq<Event>, log: Log)
    requires ReadAll(child, n, events) == Some(log)
    ensures log.preflight.Some? <==> HasPreflight(events)
    ensures forall source :: Preflight(source) in events <==> source.Some? && log.preflight == source
    ensures log.legacy <==> exists e <- events :: e.ChildStart?
  {
    hide ReadAll;
    JournalTells(child, n, events);
    forall e <- events | e.Preflight? ensures e.source.Some? && log.preflight == e.source {
      assert Told(child, log, e);
    }
    forall e <- events | e.ChildStart? ensures log.legacy { assert Told(child, log, e); }
  }

  /** A record is taken exactly when it fits behind those before it. */
  lemma ReadWhenItFits(child: Corroboration, n: nat, events: seq<Event>, log: Log, e: Event)
    requires ReadAll(child, n, events) == Some(log)
    ensures Read(child, n, log, e).Some? <==> Fits(child, n, events, e)
  {
    hide ReadAll, Started, Succeeded, HasContext, HasPreflight, Suits, BaseOf;
    SourcesKnown(child, n, events, log);
    if !e.Other? && !e.Unknown? && !e.Preflight? {
      StartsKnown(child, n, events, log, e.number);
      StartsKnown(child, n, events, log, e.number - 1);
      SuccessesKnown(child, n, events, log, e.number);
      SuccessesKnown(child, n, events, log, e.number - 1);
      ContextsKnown(child, n, events, log, e.number);
      if IsContext(e) { SuitsWhenStarted(child, n, events, log, e); }
      if IsContext(e) { ReadsContext(child, n, log, e); }
    }
  }

  lemma ReadsContext(child: Corroboration, n: nat, log: Log, e: Event)
    requires IsContext(e)
    ensures Read(child, n, log, e).Some? <==>
            AwaitsContext(log, e.number) && BaseOf(child, log.starts[e.number], e).Some?
  {
  }

  lemma SuitsWhenStarted(child: Corroboration, n: nat, events: seq<Event>, log: Log, e: Event)
    requires ReadAll(child, n, events) == Some(log) && IsContext(e)
    ensures Suits(child, events, e) <==> e.number in log.starts && BaseOf(child, log.starts[e.number], e).Some?
  {
    hide ReadAll, BaseOf, Started;
    StartsKnown(child, n, events, log, e.number);
    if Suits(child, events, e) {
      var s :| s in events && s.Start? && s.number == e.number && BaseOf(child, s.plan, e).Some?;
      assert s == Start(e.number, s.plan);
    }
    if e.number in log.starts { assert Start(e.number, log.starts[e.number]) in events; }
  }

  /** A journal is accepted exactly when each record fits behind those before it. */
  lemma {:induction false} AcceptedWhenAllFit(child: Corroboration, n: nat, events: seq<Event>)
    ensures ReadAll(child, n, events).Some? <==> AllFit(child, n, events)
    decreases |events|
  {
    hide Fits, Read;
    if events != [] {
      var before, e := Init(events), Last(events);
      AcceptedWhenAllFit(child, n, before);
      AllFitSteps(child, n, before, e);
      assert before + [e] == events;
      if ReadAll(child, n, before).Some? {
        ReadWhenItFits(child, n, before, ReadAll(child, n, before).value, e);
      }
    }
  }

  lemma AllFitSteps(child: Corroboration, n: nat, events: seq<Event>, e: Event)
    ensures AllFit(child, n, events + [e]) <==> AllFit(child, n, events) && Fits(child, n, events, e)
  {
    hide Fits;
    var all := events + [e];
    assert all[..|events|] == events && all[|events|] == e;
    forall i | 0 <= i < |events| ensures all[..i] == events[..i] && all[i] == events[i] {}
    if AllFit(child, n, all) {
      assert Fits(child, n, all[..|events|], all[|events|]);
      forall i | 0 <= i < |events| ensures Fits(child, n, events[..i], events[i]) {
        assert Fits(child, n, all[..i], all[i]);
      }
    }
  }

  // ------------------------------------------------------------------- the whole journal

  /** Every context record of a dispatch gives this base. */
  ghost predicate AllGive(child: Corroboration, events: seq<Event>, base: Path) {
    forall e <- events, s <- events | IsContext(e) && s.Start? && s.number == e.number ::
      BaseOf(child, s.plan, e) == Some(base)
  }

  /** The source of the preflight, when there is one, is the source of every plan. */
  ghost predicate OneSource(events: seq<Event>) {
    forall p <- events, s <- events | p.Preflight? && s.Start? :: p.source == Some(s.plan.source)
  }

  /** Every dispatch succeeds, in one checkout and from one source; records of the older kind need a
      preflight beside them. */
  ghost predicate TellsAll(child: Corroboration, n: nat, events: seq<Event>) {
    && 1 <= n && (forall d | 1 <= d <= n :: Succeeded(events, d))
    && ((exists e <- events :: e.ChildStart?) ==> HasPreflight(events))
    && OneSource(events) && exists base :: AllGive(child, events, base)
  }

  lemma Numbers(child: Corroboration, n: nat, events: seq<Event>, log: Log)
    requires ReadAll(child, n, events) == Some(log)
    ensures |log.successes| <= |log.contexts| <= |log.starts| <= n
    ensures |log.successes| == n <==> forall d | 1 <= d <= n :: Succeeded(events, d)
  {
    hide ReadAll, Started, Succeeded, HasContext;
    forall d ensures d in log.successes ==> d in log.contexts && (d in log.contexts ==> d in log.starts) {
      ContextsKnown(child, n, events, log, d);
    }
    forall d ensures d in log.contexts ==> d in log.starts { ContextsKnown(child, n, events, log, d); }
    SubsetSize(log.successes.Keys, log.contexts.Keys);
    SubsetSize(log.contexts.Keys, log.starts.Keys);
    StartsFit(child, n, events, log);
    forall d ensures Succeeded(events, d) <==> 1 <= d <= |log.successes| {
      SuccessesKnown(child, n, events, log, d);
    }
    if n >= 1 && forall d | 1 <= d <= n :: Succeeded(events, d) { assert Succeeded(events, n); }
  }

  lemma {:induction false} StartsFit(child: Corroboration, n: nat, events: seq<Event>, log: Log)
    requires ReadAll(child, n, events) == Some(log)
    ensures |log.starts| <= n
    decreases |events|
  {
    if events != [] {
      var before := ReadAll(child, n, Init(events)).value;
      StartsFit(child, n, Init(events), before);
      if Last(events).Start? && Last(events).number !in before.starts {
        KeyAdded(before.starts, Last(events).number, Last(events).plan);
      } else if Last(events).Start? {
        StartsKnown(child, n, Init(events), before, Last(events).number);
      }
    }
  }

  lemma OneSourceReading(child: Corroboration, n: nat, events: seq<Event>, log: Log)
    requires ReadAll(child, n, events) == Some(log)
    ensures OneSource(events) <==>
            (log.preflight.Some? ==> forall d <- log.starts :: log.starts[d].source == log.preflight.value)
  {
    hide ReadAll, Started, HasPreflight;
    SourcesKnown(child, n, events, log);
    forall d ensures forall plan :: Start(d, plan) in events <==> d in log.starts && log.starts[d] == plan {
      StartsKnown(child, n, events, log, d);
    }
    if OneSource(events) && log.preflight.Some? {
      forall d <- log.starts ensures log.starts[d].source == log.preflight.value {
        assert Preflight(log.preflight) in events && Start(d, log.starts[d]) in events;
      }
    }
    if log.preflight.Some? ==> forall d <- log.starts :: log.starts[d].source == log.preflight.value {
      forall p <- events, s <- events | p.Preflight? && s.Start? ensures p.source == Some(s.plan.source) {
        StartsKnown(child, n, events, log, s.number);
        assert p == Preflight(p.source) && s == Start(s.number, s.plan);
      }
    }
  }

  ghost predicate AllAt(log: Log, base: Path) { forall d <- log.contexts :: log.contexts[d] == base }

  lemma OneBaseReading(child: Corroboration, n: nat, events: seq<Event>, log: Log, base: Path)
    requires ReadAll(child, n, events) == Some(log)
    ensures AllGive(child, events, base) <==> AllAt(log, base)
  {
    hide ReadAll, Started, BaseOf;
    forall d
      ensures forall plan :: Start(d, plan) in events <==> d in log.starts && log.starts[d] == plan
      ensures d in log.contexts ==> HasContext(events, d) && d in log.starts
      ensures forall e <- events | IsContext(e) && e.number == d ::
                d in log.starts && d in log.contexts && BaseOf(child, log.starts[d], e) == Some(log.contexts[d])
    {
      StartsKnown(child, n, events, log, d);
      ContextsKnown(child, n, events, log, d);
    }
    if AllGive(child, events, base) {
      forall d <- log.contexts ensures log.contexts[d] == base {
        var e :| e in events && IsContext(e) && e.number == d;
        assert Start(d, log.starts[d]) in events;
      }
    }
    if AllAt(log, base) {
      forall e <- events, s <- events | IsContext(e) && s.Start? && s.number == e.number
        ensures BaseOf(child, s.plan, e) == Some(base)
      {
        StartsKnown(child, n, events, log, s.number);
        ContextsKnown(child, n, events, log, e.number);
        assert s == Start(e.number, s.plan);
      }
    }
  }

  /** An accepted journal is whole exactly when its records tell of every dispatch. */
  lemma WholeReading(child: Corroboration, n: nat, events: seq<Event>, log: Log)
    requires ReadAll(child, n, events) == Some(log)
    ensures IsWhole(n, log) <==> TellsAll(child, n, events)
  {
    hide ReadAll, Succeeded, HasPreflight, OneSource, AllGive;
    Numbers(child, n, events, log);
    OneSourceReading(child, n, events, log);
    SourcesKnown(child, n, events, log);
    forall base ensures AllGive(child, events, base) <==> AllAt(log, base) {
      OneBaseReading(child, n, events, log, base);
    }
    if IsWhole(n, log) {
      WholeKeys(child, n, events, log);
      assert 1 in log.contexts && AllAt(log, log.contexts[1]);
    }
    if n >= 1 && |log.contexts| == n { assert log.contexts != map[]; }
  }

  // ------------------------------------------------------------------------- the evidence

  ghost predicate GivesBase(child: Corroboration, events: seq<Event>, r: Receipt) {
    exists e <- events :: IsContext(e) && e.number == r.number && BaseOf(child, r.plan, e) == r.base
  }

  /** Each part of a receipt is in a record of the journal. */
  ghost predicate Witnessed(child: Corroboration, events: seq<Event>, r: Receipt) {
    && Start(r.number, r.plan) in events && Success(r.number, r.path, r.digest) in events
    && r.base.Some? && GivesBase(child, events, r)
  }

  /** A recorded receipt says the same; older ones leave the schema base out. */
  predicate SaysTheSame(e: Embedded, r: Receipt) {
    && e.number == r.number && e.plan == r.plan && e.path == r.path && e.digest == r.digest
    && (e.base == None || e.base == Some(r.base))
  }

  ghost predicate ListsRows(manifest: seq<Row>, receipts: seq<Receipt>) {
    && |manifest| == |receipts|
    && forall i | 0 <= i < |receipts| :: manifest[i] == Row(receipts[i].number, receipts[i].path, receipts[i].digest)
  }

  ghost predicate ListsPaths(order: seq<Path>, receipts: seq<Receipt>) {
    |order| == |receipts| && forall i | 0 <= i < |receipts| :: order[i] == receipts[i].path
  }

  ghost predicate ListsReceipts(embedded: seq<Embedded>, receipts: seq<Receipt>) {
    |embedded| == |receipts| && forall i | 0 <= i < |receipts| :: SaysTheSame(embedded[i], receipts[i])
  }

  /** The evidence, the batch it is of and the batch's receipts. */
  ghost predicate Agrees(child: Corroboration, n: nat, evidence: Evidence, batch: Batch, receipts: seq<Receipt>) {
    var (events, manifest, recorded) := (evidence.events, evidence.manifest, evidence.recorded);
    && 1 <= |events| <= 256 && |recorded.groups| == 8
    && AllFit(child, n, events) && TellsAll(child, n, events)
    && |receipts| == n
    && (forall i | 0 <= i < n :: receipts[i].number == i + 1 && Witnessed(child, events, receipts[i]))
    && ListsRows(manifest, receipts) && ListsPaths(recorded.order, receipts)
    && batch.groups == recorded.groups && batch.order == recorded.order
    && match recorded.receipts
       case None => batch.receipts == []
       case Some(embedded) => batch.receipts == receipts && ListsReceipts(embedded, receipts)
  }

  /** The receipts of a whole journal are the only ones its records witness. */
  lemma WitnessedReceipts(child: Corroboration, n: nat, events: seq<Event>, log: Log, receipts: seq<Receipt>)
    requires ReadAll(child, n, events) == Some(log) && IsWhole(n, log) && |receipts| == n
    ensures receipts == ReceiptsOf(log, n) <==>
            forall i | 0 <= i < n :: receipts[i].number == i + 1 && Witnessed(child, events, receipts[i])
  {
    hide ReadAll, IsWhole, Witnessed;
    WholeKeys(child, n, events, log);
    forall i | 0 <= i < n
      ensures receipts[i].number == i + 1 && Witnessed(child, events, receipts[i])
          <==> receipts[i] == ReceiptsOf(log, n)[i]
    {
      assert i + 1 in log.starts && i + 1 in log.successes && i + 1 in log.contexts;
      OneWitnessed(child, n, events, log, receipts[i], i + 1);
    }
    if forall i | 0 <= i < n :: receipts[i].number == i + 1 && Witnessed(child, events, receipts[i]) {
      assert forall i | 0 <= i < n :: receipts[i] == ReceiptsOf(log, n)[i];
    }
  }

  lemma OneWitnessed(child: Corroboration, n: nat, events: seq<Event>, log: Log, r: Receipt, d: int)
    requires ReadAll(child, n, events) == Some(log)
    requires d in log.starts && d in log.successes && d in log.contexts
    ensures r.number == d && Witnessed(child, events, r) <==> r == ReceiptOf(log, d)
  {
    hide ReadAll, BaseOf, Started, Succeeded;
    StartsKnown(child, n, events, log, d);
    SuccessesKnown(child, n, events, log, d);
    ContextsKnown(child, n, events, log, d);
    var e :| e in events && IsContext(e) && e.number == d;
    assert BaseOf(child, log.starts[d], e) == Some(log.contexts[d]);
  }

  lemma RecordsOfReceipts(evidence: Evidence, receipts: seq<Receipt>)
    ensures evidence.manifest == RowsOf(receipts) <==> ListsRows(evidence.manifest, receipts)
    ensures evidence.recorded.order == PathsOf(receipts) <==> ListsPaths(evidence.recorded.order, receipts)
  {
  }

  lemma RestoredReceipts(embedded: seq<Embedded>, receipts: seq<Receipt>)
    requires |embedded| == |receipts|
    ensures AllRestored(embedded, receipts) == receipts <==> ListsReceipts(embedded, receipts)
  {
  }

  /** Evidence is replayed as these receipts exactly when all its records agree on them. */
  lemma ReplayReading(child: Corroboration, n: nat, evidence: Evidence, batch: Batch, receipts: seq<Receipt>)
    ensures Replayed(child, n, evidence) == Some((batch, receipts)) <==> Agrees(child, n, evidence, batch, receipts)
  {
    hide ReadAll, IsWhole, AllFit, TellsAll, Witnessed;
    AcceptedWhenAllFit(child, n, evidence.events);
    if ReadAll(child, n, evidence.events).Some? {
      var log := ReadAll(child, n, evidence.events).value;
      WholeReading(child, n, evidence.events, log);
      if IsWhole(n, log) && |receipts| == n {
        WitnessedReceipts(child, n, evidence.events, log, receipts);
        RecordsOfReceipts(evidence, receipts);
        var embedded := evidence.recorded.receipts;
        if embedded.Some? && |embedded.value| == n { RestoredReceipts(embedded.value, receipts); }
      }
    }
  }
}
