/** Removing the schema's "Did you mean ...?" sentence from the end of an error message, in one scan. */
module Suggestions {
  import opened Options

  const START := "Did you mean "

  /** What a rule's fixed text at some position matches: where it ends, and whether free text may follow it. */
  datatype Prefix = Prefix(end: nat, openEnded: bool)

  /** The patterns, left open: white space, the rules' texts, and the coercion wrapper's head. */
  datatype Patterns = Patterns(isSpace: char -> bool, rule: (string, nat) -> Option<Prefix>,
      wrapper: string -> Option<nat>)

  // ------------------------------------------------------------------- what is removed

  /** The end of the final line. */
  function End(m: string): (end: nat)
    ensures end <= |m|
  {
    if m != "" && m[|m| - 1] == '\n' then |m| - 1 else |m|
  }

  predicate AsksAtEnd(m: string) { End(m) >= 2 && m[End(m) - 1] == '?' }

  predicate OccursAt(m: string, sub: string, j: nat) { j + |sub| <= |m| && m[j..j + |sub|] == sub }

  /** A suggestion runs from here to the question mark, all on the final line. */
  predicate SuggestionAt(m: string, j: nat) {
    && j + |START| <= End(m) - 1 && OccursAt(m, START, j)
    && forall i :: j <= i < End(m) - 1 ==> m[i] != '\n'
  }

  predicate AllSpace(ps: Patterns, s: string) { forall c <- s :: ps.isSpace(c) }

  /** White space at `c`, after a rule's text and whatever may follow it on its line, leads up to a suggestion. */
  predicate LeadsTo(ps: Patterns, m: string, p: Prefix, c: nat, j: nat) {
    && p.end <= c < j <= |m|
    && SuggestionAt(m, j) && AllSpace(ps, m[c..j])
    && (if p.openEnded then '\n' !in m[p.end..c] else c == p.end)
  }

  ghost predicate Decomposes(ps: Patterns, m: string, p: Prefix, c: nat) {
    exists j :: LeadsTo(ps, m, p, c, j)
  }

  /** The first position a rule's text at `at` lets the message be cut, if there is one. */
  ghost predicate RuleCuts(ps: Patterns, m: string, at: nat, cut: Option<nat>) {
    match ps.rule(m, at)
    case None => cut == None
    case Some(p) => PrefixCuts(ps, m, p, cut)
  }

  ghost predicate PrefixCuts(ps: Patterns, m: string, p: Prefix, cut: Option<nat>) {
    match cut
    case None => forall c :: !Decomposes(ps, m, p, c)
    case Some(first) => Decomposes(ps, m, p, first) && forall c: nat | c < first :: !Decomposes(ps, m, p, c)
  }

  /** The wrapper's text may end here: "; " with no line break since its head. */
  predicate SeparatorAt(ps: Patterns, m: string, k: nat) {
    ps.wrapper(m).Some? && ps.wrapper(m).value <= k <= |m| - 2 && m[k] == ';' && m[k + 1] == ' '
    && '\n' !in m[ps.wrapper(m).value..k]
  }

  ghost predicate WrappedCut(ps: Patterns, m: string, k: nat, c: nat) {
    SeparatorAt(ps, m, k) && RuleCuts(ps, m, k + 2, Some(c))
  }

  ghost predicate NoWrappedCutBefore(ps: Patterns, m: string, limit: nat) {
    forall k: nat, c: nat | k < limit :: !WrappedCut(ps, m, k, c)
  }

  ghost predicate SomeWrappedCut(ps: Patterns, m: string) { exists k: nat, c: nat :: WrappedCut(ps, m, k, c) }

  ghost predicate FirstWrappedCut(ps: Patterns, m: string, k: nat, c: nat) {
    WrappedCut(ps, m, k, c) && NoWrappedCutBefore(ps, m, k)
  }

  /** Where a message is cut: behind the first separator of its wrapper with a rule that leads to a
      suggestion, else behind a rule at its start. */
  ghost predicate CutsAt(ps: Patterns, m: string, cut: Option<nat>) {
    if !AsksAtEnd(m) then cut == None
    else if SomeWrappedCut(ps, m) then
      cut.Some? && exists k: nat :: FirstWrappedCut(ps, m, k, cut.value)
    else RuleCuts(ps, m, 0, cut)
  }

  function Without(m: string, cut: Option<nat>): string
    requires cut.Some? ==> cut.value <= |m|
  {
    if cut.None? then m else m[..cut.value] + m[End(m)..]
  }

  // --------------------------------------------------------------------------- searching

  /** The first occurrence of a text that begins at or after `from` and ends by `stop`. */
  function Find(m: string, sub: string, from: nat, stop: nat): (found: Option<nat>)
    requires stop <= |m|
    ensures found.Some? ==> from <= found.value && found.value + |sub| <= stop && OccursAt(m, sub, found.value)
    ensures forall j: nat {:trigger OccursAt(m, sub, j)} ::
      from <= j && j + |sub| <= stop && (found.None? || j < found.value) ==> !OccursAt(m, sub, j)
    decreases stop - from
  {
    if from + |sub| > stop then None
    else if OccursAt(m, sub, from) then Some(from)
    else Find(m, sub, from + 1, stop)
  }

  /** A suggestion that follows white space, and where that white space begins. */
  datatype Run = Run(space: nat, start: nat)

  predicate IsRun(ps: Patterns, m: string, r: Run) {
    && r.space < r.start <= |m| && SuggestionAt(m, r.start)
    && AllSpace(ps, m[r.space..r.start]) && (r.space == 0 || !ps.isSpace(m[r.space - 1]))
  }

  predicate Follows(ps: Patterns, m: string, j: nat) { 0 < j <= |m| && ps.isSpace(m[j - 1]) && SuggestionAt(m, j) }

  /** The suggestions after white space that start before a limit, in order. */
  ghost predicate RunsBefore(ps: Patterns, m: string, runs: seq<Run>, limit: nat) {
    && (forall r <- runs :: IsRun(ps, m, r) && r.start < limit)
    && (forall i, j :: 0 <= i < j < |runs| ==> runs[i].start < runs[j].start)
    && (forall j: nat | j < limit && Follows(ps, m, j) :: exists r <- runs :: r.start == j)
  }

  method SpaceBefore(ps: Patterns, m: string, j: nat) returns (space: nat)
    requires 0 < j <= |m| && ps.isSpace(m[j - 1])
    ensures space < j && AllSpace(ps, m[space..j]) && (space == 0 || !ps.isSpace(m[space - 1]))
  {
    space := j - 1;
    while space > 0 && ps.isSpace(m[space - 1])
      invariant space < j && AllSpace(ps, m[space..j])
    {
      assert m[space - 1..j] == [m[space - 1]] + m[space..j];
      space := space - 1;
    }
  }

  method LineStart(m: string) returns (start: nat)
    requires AsksAtEnd(m)
    ensures start < End(m) && '\n' !in m[start..End(m) - 1]
    ensures forall j: nat | j + |START| <= End(m) - 1 && OccursAt(m, START, j) :: SuggestionAt(m, j) <==> start <= j
  {
    start := End(m) - 1;
    while start > 0 && m[start - 1] != '\n'
      invariant start < End(m) && forall i :: start <= i < End(m) - 1 ==> m[i] != '\n'
    {
      start := start - 1;
    }
  }

  /** Collects the suggestions the strip may begin before. */
  method Runs(ps: Patterns, m: string) returns (runs: seq<Run>)
    requires AsksAtEnd(m)
    ensures RunsBefore(ps, m, runs, |m| + 1)
  {
    hide IsRun, SuggestionAt, OccursAt, START;
    runs := [];
    var pos := LineStart(m);
    NoneBefore(ps, m, pos);
    var j := Find(m, START, pos, End(m) - 1);
    while j.Some?
      invariant pos <= |m| && j == Find(m, START, pos, End(m) - 1)
      invariant LineFrom(m, pos)
      invariant RunsBefore(ps, m, runs, pos)
      decreases |m| - pos
    {
      var at := j.value;
      NextFound(ps, m, runs, pos, at);
      if at > 0 && ps.isSpace(m[at - 1]) {
        var space := SpaceBefore(ps, m, at);
        assert IsRun(ps, m, Run(space, at)) by { RunMade(ps, m, space, at); }
        RunAdded(ps, m, runs, Run(space, at));
        runs := runs + [Run(space, at)];
      } else {
        RunPassed(ps, m, runs, at);
      }
      pos := at + 1;
      j := Find(m, START, pos, End(m) - 1);
    }
    NoneAfter(ps, m, runs, pos);
  }

  /** From here on the final line goes to the end. */
  predicate LineFrom(m: string, pos: nat) {
    forall j: nat | pos <= j && j + |START| <= End(m) - 1 && OccursAt(m, START, j) :: SuggestionAt(m, j)
  }

  lemma NoneBefore(ps: Patterns, m: string, pos: nat)
    requires forall j: nat | j + |START| <= End(m) - 1 && OccursAt(m, START, j) :: SuggestionAt(m, j) <==> pos <= j
    ensures RunsBefore(ps, m, [], pos) && LineFrom(m, pos)
  {
  }

  lemma NextFound(ps: Patterns, m: string, runs: seq<Run>, pos: nat, at: nat)
    requires AsksAtEnd(m) && Find(m, START, pos, End(m) - 1) == Some(at)
    requires LineFrom(m, pos) && RunsBefore(ps, m, runs, pos)
    ensures SuggestionAt(m, at) && at < |m| && LineFrom(m, at + 1) && RunsBefore(ps, m, runs, at)
  {
  }

  lemma RunMade(ps: Patterns, m: string, space: nat, at: nat)
    requires space < at <= |m| && SuggestionAt(m, at) && AllSpace(ps, m[space..at])
        && (space == 0 || !ps.isSpace(m[space - 1]))
    ensures IsRun(ps, m, Run(space, at))
  {
  }

  lemma RunAdded(ps: Patterns, m: string, runs: seq<Run>, r: Run)
    requires RunsBefore(ps, m, runs, r.start) && IsRun(ps, m, r)
    ensures RunsBefore(ps, m, runs + [r], r.start + 1)
  {
    hide IsRun, SuggestionAt;
    forall j: nat | j < r.start + 1 && Follows(ps, m, j)
      ensures exists x <- runs + [r] :: x.start == j
    {
      if j == r.start {
        assert r in runs + [r];
      } else {
        var x :| x in runs && x.start == j;
        assert x in runs + [r];
      }
    }
  }

  lemma RunPassed(ps: Patterns, m: string, runs: seq<Run>, at: nat)
    requires RunsBefore(ps, m, runs, at) && !Follows(ps, m, at)
    ensures RunsBefore(ps, m, runs, at + 1)
  {
    hide IsRun, Follows;
  }

  lemma NoneAfter(ps: Patterns, m: string, runs: seq<Run>, pos: nat)
    requires AsksAtEnd(m) && pos <= |m| && RunsBefore(ps, m, runs, pos) && Find(m, START, pos, End(m) - 1) == None
    ensures RunsBefore(ps, m, runs, |m| + 1)
  {
    hide IsRun;
  }

  // ------------------------------------------------------------------------- cutting

  /** The first run that starts at or after a position. */
  function BisectLeft(runs: seq<Run>, at: nat): (k: nat)
    ensures k <= |runs|
    ensures forall i :: 0 <= i < k ==> runs[i].start < at
    ensures k < |runs| ==> runs[k].start >= at
  {
    if runs == [] || runs[0].start >= at then 0 else 1 + BisectLeft(runs[1..], at)
  }

  /** The run the strip would begin in: the first that starts behind the prefix. */
  ghost predicate FirstBehind(ps: Patterns, m: string, p: Prefix, r: Run) {
    && IsRun(ps, m, r) && r.start > p.end
    && forall j: nat | p.end < j && Follows(ps, m, j) :: r.start <= j
  }

  function Later(a: nat, b: nat): nat { if a < b then b else a }

  predicate Reaches(m: string, p: Prefix, at: nat) {
    p.end <= at <= |m| && if p.openEnded then '\n' !in m[p.end..at] else at == p.end
  }

  lemma NoCutBefore(ps: Patterns, m: string, p: Prefix, r: Run, c: nat, j: nat)
    requires FirstBehind(ps, m, p, r) && LeadsTo(ps, m, p, c, j) && !ps.isSpace('D')
    ensures Later(r.space, p.end) <= c && Reaches(m, p, Later(r.space, p.end))
  {
    assert m[j - 1] in m[c..j] by { assert m[c..j][j - 1 - c] == m[j - 1]; }
    assert Follows(ps, m, j);
    if c < r.space {
      if j == r.start {
        SpaceBeginsThere(ps, m, r, c);
      } else {
        StartIsNoSpace(ps, m, c, j, r.start);
      }
    }
    assert forall i :: p.end <= i < Later(r.space, p.end) ==> m[p.end..c][i - p.end] == m[i];
  }

  lemma SpaceBeginsThere(ps: Patterns, m: string, r: Run, c: nat)
    requires IsRun(ps, m, r) && c < r.space
    ensures !AllSpace(ps, m[c..r.start])
  {
    assert m[c..r.start][r.space - 1 - c] == m[r.space - 1];
  }

  lemma StartIsNoSpace(ps: Patterns, m: string, c: nat, j: nat, start: nat)
    requires c <= start < j <= |m| && SuggestionAt(m, start) && !ps.isSpace('D')
    ensures !AllSpace(ps, m[c..j])
  {
    assert m[start] == m[start..start + |START|][0] == 'D';
    assert m[c..j][start - c] == 'D';
  }

  lemma CutThere(ps: Patterns, m: string, p: Prefix, r: Run)
    requires FirstBehind(ps, m, p, r) && Reaches(m, p, Later(r.space, p.end))
    ensures Decomposes(ps, m, p, Later(r.space, p.end))
  {
    var at := Later(r.space, p.end);
    forall c | c in m[at..r.start] ensures ps.isSpace(c) {
      assert c in m[r.space..r.start] by {
        var i :| 0 <= i < |m[at..r.start]| && m[at..r.start][i] == c;
        assert m[r.space..r.start][at - r.space + i] == c;
      }
    }
    assert LeadsTo(ps, m, p, at, r.start);
  }

  /** A prefix cuts at the first run behind it, or nowhere. */
  lemma FirstRunDecides(ps: Patterns, m: string, p: Prefix, r: Run)
    requires FirstBehind(ps, m, p, r) && !ps.isSpace('D')
    ensures var at := Later(r.space, p.end);
            PrefixCuts(ps, m, p, if Reaches(m, p, at) then Some(at) else None)
  {
    hide FirstBehind, LeadsTo, Reaches;
    var at := Later(r.space, p.end);
    forall c: nat | Decomposes(ps, m, p, c) ensures at <= c && Reaches(m, p, at) {
      var j :| LeadsTo(ps, m, p, c, j);
      NoCutBefore(ps, m, p, r, c, j);
    }
    if Reaches(m, p, at) { CutThere(ps, m, p, r); }
  }

  predicate SomeRunBehind(runs: seq<Run>, end: nat) { exists r <- runs :: r.start > end }

  lemma CutsNeedRuns(ps: Patterns, m: string, p: Prefix, runs: seq<Run>)
    requires RunsBefore(ps, m, runs, |m| + 1)
    ensures forall c: nat :: Decomposes(ps, m, p, c) ==> SomeRunBehind(runs, p.end)
  {
    hide SuggestionAt, LeadsTo;
    forall c: nat, j: nat | LeadsTo(ps, m, p, c, j) ensures SomeRunBehind(runs, p.end) {
      LeadsToFollows(ps, m, p, c, j);
      assert exists r <- runs :: r.start == j;
    }
  }

  lemma LeadsToFollows(ps: Patterns, m: string, p: Prefix, c: nat, j: nat)
    requires LeadsTo(ps, m, p, c, j)
    ensures p.end < j <= |m| && Follows(ps, m, j)
  {
    assert m[c..j][j - 1 - c] == m[j - 1];
  }

  lemma RunBehind(ps: Patterns, m: string, p: Prefix, runs: seq<Run>, k: nat)
    requires RunsBefore(ps, m, runs, |m| + 1) && k < |runs| && runs[k].start > p.end
    requires forall i :: 0 <= i < k ==> runs[i].start <= p.end
    ensures FirstBehind(ps, m, p, runs[k])
  {
    hide IsRun, Follows;
    assert runs[k] in runs;
    forall j: nat | p.end < j && Follows(ps, m, j) ensures runs[k].start <= j {
      assert j <= |m| by { FollowsInside(ps, m, j); }
      var r :| r in runs && r.start == j;
      var i :| 0 <= i < |runs| && runs[i] == r;
    }
  }

  lemma FollowsInside(ps: Patterns, m: string, j: nat)
    requires Follows(ps, m, j)
    ensures 0 < j <= |m|
  {
  }

  lemma NoCut(ps: Patterns, m: string, p: Prefix)
    ensures (forall c: nat :: !Decomposes(ps, m, p, c)) ==> PrefixCuts(ps, m, p, None)
  {
  }

  /** Where the strip starts for a rule's text ending here, if anywhere. */
  method Cut(ps: Patterns, m: string, runs: seq<Run>, p: Prefix) returns (cut: Option<nat>)
    requires RunsBefore(ps, m, runs, |m| + 1) && !ps.isSpace('D')
    ensures PrefixCuts(ps, m, p, cut)
    ensures cut.Some? ==> cut.value <= End(m)
  {
    hide RunsBefore, PrefixCuts, FirstBehind, IsRun, SuggestionAt;
    var k := BisectLeft(runs, p.end + 1);
    if k == |runs| {
      CutsNeedRuns(ps, m, p, runs);
      assert !SomeRunBehind(runs, p.end);
      assert PrefixCuts(ps, m, p, None) by { NoCut(ps, m, p); }
      return None;
    }
    RunBehind(ps, m, p, runs, k);
    FirstRunDecides(ps, m, p, runs[k]);
    RunInside(ps, m, p, runs[k]);
    var at := if runs[k].space < p.end then p.end else runs[k].space;
    if p.openEnded {
      var newline := Find(m, "\n", p.end, |m|);
      NewlineTells(m, p, at, newline);
      return if newline.None? || at <= newline.value then Some(at) else None;
    }
    return if at == p.end then Some(at) else None;
  }

  lemma RunInside(ps: Patterns, m: string, p: Prefix, r: Run)
    requires FirstBehind(ps, m, p, r)
    ensures p.end < r.start && r.space < r.start <= End(m) <= |m|
  {
  }

  lemma NewlineTells(m: string, p: Prefix, at: nat, newline: Option<nat>)
    requires p.openEnded && p.end <= at <= |m| && newline == Find(m, "\n", p.end, |m|)
    ensures Reaches(m, p, at) <==> newline.None? || at <= newline.value
  {
    hide Find, OccursAt;
    forall i: nat ensures OccursAt(m, "\n", i) <==> i < |m| && m[i] == '\n' { LineBreakAt(m, i); }
    if newline.Some? && newline.value < at {
      assert m[p.end..at][newline.value - p.end] == '\n';
    } else {
      forall i: nat | p.end <= i < at ensures m[i] != '\n' { assert !OccursAt(m, "\n", i); }
    }
  }

  lemma LineBreakAt(m: string, i: nat)
    ensures OccursAt(m, "\n", i) <==> i < |m| && m[i] == '\n'
  {
    if i < |m| { assert m[i..i + 1] == [m[i]]; }
  }

  /** Tries the rules at one position. */
  method TryRule(ps: Patterns, m: string, runs: seq<Run>, at: nat) returns (cut: Option<nat>)
    requires RunsBefore(ps, m, runs, |m| + 1) && !ps.isSpace('D')
    ensures RuleCuts(ps, m, at, cut)
    ensures cut.Some? ==> cut.value <= End(m)
  {
    hide PrefixCuts;
    match ps.rule(m, at) {
      case None => cut := None;
      case Some(p) => cut := Cut(ps, m, runs, p);
    }
  }

  // -------------------------------------------------------------------- the whole message

  /** Tries the rules behind each separator of the wrapper's text in turn. */
  method TryWrapper(ps: Patterns, m: string, runs: seq<Run>, head: nat) returns (cut: Option<nat>)
    requires RunsBefore(ps, m, runs, |m| + 1) && !ps.isSpace('D') && ps.wrapper(m) == Some(head)
    ensures cut.Some? ==> cut.value <= End(m) && exists k: nat :: FirstWrappedCut(ps, m, k, cut.value)
    ensures cut.None? ==> !SomeWrappedCut(ps, m)
  {
    hide RunsBefore, RuleCuts, Find, OccursAt;
    cut := None;
    var newline := Find(m, "\n", head, |m|);
    var pos := head;
    var k := Find(m, "; ", pos, |m|);
    EarlierThanHead(ps, m, head);
    while k.Some?
      invariant k == Find(m, "; ", pos, |m|) && pos >= head && cut == None
      invariant NoWrappedCutBefore(ps, m, pos)
      decreases |m| + 1 - pos
    {
      var at := k.value;
      NextSeparator(ps, m, head, pos, at, newline);
      if newline.Some? && newline.value < at + 1 { return; }
      cut := TryRule(ps, m, runs, at + 2);
      if cut.Some? {
        assert FirstWrappedCut(ps, m, at, cut.value);
        return;
      }
      NoCutHere(ps, m, at);
      pos := at + 1;
      k := Find(m, "; ", pos, |m|);
    }
    NoSeparatorLeft(ps, m, head, pos);
  }

  lemma EarlierThanHead(ps: Patterns, m: string, head: nat)
    requires ps.wrapper(m) == Some(head)
    ensures NoWrappedCutBefore(ps, m, head)
  {
    hide RuleCuts;
  }

  lemma SeparatorOccurs(ps: Patterns, m: string, k: nat)
    requires SeparatorAt(ps, m, k)
    ensures OccursAt(m, "; ", k)
  {
  }

  lemma NextSeparator(ps: Patterns, m: string, head: nat, pos: nat, at: nat, newline: Option<nat>)
    requires ps.wrapper(m) == Some(head) && head <= pos && NoWrappedCutBefore(ps, m, pos)
    requires Find(m, "; ", pos, |m|) == Some(at) && newline == Find(m, "\n", head, |m|)
    ensures NoWrappedCutBefore(ps, m, at) && pos <= at < |m|
    ensures if newline.Some? && newline.value < at + 1 then !SomeWrappedCut(ps, m) else SeparatorAt(ps, m, at)
  {
    hide Find, RuleCuts;
    forall k: nat, c | k < at ensures !WrappedCut(ps, m, k, c) {
      if SeparatorAt(ps, m, k) { SeparatorOccurs(ps, m, k); }
    }
    assert m[at..at + 2] == "; ";
    assert m[at] == m[at..at + 2][0] && m[at + 1] == m[at..at + 2][1];
    forall i: nat ensures OccursAt(m, "\n", i) <==> i < |m| && m[i] == '\n' { LineBreakAt(m, i); }
    if newline.Some? && newline.value < at + 1 {
      forall k: nat, c ensures !WrappedCut(ps, m, k, c) {
        if k >= at && k <= |m| { LineBrokenBefore(m, head, newline.value, k); }
      }
    } else {
      assert forall i: nat | head <= i < at :: !OccursAt(m, "\n", i);
      assert forall i: nat | head <= i < at :: m[i] != '\n';
    }
  }

  lemma LineBrokenBefore(m: string, head: nat, newline: nat, k: nat)
    requires head <= newline < k <= |m| && m[newline] == '\n'
    ensures '\n' in m[head..k]
  {
    assert m[head..k][newline - head] == '\n';
  }

  lemma NoCutHere(ps: Patterns, m: string, at: nat)
    requires RuleCuts(ps, m, at + 2, None) && NoWrappedCutBefore(ps, m, at)
    ensures NoWrappedCutBefore(ps, m, at + 1)
  {
    hide SeparatorAt, Decomposes;
    forall c ensures !WrappedCut(ps, m, at, c) { CutIsUnique(ps, m, at + 2, None, Some(c)); }
  }

  /** A rule's text at some position cuts in one place at most. */
  lemma CutIsUnique(ps: Patterns, m: string, at: nat, a: Option<nat>, b: Option<nat>)
    ensures RuleCuts(ps, m, at, a) && RuleCuts(ps, m, at, b) ==> a == b
  {
    hide Decomposes;
  }

  lemma NoSeparatorLeft(ps: Patterns, m: string, head: nat, pos: nat)
    requires NoWrappedCutBefore(ps, m, pos) && Find(m, "; ", pos, |m|) == None
    ensures !SomeWrappedCut(ps, m)
  {
    hide Find, RuleCuts;
    forall k: nat, c ensures !WrappedCut(ps, m, k, c) {
      if SeparatorAt(ps, m, k) { SeparatorOccurs(ps, m, k); }
    }
  }

  lemma NothingToCut(ps: Patterns, m: string)
    requires RunsBefore(ps, m, [], |m| + 1) && AsksAtEnd(m)
    ensures CutsAt(ps, m, None)
  {
    hide RunsBefore, RuleCuts, SeparatorAt;
    RuleCutsNothing(ps, m, 0);
    forall k: nat, c: nat ensures !WrappedCut(ps, m, k, c) {
      RuleCutsNothing(ps, m, k + 2);
      CutIsUnique(ps, m, k + 2, None, Some(c));
    }
  }

  lemma RuleCutsNothing(ps: Patterns, m: string, at: nat)
    requires RunsBefore(ps, m, [], |m| + 1)
    ensures RuleCuts(ps, m, at, None)
  {
    hide RunsBefore, Decomposes;
    if ps.rule(m, at).Some? { CutsNeedRuns(ps, m, ps.rule(m, at).value, []); }
  }

  /** Where the message is cut, by one scan for the suggestions and one along the wrapper's text. */
  method FindCut(ps: Patterns, m: string) returns (cut: Option<nat>)
    requires !ps.isSpace('D')
    ensures CutsAt(ps, m, cut)
    ensures cut.Some? ==> cut.value <= End(m) && AsksAtEnd(m)
  {
    hide RunsBefore, RuleCuts, SeparatorAt;
    if !AsksAtEnd(m) { return None; }
    var runs := Runs(ps, m);
    if runs == [] {
      NothingToCut(ps, m);
      return None;
    }
    if ps.wrapper(m).Some? {
      cut := TryWrapper(ps, m, runs, ps.wrapper(m).value);
      if cut.Some? { return; }
    } else {
      assert !SomeWrappedCut(ps, m) by { NoWrapper(ps, m); }
    }
    cut := TryRule(ps, m, runs, 0);
  }

  lemma NoWrapper(ps: Patterns, m: string)
    requires ps.wrapper(m).None?
    ensures !SomeWrappedCut(ps, m)
  {
  }

  /** The message without its suggestion. */
  method StripSuggestion(ps: Patterns, m: string) returns (stripped: string)
    requires !ps.isSpace('D')
    ensures exists cut: Option<nat> ::
              CutsAt(ps, m, cut) && (cut.Some? ==> cut.value <= |m|) && stripped == Without(m, cut)
  {
    hide CutsAt;
    var cut := FindCut(ps, m);
    stripped := if cut.Some? then m[..cut.value] + m[End(m)..] else m;
  }

  /** A message is cut in one way at most: behind the first separator that works, at the first position. */
  lemma CutsOnce(ps: Patterns, m: string, a: Option<nat>, b: Option<nat>)
    requires CutsAt(ps, m, a) && CutsAt(ps, m, b)
    ensures a == b
  {
    hide RuleCuts, SeparatorAt;
    if AsksAtEnd(m) {
      if SomeWrappedCut(ps, m) {
        var i: nat :| FirstWrappedCut(ps, m, i, a.value);
        var j: nat :| FirstWrappedCut(ps, m, j, b.value);
        assert i == j;
        CutIsUnique(ps, m, i + 2, a, b);
      } else {
        CutIsUnique(ps, m, 0, a, b);
      }
    }
  }

  ghost predicate RuleLeads(ps: Patterns, m: string, at: nat, c: nat) {
    ps.rule(m, at).Some? && Decomposes(ps, m, ps.rule(m, at).value, c)
  }

  /** A message asking at its end is cut exactly when some rule's text, at its start or behind a separator
      of its wrapper, leads up to a suggestion. */
  lemma CutWhenSuggested(ps: Patterns, m: string, cut: Option<nat>)
    requires CutsAt(ps, m, cut) && AsksAtEnd(m)
    ensures cut.Some? <==>
      exists at: nat, c: nat :: (at == 0 || (at >= 2 && SeparatorAt(ps, m, at - 2))) && RuleLeads(ps, m, at, c)
  {
    hide Decomposes, SeparatorAt;
    if SomeWrappedCut(ps, m) {
      var k: nat :| FirstWrappedCut(ps, m, k, cut.value);
      assert (k + 2) - 2 == k && RuleLeads(ps, m, k + 2, cut.value);
    } else {
      forall at: nat, c: nat | at >= 2 && SeparatorAt(ps, m, at - 2) ensures !RuleLeads(ps, m, at, c) {
        FirstCut(ps, m, at, c);
        var k: nat := at - 2;
        assert k + 2 == at;
        assert forall first: nat :: RuleCuts(ps, m, at, Some(first)) ==> WrappedCut(ps, m, k, first);
      }
      forall c: nat | RuleLeads(ps, m, 0, c) ensures cut.Some? { FirstCut(ps, m, 0, c); }
      if cut.Some? { assert RuleLeads(ps, m, 0, cut.value); }
    }
  }

  lemma {:induction false} FirstCut(ps: Patterns, m: string, at: nat, c: nat)
    ensures RuleLeads(ps, m, at, c) ==> exists first: nat :: RuleCuts(ps, m, at, Some(first))
    decreases c
  {
    hide Decomposes;
    if RuleLeads(ps, m, at, c) {
      if earlier: nat :| earlier < c && RuleLeads(ps, m, at, earlier) {
        FirstCut(ps, m, at, earlier);
      } else {
        forall x: nat | x < c ensures !Decomposes(ps, m, ps.rule(m, at).value, x) { assert !RuleLeads(ps, m, at, x); }
        assert RuleCuts(ps, m, at, Some(c));
      }
    }
  }

  // ---------------------------------------------------------------- what the cut leaves

  /** The sentence a suggestion is asked with, and the line break that may end the message. */
  predicate IsSuggestion(asked: string, ending: string) { '\n' !in asked && ending in {"", "\n"} }

  function Asking(before: string, space: string, asked: string, ending: string): string {
    before + space + ("Did you mean " + asked + "?") + ending
  }

  lemma AskedThere(before: string, space: string, asked: string, ending: string)
    requires IsSuggestion(asked, ending)
    ensures var m := Asking(before, space, asked, ending);
            && AsksAtEnd(m) && m[End(m)..] == ending && SuggestionAt(m, |before| + |space|)
            && m[..|before|] == before && m[|before|..|before| + |space|] == space
  {
    var m := Asking(before, space, asked, ending);
    var j := |before| + |space|;
    assert End(m) == |m| - |ending| && m[End(m) - 1] == '?';
    assert m[j..j + |START|] == START;
    forall i | j <= i < End(m) - 1 ensures m[i] != '\n' {
      if i >= j + |START| { assert m[i] == asked[i - j - |START|]; } else { assert m[i] == START[i - j]; }
    }
  }

  /** A rule's text that white space separates from the suggestion is where the message is cut. */
  lemma CutBehindTheText(ps: Patterns, before: string, at: nat, space: string, asked: string, ending: string)
    requires IsSuggestion(asked, ending) && space != "" && AllSpace(ps, space)
    requires ps.rule(Asking(before, space, asked, ending), at) == Some(Prefix(|before|, false))
    ensures RuleCuts(ps, Asking(before, space, asked, ending), at, Some(|before|))
  {
    hide SuggestionAt, Asking;
    var m := Asking(before, space, asked, ending);
    AskedThere(before, space, asked, ending);
    assert |m| >= |before| + |space| by { SuggestionInside(m, |before| + |space|); }
    assert LeadsTo(ps, m, Prefix(|before|, false), |before|, |before| + |space|);
  }

  lemma SuggestionInside(m: string, j: nat)
    requires SuggestionAt(m, j)
    ensures j <= |m|
  {
  }

  /** A whole message of a rule keeps the rule's text and a final line break. */
  lemma TheTextStays(ps: Patterns, text: string, space: string, asked: string, ending: string, cut: Option<nat>)
    requires IsSuggestion(asked, ending) && space != "" && AllSpace(ps, space)
    requires var m := Asking(text, space, asked, ending);
             ps.rule(m, 0) == Some(Prefix(|text|, false)) && ps.wrapper(m).None? && CutsAt(ps, m, cut)
    ensures cut == Some(|text|) && Without(Asking(text, space, asked, ending), cut) == text + ending
  {
    hide RuleCuts, Asking;
    var m := Asking(text, space, asked, ending);
    AskedThere(text, space, asked, ending);
    CutBehindTheText(ps, text, 0, space, asked, ending);
    NoWrapper(ps, m);
    CutIsUnique(ps, m, 0, cut, Some(|text|));
  }

  /** Behind a wrapper the text up to the rule's is kept as well, unless an earlier separator works. */
  lemma TheWrapperStays(ps: Patterns, lead: string, text: string, space: string, asked: string, ending: string,
      cut: Option<nat>)
    requires IsSuggestion(asked, ending) && space != "" && AllSpace(ps, space)
    requires var m := Asking(lead + "; " + text, space, asked, ending);
             && ps.wrapper(m).Some? && ps.wrapper(m).value <= |lead| && '\n' !in lead[ps.wrapper(m).value..]
             && ps.rule(m, |lead| + 2) == Some(Prefix(|lead| + 2 + |text|, false))
             && NoWrappedCutBefore(ps, m, |lead|) && CutsAt(ps, m, cut)
    ensures cut == Some(|lead| + 2 + |text|)
    ensures Without(Asking(lead + "; " + text, space, asked, ending), cut) == lead + "; " + text + ending
  {
    hide RuleCuts, Asking, SuggestionAt;
    var before := lead + "; " + text;
    var m := Asking(before, space, asked, ending);
    AskedThere(before, space, asked, ending);
    CutBehindTheText(ps, before, |lead| + 2, space, asked, ending);
    assert forall i | 0 <= i < |before| :: m[i] == m[..|before|][i] == before[i];
    assert SeparatorAt(ps, m, |lead|) by {
      assert m[ps.wrapper(m).value..|lead|] == lead[ps.wrapper(m).value..];
    }
    assert FirstWrappedCut(ps, m, |lead|, |before|);
    assert SomeWrappedCut(ps, m);
    CutsOnce(ps, m, cut, Some(|before|));
  }

  /** A message whose final line does not end in a question mark is kept as it is. */
  lemma NoQuestionNoCut(ps: Patterns, m: string, cut: Option<nat>)
    requires CutsAt(ps, m, cut) && (m == "" || m[|m| - 1] != '?') && !("?\n" == m[if |m| < 2 then 0 else |m| - 2..])
    ensures cut == None && Without(m, cut) == m
  {
    if |m| >= 2 { assert m[|m| - 2..] == [m[|m| - 2], m[|m| - 1]]; }
  }
}
