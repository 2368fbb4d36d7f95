/**
 * When an ask number is given out twice (packages/vault/src/tools.ts). Ask lines never share an id,
 * but the audit events and serve lines of an ask are gathered by its id as well, and a failed ask
 * leaves them without an ask line.
 */
module VaultNumbering {
  import opened Common
  import opened VaultAsks

  ghost predicate NumbersAsk(s: Step, session: string) {
    (s.AskCompletes? || s.AskFails?) && s.session == session
  }

  /** The number the ask at step `i` is given. */
  ghost function NumberGiven(from: Vault, steps: seq<Step>, i: nat): nat
    requires i < |steps| && (steps[i].AskCompletes? || steps[i].AskFails?)
  {
    var v, session := Execute(from, steps[..i]), steps[i].session;
    if session in v.live then v.live[session] + 1 else 0
  }

  // ----- One session's numbering -----

  /** The live counter, the highest number on its ask lines, and the highest number given so far. */
  datatype Numbering = Numbering(live: Option<nat>, recorded: nat, high: nat)

  const UNSEEN := Numbering(None, 0, 0)

  function Renumbered(n: Numbering, s: Step, session: string): Numbering {
    match s
    case AskCompletes(t, _, _) =>
      if t != session || n.live.None? then n
      else Numbering(Some(n.live.value + 1), n.live.value + 1, Max(n.high, n.live.value + 1))
    case AskFails(t, _, _) =>
      if t != session || n.live.None? then n
      else Numbering(Some(n.live.value + 1), n.recorded, Max(n.high, n.live.value + 1))
    case AskRefused(_) => n
    case Opens(t, _) => if t == session then n.(live := Some(n.recorded)) else n
    case Closes(t) => if t == session then n.(live := None) else n
    case ServerRestarts => n.(live := None)
  }

  function NumberingOf(steps: seq<Step>, session: string): Numbering {
    if steps == [] then UNSEEN
    else Renumbered(NumberingOf(steps[..|steps| - 1], session), steps[|steps| - 1], session)
  }

  // ----- The vault numbers as the session does -----

  ghost predicate Records(v: Vault, session: string, c: Corpus, i: nat, n: nat) {
    IsAsk(v, c, i) && IsAskNumbered(v.ledgers[c][i], session, n)
  }

  /** The counter is live as tracked, and `recorded` is the highest number on the session's ask lines. */
  ghost predicate Tracks(v: Vault, n: Numbering, session: string) {
    && (session in v.live <==> n.live.Some?)
    && (session in v.live && n.live.Some? ==> v.live[session] == n.live.value)
    && (forall c, i: nat, m: nat :: Records(v, session, c, i, m) ==> m <= n.recorded)
    && (n.recorded == 0 || exists c, i: nat :: Records(v, session, c, i, n.recorded))
  }

  /** Opening over every mounted corpus resumes to the highest recorded number. */
  lemma ResumesToRecorded(v: Vault, n: Numbering, session: string, corpora: seq<Corpus>)
    requires Tracks(v, n, session) && forall c :: c in corpora <==> c in v.ledgers
    ensures ResumedCounter(v.ledgers, corpora, session, 0) == n.recorded
  {
    hide Records;
    var r := ResumedCounter(v.ledgers, corpora, session, 0);
    hide ResumedCounter;
    if r != 0 {
      var c, i := ResumedIsRecorded(v, session, corpora);
    }
    if n.recorded != 0 {
      var c, i: nat :| Records(v, session, c, i, n.recorded);
      RecordedIsResumedPast(v, session, corpora, c, i, n.recorded);
    }
  }

  lemma ResumedIsRecorded(v: Vault, session: string, corpora: seq<Corpus>) returns (c: Corpus, i: nat)
    requires forall c :: c in corpora ==> c in v.ledgers
    requires ResumedCounter(v.ledgers, corpora, session, 0) != 0
    ensures Records(v, session, c, i, ResumedCounter(v.ledgers, corpora, session, 0))
  {
    ResumedCounterIsAttained(v.ledgers, corpora, session, 0);
    var r := ResumedCounter(v.ledgers, corpora, session, 0);
    hide ResumedCounter;
    var corpus, l :| corpus in corpora && l in v.ledgers[corpus] && IsAskNumbered(l, session, r);
    var k :| 0 <= k < |v.ledgers[corpus]| && v.ledgers[corpus][k] == l;
    c, i := corpus, k;
  }

  lemma RecordedIsResumedPast(v: Vault, session: string, corpora: seq<Corpus>, c: Corpus, i: nat, n: nat)
    requires (forall d :: d in corpora <==> d in v.ledgers) && Records(v, session, c, i, n)
    ensures n <= ResumedCounter(v.ledgers, corpora, session, 0)
  {
    hide AskNumber;
    assert v.ledgers[c][i] in v.ledgers[c] && c in corpora;
  }

  /** Appending lines none of which is an ask of the session changes nothing it records. */
  lemma AppendRecordsNothing(v: Vault, w: Vault, session: string, corpus: Corpus, lines: seq<Line>)
    requires corpus in v.ledgers && w.ledgers == v.ledgers[corpus := v.ledgers[corpus] + lines]
    requires forall l :: l in lines ==> l.kind != AskLine || l.session != session
    ensures forall c, i: nat, m: nat :: Records(w, session, c, i, m) <==> Records(v, session, c, i, m)
  {
    forall c, i: nat, m: nat ensures Records(w, session, c, i, m) <==> Records(v, session, c, i, m) {
      if c == corpus && i >= |v.ledgers[corpus]| && i < |w.ledgers[corpus]| {
        assert w.ledgers[c][i] == lines[i - |v.ledgers[corpus]|];
        assert w.ledgers[c][i] in lines;
      }
    }
  }

  lemma FailureTracks(v: Vault, n: Numbering, session: string, t: string, corpus: Corpus, serves: nat)
    requires Tracks(v, n, session) && Allowed(v, AskFails(t, corpus, serves))
    ensures Tracks(Next(v, AskFails(t, corpus, serves)), Renumbered(n, AskFails(t, corpus, serves), session), session)
  {
    AppendRecordsNothing(v, Next(v, AskFails(t, corpus, serves)), session, corpus,
                         ServeLines(t, AskId(t, v.live[t] + 1), serves));
    hide Records;
  }

  /** A completed ask appends its serve lines and then its ask line. */
  lemma CompletionInTwo(v: Vault, t: string, corpus: Corpus, serves: nat) returns (middle: Vault)
    requires Allowed(v, AskCompletes(t, corpus, serves))
    ensures var id := AskId(t, v.live[t] + 1);
            var w := Next(v, AskCompletes(t, corpus, serves));
      && corpus in middle.ledgers
      && middle.ledgers == v.ledgers[corpus := v.ledgers[corpus] + ServeLines(t, id, serves)]
      && w.ledgers == middle.ledgers[corpus := middle.ledgers[corpus] + [Line(AskLine, t, id)]]
      && w.live == v.live[t := v.live[t] + 1]
  {
    hide AskId;
    var id := AskId(t, v.live[t] + 1);
    var served := ServeLines(t, id, serves);
    middle := v.(ledgers := v.ledgers[corpus := v.ledgers[corpus] + served]);
    assert v.ledgers[corpus] + (served + [Line(AskLine, t, id)]) == v.ledgers[corpus] + served + [Line(AskLine, t, id)];
  }

  lemma CompletionRecords(v: Vault, session: string, t: string, corpus: Corpus, serves: nat) returns (at: nat)
    requires Allowed(v, AskCompletes(t, corpus, serves))
    ensures var w := Next(v, AskCompletes(t, corpus, serves));
      && (forall c, i: nat, m: nat :: Records(v, session, c, i, m) ==> Records(w, session, c, i, m))
      && (forall c, i: nat, m: nat :: Records(w, session, c, i, m) ==>
            Records(v, session, c, i, m) || (t == session && m == v.live[t] + 1))
      && (t == session ==> Records(w, session, corpus, at, v.live[t] + 1))
  {
    var middle := CompletionInTwo(v, t, corpus, serves);
    var number := v.live[t] + 1;
    var w := Next(v, AskCompletes(t, corpus, serves));
    var served := ServeLines(t, AskId(t, number), serves);
    AskNumberReadsBack(t, number);
    assert forall l :: l in served ==> l.kind != AskLine;
    at := |middle.ledgers[corpus]|;
    hide Next;
    hide AskId;
    hide AskNumber;
    hide ServeLines;
    AppendRecordsNothing(v, middle, session, corpus, served);
    if t == session {
      NewAskIsRecorded(middle, w, session, corpus, number);
    } else {
      AppendRecordsNothing(middle, w, session, corpus, [Line(AskLine, t, AskId(t, number))]);
    }
  }

  lemma CompletionAdvances(v: Vault, t: string, corpus: Corpus, serves: nat)
    requires Allowed(v, AskCompletes(t, corpus, serves))
    ensures Next(v, AskCompletes(t, corpus, serves)).live == v.live[t := v.live[t] + 1]
  {
  }

  lemma CompletionTracks(v: Vault, n: Numbering, session: string, t: string, corpus: Corpus, serves: nat)
    requires Tracks(v, n, session) && Allowed(v, AskCompletes(t, corpus, serves))
    requires n.live.Some? ==> n.recorded <= n.live.value
    ensures Tracks(Next(v, AskCompletes(t, corpus, serves)), Renumbered(n, AskCompletes(t, corpus, serves), session), session)
  {
    hide Next;
    hide Records;
    var at := CompletionRecords(v, session, t, corpus, serves);
    var w := Next(v, AskCompletes(t, corpus, serves));
    CompletionAdvances(v, t, corpus, serves);
    if t == session {
      NewHighestTracks(v, w, n, session, corpus, at);
    } else {
      SameRecordedTracks(v, w, n, session);
    }
  }

  /** One more ask line, numbered past the recorded ones. */
  lemma NewHighestTracks(v: Vault, w: Vault, n: Numbering, session: string, corpus: Corpus, at: nat)
    requires Tracks(v, n, session) && n.live.Some? && n.recorded <= n.live.value
    requires w.live == v.live[session := n.live.value + 1]
    requires Records(w, session, corpus, at, n.live.value + 1)
    requires forall c, i: nat, m: nat :: Records(w, session, c, i, m) ==> Records(v, session, c, i, m) || m == n.live.value + 1
    ensures Tracks(w, Numbering(Some(n.live.value + 1), n.live.value + 1, Max(n.high, n.live.value + 1)), session)
  {
    hide Records;
  }

  lemma SameRecordedTracks(v: Vault, w: Vault, n: Numbering, session: string)
    requires Tracks(v, n, session)
    requires (session in w.live <==> session in v.live) && (session in v.live ==> w.live[session] == v.live[session])
    requires forall c, i: nat, m: nat :: Records(w, session, c, i, m) <==> Records(v, session, c, i, m)
    ensures Tracks(w, n, session)
  {
    hide Records;
    if n.recorded != 0 {
      var c, i: nat :| Records(v, session, c, i, n.recorded);
      assert Records(w, session, c, i, n.recorded);
    }
  }

  lemma NewAskIsRecorded(v: Vault, w: Vault, session: string, corpus: Corpus, number: nat)
    requires corpus in v.ledgers
    requires w.ledgers == v.ledgers[corpus := v.ledgers[corpus] + [Line(AskLine, session, AskId(session, number))]]
    requires AskNumber(AskId(session, number)) == number
    ensures Records(w, session, corpus, |v.ledgers[corpus]|, number)
    ensures forall c, i: nat, m: nat :: Records(v, session, c, i, m) ==> Records(w, session, c, i, m)
    ensures forall c, i: nat, m: nat :: Records(w, session, c, i, m) ==> Records(v, session, c, i, m) || m == number
  {
    hide AskNumber;
    hide AskId;
    forall c, i: nat, m: nat | Records(w, session, c, i, m) ensures Records(v, session, c, i, m) || m == number {
      if c == corpus && i == |v.ledgers[corpus]| {
        assert w.ledgers[c][i] == Line(AskLine, session, AskId(session, number));
      }
    }
  }

  lemma OpeningTracks(v: Vault, n: Numbering, session: string, t: string, corpora: seq<Corpus>)
    requires Tracks(v, n, session) && Allowed(v, Opens(t, corpora))
    ensures Tracks(Next(v, Opens(t, corpora)), Renumbered(n, Opens(t, corpora), session), session)
  {
    if t == session {
      ResumesToRecorded(v, n, session, corpora);
    }
    SameRecords(v, Next(v, Opens(t, corpora)), session);
    hide Records;
  }

  lemma RestartTracks(v: Vault, n: Numbering, session: string)
    requires Tracks(v, n, session)
    ensures Tracks(Next(v, ServerRestarts), Renumbered(n, ServerRestarts, session), session)
  {
    SameRecords(v, Next(v, ServerRestarts), session);
    hide Records;
  }

  lemma ClosingTracks(v: Vault, n: Numbering, session: string, t: string)
    requires Tracks(v, n, session) && Allowed(v, Closes(t))
    ensures Tracks(Next(v, Closes(t)), Renumbered(n, Closes(t), session), session)
  {
    SameRecords(v, Next(v, Closes(t)), session);
    hide Records;
  }

  lemma StepTracks(v: Vault, n: Numbering, s: Step, session: string)
    requires Tracks(v, n, session) && Allowed(v, s)
    requires n.live.Some? ==> n.recorded <= n.live.value
    ensures Tracks(Next(v, s), Renumbered(n, s, session), session)
  {
    hide Tracks;
    match s
    case AskCompletes(t, corpus, serves) => CompletionTracks(v, n, session, t, corpus, serves);
    case AskFails(t, corpus, serves) => FailureTracks(v, n, session, t, corpus, serves);
    case AskRefused(_) =>
    case Opens(t, corpora) => OpeningTracks(v, n, session, t, corpora);
    case Closes(t) => ClosingTracks(v, n, session, t);
    case ServerRestarts => RestartTracks(v, n, session);
  }

  lemma SameRecords(v: Vault, w: Vault, session: string)
    requires v.ledgers == w.ledgers
    ensures forall c, i: nat, m: nat :: Records(w, session, c, i, m) <==> Records(v, session, c, i, m)
  {
  }

  /** Along a run: the numbers are ordered, and the vault tracks them. */
  lemma {:induction false} RunTracks(from: Vault, steps: seq<Step>, session: string)
    requires Empty(from) && Legal(from, steps)
    ensures Tracks(Execute(from, steps), NumberingOf(steps, session), session)
    ensures CountersOrdered(NumberingOf(steps, session))
  {
    hide Tracks;
    hide Allowed;
    hide Next;
    if steps == [] {
      NothingTracked(from, session);
    } else {
      var init := steps[..|steps| - 1];
      assert forall k :: 0 <= k < |init| ==> init[..k] == steps[..k];
      RunTracks(from, init, session);
      StepTracks(Execute(from, init), NumberingOf(init, session), steps[|steps| - 1], session);
    }
  }

  lemma NothingTracked(from: Vault, session: string)
    requires Empty(from)
    ensures Tracks(from, UNSEEN, session)
  {
  }

  ghost predicate CountersOrdered(n: Numbering) {
    n.recorded <= n.high && (n.live.Some? ==> n.recorded <= n.live.value <= n.high)
  }

  /** The number given at `i` is the tracked counter plus one. */
  lemma NumberIsTracked(from: Vault, steps: seq<Step>, i: nat, session: string)
    requires Empty(from) && Legal(from, steps) && i < |steps| && NumbersAsk(steps[i], session)
    ensures NumberingOf(steps[..i], session).live.Some?
    ensures NumberGiven(from, steps, i) == NumberingOf(steps[..i], session).live.value + 1
    ensures CountersOrdered(NumberingOf(steps[..i], session))
  {
    var init := steps[..i];
    assert forall k :: 0 <= k < |init| ==> init[..k] == steps[..k];
    RunTracks(from, init, session);
    assert Allowed(Execute(from, init), steps[i]);
  }

  lemma NumberingNext(steps: seq<Step>, i: nat, session: string)
    requires i < |steps|
    ensures NumberingOf(steps[..i + 1], session) == Renumbered(NumberingOf(steps[..i], session), steps[i], session)
  {
    assert steps[..i + 1][..i] == steps[..i];
  }

  // ----- Every number up to the highest was given -----

  ghost predicate GivenBefore(from: Vault, steps: seq<Step>, n: nat, session: string, m: nat)
    requires n <= |steps|
  {
    exists i :: 0 <= i < n && NumbersAsk(steps[i], session) && NumberGiven(from, steps, i) == m
  }

  lemma {:induction false} GivenUpToHigh(from: Vault, steps: seq<Step>, n: nat, session: string, m: nat)
    requires Empty(from) && Legal(from, steps) && n <= |steps|
    ensures GivenBefore(from, steps, n, session, m) <==> 1 <= m <= NumberingOf(steps[..n], session).high
  {
    hide Legal;
    hide Empty;
    hide NumberGiven;
    if n != 0 {
      GivenUpToHigh(from, steps, n - 1, session, m);
      NumberingNext(steps, n - 1, session);
      if NumbersAsk(steps[n - 1], session) {
        NumberIsTracked(from, steps, n - 1, session);
        var before := NumberingOf(steps[..n - 1], session);
        if m == before.live.value + 1 {
          assert NumberGiven(from, steps, n - 1) == m;
        }
      }
    }
  }

  // ----- Falling behind -----

  /** What the next ask would be numbered after: the live counter, or what reopening resumes to. */
  function Resumes(n: Numbering): nat {
    if n.live.Some? then n.live.value else n.recorded
  }

  /** A failure before step `n` with no completed ask of the session since. */
  ghost predicate UncompletedSince(steps: seq<Step>, i: nat, n: nat, session: string) {
    && i < n <= |steps| && steps[i].AskFails? && steps[i].session == session
    && forall k :: i < k < n ==> !(steps[k].AskCompletes? && steps[k].session == session)
  }

  /** The session ends: with the server, or by itself. */
  ghost predicate Ends(s: Step, session: string) {
    s.ServerRestarts? || s == Closes(session)
  }

  /** The end of the session at `k` strands the number of the failure at `i`. */
  ghost predicate Strands(steps: seq<Step>, i: nat, k: nat, session: string) {
    UncompletedSince(steps, i, k, session) && k < |steps| && Ends(steps[k], session)
  }

  /** Ahead of what is recorded only through a failure not completed since. */
  lemma {:induction false} UnrecordedHasFailed(steps: seq<Step>, n: nat, session: string) returns (i: nat)
    requires n <= |steps|
    requires var t := NumberingOf(steps[..n], session); t.live.Some? && t.recorded < t.live.value
    ensures UncompletedSince(steps, i, n, session)
  {
    NumberingNext(steps, n - 1, session);
    if steps[n - 1].AskFails? && steps[n - 1].session == session {
      i := n - 1;
    } else {
      i := UnrecordedHasFailed(steps, n - 1, session);
    }
  }

  /** Only a session that is not live is opened. */
  lemma OpensWhenGone(from: Vault, steps: seq<Step>, i: nat, session: string)
    requires Empty(from) && Legal(from, steps) && i < |steps| && steps[i].Opens? && steps[i].session == session
    ensures NumberingOf(steps[..i], session).live.None?
  {
    var init := steps[..i];
    assert forall k :: 0 <= k < |init| ==> init[..k] == steps[..k];
    RunTracks(from, init, session);
    assert Allowed(Execute(from, init), steps[i]);
  }

  /** The counter is behind the highest number given only after an end of the session stranded one. */
  lemma {:induction false} BehindWasStranded(from: Vault, steps: seq<Step>, n: nat, session: string) returns (i: nat, k: nat)
    requires Empty(from) && Legal(from, steps) && n <= |steps|
    requires Resumes(NumberingOf(steps[..n], session)) < NumberingOf(steps[..n], session).high
    ensures k < n && Strands(steps, i, k, session)
  {
    hide Legal;
    hide Empty;
    NumberingNext(steps, n - 1, session);
    var before := NumberingOf(steps[..n - 1], session);
    if steps[n - 1].Opens? && steps[n - 1].session == session {
      OpensWhenGone(from, steps, n - 1, session);
    }
    if Resumes(before) < before.high {
      i, k := BehindWasStranded(from, steps, n - 1, session);
    } else {
      k := n - 1;
      i := UnrecordedHasFailed(steps, n - 1, session);
    }
  }

  /** A failure puts the highest number given past what is recorded, until an ask completes. */
  lemma {:induction false} FailureLeavesAGap(from: Vault, steps: seq<Step>, i: nat, n: nat, session: string)
    requires Empty(from) && Legal(from, steps) && UncompletedSince(steps, i, n, session)
    ensures NumberingOf(steps[..n], session).recorded < NumberingOf(steps[..n], session).high
    decreases n
  {
    hide Legal;
    hide Empty;
    NumberingNext(steps, n - 1, session);
    if n == i + 1 {
      NumberIsTracked(from, steps, i, session);
    } else {
      FailureLeavesAGap(from, steps, i, n - 1, session);
    }
  }

  /** From a gap without a live counter, the session stays behind until its next numbered ask. */
  lemma {:induction false} StaysBehind(steps: seq<Step>, k: nat, n: nat, session: string)
    requires k < n <= |steps| && Ends(steps[k], session)
    requires NumberingOf(steps[..k], session).recorded < NumberingOf(steps[..k], session).high
    requires forall j :: k < j < n ==> !NumbersAsk(steps[j], session)
    ensures var t := NumberingOf(steps[..n], session);
            t.recorded < t.high && Resumes(t) == t.recorded
    decreases n
  {
    NumberingNext(steps, n - 1, session);
    if n != k + 1 {
      StaysBehind(steps, k, n - 1, session);
    }
  }

  // ----- The exact condition -----

  /** Some number is given to two asks of the session. */
  ghost predicate Repeats(from: Vault, steps: seq<Step>, session: string) {
    exists i, j :: 0 <= i < j < |steps| && NumbersAsk(steps[i], session) && NumbersAsk(steps[j], session)
                   && NumberGiven(from, steps, i) == NumberGiven(from, steps, j)
  }

  /** An ask fails, the session ends before any of its asks completes, and its identity asks again. */
  ghost predicate AsksAfterStranding(steps: seq<Step>, session: string) {
    exists i, k, j :: 0 <= k < j < |steps| && Reissues(steps, i, k, j, session)
  }

  ghost predicate Reissues(steps: seq<Step>, i: nat, k: nat, j: nat, session: string) {
    Strands(steps, i, k, session) && k < j < |steps| && NumbersAsk(steps[j], session)
  }

  lemma RepeatsAreStranded(from: Vault, steps: seq<Step>, session: string)
    requires Empty(from) && Legal(from, steps) && Repeats(from, steps, session)
    ensures AsksAfterStranding(steps, session)
  {
    var i, j :| 0 <= i < j < |steps| && NumbersAsk(steps[i], session) && NumbersAsk(steps[j], session)
                && NumberGiven(from, steps, i) == NumberGiven(from, steps, j);
    hide Legal;
    hide Empty;
    NumberIsTracked(from, steps, j, session);
    hide NumberGiven;
    assert GivenBefore(from, steps, j, session, NumberGiven(from, steps, j));
    GivenUpToHigh(from, steps, j, session, NumberGiven(from, steps, j));
    var f, k := BehindWasStranded(from, steps, j, session);
    assert Reissues(steps, f, k, j, session);
  }

  /** The first ask numbered after `k`, when there is one by `j`. */
  lemma {:induction false} FirstAskAfter(steps: seq<Step>, k: nat, j: nat, session: string) returns (first: nat)
    requires k < j < |steps| && NumbersAsk(steps[j], session)
    ensures k < first <= j && NumbersAsk(steps[first], session)
    ensures forall m :: k < m < first ==> !NumbersAsk(steps[m], session)
    decreases j
  {
    first := j;
    for m := k + 1 to j
      invariant first == j
      invariant forall p :: k < p < m ==> !NumbersAsk(steps[p], session)
    {
      if NumbersAsk(steps[m], session) {
        return m;
      }
    }
  }

  lemma StrandedRepeats(from: Vault, steps: seq<Step>, session: string)
    requires Empty(from) && Legal(from, steps) && AsksAfterStranding(steps, session)
    ensures Repeats(from, steps, session)
  {
    var i, k, j :| 0 <= k < j < |steps| && Reissues(steps, i, k, j, session);
    hide Legal;
    hide Empty;
    FailureLeavesAGap(from, steps, i, k, session);
    var first := FirstAskAfter(steps, k, j, session);
    StaysBehind(steps, k, first, session);
    NumberIsTracked(from, steps, first, session);
    hide NumberGiven;
    GivenUpToHigh(from, steps, first, session, NumberGiven(from, steps, first));
    var earlier :| 0 <= earlier < first && NumbersAsk(steps[earlier], session)
                   && NumberGiven(from, steps, earlier) == NumberGiven(from, steps, first);
  }

  /**
   * Over every run from empty ledgers: a number is given to a session twice if and only if one of
   * its asks failed, the session ended (by itself or with the server) before another of its asks
   * completed, and the same identity asked again.
   */
  lemma NumbersRepeatExactlyAfterStranding(from: Vault, steps: seq<Step>, session: string)
    requires Empty(from) && Legal(from, steps)
    ensures Repeats(from, steps, session) <==> AsksAfterStranding(steps, session)
  {
    if Repeats(from, steps, session) {
      RepeatsAreStranded(from, steps, session);
    }
    if AsksAfterStranding(steps, session) {
      StrandedRepeats(from, steps, session);
    }
  }

  /** An ask id, as the ask at step `i` carries it. */
  ghost function IdGiven(from: Vault, steps: seq<Step>, i: nat): string
    requires i < |steps| && (steps[i].AskCompletes? || steps[i].AskFails?)
  {
    AskId(steps[i].session, NumberGiven(from, steps, i))
  }

  ghost predicate IdGivenTwice(from: Vault, steps: seq<Step>, i: nat, j: nat) {
    && i < j < |steps| && (steps[i].AskCompletes? || steps[i].AskFails?) && (steps[j].AskCompletes? || steps[j].AskFails?)
    && IdGiven(from, steps, i) == IdGiven(from, steps, j)
  }

  /** The same for ids, over all sessions at once: ids of different sessions never meet. */
  lemma AskIdsRepeatExactlyAfterStranding(from: Vault, steps: seq<Step>)
    requires Empty(from) && Legal(from, steps)
    ensures (exists i: nat, j: nat :: IdGivenTwice(from, steps, i, j)) <==> (exists session :: AsksAfterStranding(steps, session))
  {
    hide Legal;
    hide Empty;
    hide NumberGiven;
    hide AsksAfterStranding;
    if exists i: nat, j: nat :: IdGivenTwice(from, steps, i, j) {
      var i: nat, j: nat :| IdGivenTwice(from, steps, i, j);
      AskIdsAreInjective(steps[i].session, NumberGiven(from, steps, i), steps[j].session, NumberGiven(from, steps, j));
      assert Repeats(from, steps, steps[i].session);
      NumbersRepeatExactlyAfterStranding(from, steps, steps[i].session);
    }
    if exists session :: AsksAfterStranding(steps, session) {
      var session :| AsksAfterStranding(steps, session);
      NumbersRepeatExactlyAfterStranding(from, steps, session);
      var i, j :| 0 <= i < j < |steps| && NumbersAsk(steps[i], session) && NumbersAsk(steps[j], session)
                  && NumberGiven(from, steps, i) == NumberGiven(from, steps, j);
      assert IdGivenTwice(from, steps, i, j);
    }
  }
}
