/**
 * What moves a record: the evidence behind graduation and withdrawal over whole runs, and the
 * idempotence of the pass.
 */
module LifecycleEvidence {
  import opened Common
  import opened Candidates
  import opened Graduation
  import opened Lifecycle
  import C = Confidence

  // ----- One pass, record by record -----

  /** The fields a pass never writes. */
  ghost predicate SameEvidence(a: Record, b: Record) {
    && a.id == b.id && a.occurrences == b.occurrences && a.minedSessions == b.minedSessions
    && a.contradiction == b.contradiction && a.contradictedSessions == b.contradictedSessions
    && a.lastSeen == b.lastSeen && a.details == b.details && a.lesson == b.lesson && a.signature == b.signature
  }

  /** The only moves a pass makes, each with its evidence. */
  ghost predicate PassMoves(d: C.Decay, before: Record, after: Record, hasCodex: bool, now: Time) {
    && SameEvidence(before, after)
    && match before.status
       case Candidate =>
         after.status == Candidate || (hasCodex && after.status == Graduated && IsEligible(d, before, now))
       case Graduated =>
         after.status == (if hasCodex && IsBelowWithdrawal(d, before, now) then Withdrawn else Graduated)
       case Withdrawn => after.status == Withdrawn
  }

  lemma {:induction false} WithdrawAllPointwise(d: C.Decay, records: seq<Record>, c: Codex, now: Time)
    ensures var out := WithdrawAll(d, records, c, now).0;
            |out| == |records| && forall i :: 0 <= i < |records| ==> out[i] == WithdrawRecord(d, records[i], now)
  {
    if records != [] {
      WithdrawAllPointwise(d, records[..|records| - 1], c, now);
    }
  }

  lemma {:induction false} GraduateAllPointwise(d: C.Decay, records: seq<Record>, c: Codex, now: Time)
    ensures var out := GraduateAll(d, records, c, now).0;
      |out| == |records| && forall i :: 0 <= i < |records| ==>
        out[i] == records[i]
        || (IsEligible(d, records[i], now) && out[i] == records[i].(status := Graduated, graduatedAt := Some(now)))
  {
    if records != [] {
      GraduateAllPointwise(d, records[..|records| - 1], c, now);
    }
  }

  lemma PassPointwise(d: C.Decay, records: seq<Record>, codex: Option<Codex>, now: Time)
    ensures var out := Pass(d, records, codex, now).0;
      |out| == |records| && forall i :: 0 <= i < |records| ==> PassMoves(d, records[i], out[i], codex.Some?, now)
  {
    var refreshed := WithConfidence(d, records, now);
    if codex.Some? {
      WithdrawAllPointwise(d, refreshed, codex.value, now);
      var (kept, withdrawn) := WithdrawAll(d, refreshed, codex.value, now);
      GraduateAllPointwise(d, kept, withdrawn, now);
      var out := Pass(d, records, codex, now).0;
      forall i | 0 <= i < |records| ensures PassMoves(d, records[i], out[i], true, now) {
        assert kept[i] == WithdrawRecord(d, refreshed[i], now);
      }
    }
  }

  // ----- The observations behind the records -----

  ghost predicate SameMemory(a: seq<Record>, b: seq<Record>) {
    |a| == |b| && forall i :: 0 <= i < |a| ==>
      a[i].id == b[i].id && a[i].occurrences == b[i].occurrences && a[i].minedSessions == b[i].minedSessions
  }

  lemma MemoryDecides(a: seq<Record>, b: seq<Record>, seen: set<Observation>)
    requires SameMemory(a, b) && Consistent(a, seen)
    ensures Consistent(b, seen)
  {
    forall o | o in seen ensures Find(b, o.id) < |b| {
      assert b[Find(a, o.id)].id == o.id;
    }
  }

  lemma {:induction false} MineSessionsConsistent(records: seq<Record>, seen: set<Observation>, sessions: seq<Session>, now: Time)
    requires Consistent(records, seen)
    ensures Consistent(MineSessions(records, sessions, now), seen + SessionObservations(sessions))
  {
    hide Consistent;
    hide SessionBatch;
    hide BatchObservations;
    hide Sweep;
    hide MergeBatch;
    if sessions == [] {
      assert seen + {} == seen;
    } else {
      var init, s := sessions[..|sessions| - 1], sessions[|sessions| - 1];
      MineSessionsConsistent(records, seen, init, now);
      SessionConsistent(MineSessions(records, init, now), seen + SessionObservations(init), s, now);
      assert seen + SessionObservations(init) + BatchObservations(SessionBatch(s, 0)) == seen + SessionObservations(sessions);
    }
  }

  lemma SessionConsistent(records: seq<Record>, seen: set<Observation>, s: Session, now: Time)
    requires Consistent(records, seen)
    ensures Consistent(Sweep(MergeBatch(records, s.mined, s.id, now), s), seen + BatchObservations(SessionBatch(s, 0)))
  {
    assert BatchObservations(SessionBatch(s, now)) == BatchObservations(SessionBatch(s, 0));
    MergeBatchKeeps(records, seen, SessionBatch(s, now));
    var merged := MergeBatch(records, s.mined, s.id, now);
    hide Consistent;
    hide BatchObservations;
    hide MergeBatch;
    assert SameMemory(merged, Sweep(merged, s));
    MemoryDecides(merged, Sweep(merged, s), seen + BatchObservations(SessionBatch(s, 0)));
  }

  lemma RunConsistent(d: C.Decay, w: World, sessions: seq<Session>, drafts: map<CandidateId, string>)
    requires Consistent(w.records, w.seen)
    ensures var after := Next(d, w, Run(sessions, drafts));
            Consistent(after.records, after.seen)
  {
    MineSessionsConsistent(w.records, w.seen, sessions, w.now);
    var seen := w.seen + SessionObservations(sessions);
    var mined := Mine(w.records, sessions, drafts, w.now);
    MemoryDecides(MineSessions(w.records, sessions, w.now), mined, seen);
    PassPointwise(d, mined, w.codex, w.now);
    MemoryDecides(mined, Pass(d, mined, w.codex, w.now).0, seen);
  }

  // ----- Graduated records were observed at least twice -----

  /** No status but candidate without two observations. */
  ghost predicate Earned(records: seq<Record>) {
    forall i :: 0 <= i < |records| && records[i].status != Candidate ==> records[i].occurrences >= 2
  }

  lemma {:induction false} MergingKeepsEarned(records: seq<Record>, mined: seq<Mined>, session: SessionId, now: Time)
    requires Earned(records)
    ensures Earned(MergeBatch(records, mined, session, now))
  {
    if mined != [] {
      MergingKeepsEarned(records, mined[..|mined| - 1], session, now);
    }
  }

  lemma {:induction false} MiningKeepsEarned(records: seq<Record>, sessions: seq<Session>, now: Time)
    requires Earned(records)
    ensures Earned(MineSessions(records, sessions, now))
  {
    if sessions != [] {
      var s := sessions[|sessions| - 1];
      MiningKeepsEarned(records, sessions[..|sessions| - 1], now);
      MergingKeepsEarned(MineSessions(records, sessions[..|sessions| - 1], now), s.mined, s.id, now);
    }
  }

  lemma PassKeepsEarned(d: C.Decay, records: seq<Record>, codex: Option<Codex>, now: Time)
    requires C.Lawful(d) && Earned(records)
    ensures Earned(Pass(d, records, codex, now).0)
  {
    PassPointwise(d, records, codex, now);
    var out := Pass(d, records, codex, now).0;
    forall i | 0 <= i < |out| && out[i].status != Candidate ensures out[i].occurrences >= 2 {
      var r := records[i];
      if r.status == Candidate && r.occurrences <= 1 {
        C.OneObservationIsNotEnough(d, r.occurrences, C.Age(r.lastSeen, now), r.contradiction);
      }
    }
  }

  ghost predicate WellEvidenced(w: World) {
    Consistent(w.records, w.seen) && Earned(w.records)
  }

  lemma {:induction false} EvidenceHolds(d: C.Decay, w: World, steps: seq<Step>)
    requires C.Lawful(d) && WellEvidenced(w)
    ensures WellEvidenced(Execute(d, w, steps))
  {
    if steps != [] {
      var before := Execute(d, w, steps[..|steps| - 1]);
      EvidenceHolds(d, w, steps[..|steps| - 1]);
      match steps[|steps| - 1]
      case Run(sessions, drafts) =>
        RunConsistent(d, before, sessions, drafts);
        MiningKeepsEarned(before.records, sessions, before.now);
        PassKeepsEarned(d, Mine(before.records, sessions, drafts, before.now), before.codex, before.now);
      case _ =>
    }
  }

  /**
   * Over every run from a fresh repository, with no bound on the number of sessions: whatever ever
   * graduated was observed in at least two distinct sessions.
   */
  lemma GraduatedWasObservedTwice(d: C.Decay, w: World, steps: seq<Step>, r: Record)
    requires C.Lawful(d) && Fresh(w)
    requires r in Execute(d, w, steps).records && r.status != Candidate
    ensures |Observers(Execute(d, w, steps).seen, r.id)| >= 2
  {
    EvidenceHolds(d, w, steps);
    var end := Execute(d, w, steps);
    var i :| 0 <= i < |end.records| && end.records[i] == r;
    assert Remembers(end.records[i], Observers(end.seen, r.id));
  }

  // ----- Contradictions -----

  /** The counter is the number of distinct contradicting sessions, and stays small. */
  ghost predicate CountsSessions(r: Record) {
    && r.contradiction == |r.contradictedSessions|
    && NoDuplicates(r.contradictedSessions)
    && (r.status == Candidate ==> r.contradiction == 0)
    && (r.status == Withdrawn ==> r.contradiction >= 1)
    && r.contradiction <= 3
  }

  /** As persisted: at most two contradictions on an entry that is still graduated. */
  ghost predicate Standing(r: Record) {
    CountsSessions(r) && (r.status == Graduated ==> r.contradiction <= 2)
  }

  ghost predicate AllStanding(records: seq<Record>) {
    forall i :: 0 <= i < |records| ==> Standing(records[i])
  }

  ghost predicate SingleSession(s: Step) {
    match s
    case Run(sessions, _) => |sessions| == 1
    case CutRun(sessions, _) => |sessions| == 1
    case _ => true
  }

  lemma {:induction false} MergingKeepsStanding(records: seq<Record>, mined: seq<Mined>, session: SessionId, now: Time)
    requires AllStanding(records)
    ensures AllStanding(MergeBatch(records, mined, session, now))
  {
    if mined != [] {
      MergingKeepsStanding(records, mined[..|mined| - 1], session, now);
    }
  }

  /** One sweep adds at most one contradiction, evicting no session. */
  lemma SweepCounts(r: Record, s: Session)
    requires Standing(r)
    ensures CountsSessions(SweepRecord(r, s))
  {
  }

  lemma SingleRunKeepsStanding(d: C.Decay, w: World, s: Session, drafts: map<CandidateId, string>)
    requires C.Lawful(d) && AllStanding(w.records)
    requires w.codex.None? ==> AllCandidates(w.records)
    ensures AllStanding(Next(d, w, Run([s], drafts)).records)
  {
    assert [s][..0] == [];
    assert MineSessions(w.records, [], w.now) == w.records;
    var merged := MergeBatch(w.records, s.mined, s.id, w.now);
    MergingKeepsStanding(w.records, s.mined, s.id, w.now);
    if w.codex.None? {
      MergingOnlyAddsCandidates(w.records, s.mined, s.id, w.now);
    }
    var mined := Mine(w.records, [s], drafts, w.now);
    forall i | 0 <= i < |mined| ensures CountsSessions(mined[i]) && (w.codex.None? ==> mined[i].status == Candidate) {
      SweepCounts(merged[i], s);
      assert w.codex.None? ==> merged[i].status == Candidate;
      assert mined[i].status == merged[i].status;
    }
    PassPointwise(d, mined, w.codex, w.now);
    var out := Pass(d, mined, w.codex, w.now).0;
    forall i | 0 <= i < |out| ensures Standing(out[i]) {
      if mined[i].contradiction >= 3 {
        C.ThreeContradictionsSink(d, mined[i].occurrences, C.Age(mined[i].lastSeen, w.now), mined[i].contradiction);
      }
    }
  }

  ghost predicate AllCandidates(records: seq<Record>) {
    forall i :: 0 <= i < |records| ==> records[i].status == Candidate
  }

  lemma {:induction false} MergingOnlyAddsCandidates(records: seq<Record>, mined: seq<Mined>, session: SessionId, now: Time)
    requires AllCandidates(records)
    ensures AllCandidates(MergeBatch(records, mined, session, now))
  {
    if mined != [] {
      MergingOnlyAddsCandidates(records, mined[..|mined| - 1], session, now);
    }
  }

  /** Before the first codex, nothing has left candidate status. */
  ghost predicate NoEarlyStatus(w: World) {
    w.codex.None? ==> AllCandidates(w.records)
  }

  lemma {:induction false} StandingHolds(d: C.Decay, w: World, steps: seq<Step>)
    requires C.Lawful(d) && AllStanding(w.records) && NoEarlyStatus(w)
    requires Legal(d, w, steps) && forall s :: s in steps ==> SingleSession(s)
    ensures AllStanding(Execute(d, w, steps).records) && NoEarlyStatus(Execute(d, w, steps))
  {
    if steps != [] {
      LegalPrefix(d, w, steps);
      var before := Execute(d, w, steps[..|steps| - 1]);
      StandingHolds(d, w, steps[..|steps| - 1]);
      match steps[|steps| - 1]
      case Run(sessions, drafts) =>
        assert SingleSession(steps[|steps| - 1]);
        assert sessions == [sessions[0]];
        SingleRunKeepsStanding(d, before, sessions[0], drafts);
        if before.codex.None? {
          SingleRunWithoutCodex(d, before, sessions[0], drafts);
        }
      case _ =>
    }
  }

  lemma SingleRunWithoutCodex(d: C.Decay, w: World, s: Session, drafts: map<CandidateId, string>)
    requires w.codex.None? && NoEarlyStatus(w)
    ensures NoEarlyStatus(Next(d, w, Run([s], drafts)))
  {
    assert [s][..0] == [];
    assert MineSessions(w.records, [], w.now) == w.records;
    MergingOnlyAddsCandidates(w.records, s.mined, s.id, w.now);
    var out := Next(d, w, Run([s], drafts)).records;
    forall i | 0 <= i < |out| ensures out[i].status == Candidate {
      assert MergeBatch(w.records, s.mined, s.id, w.now)[i].status == Candidate;
    }
  }

  // ----- The sessions behind the counter -----

  /** The sessions a record remembers are exactly those that contradicted its candidate. */
  ghost predicate Attributed(records: seq<Record>, contradicting: set<Observation>) {
    && UniqueIds(records)
    && (forall i :: 0 <= i < |records| ==>
          Elements(records[i].contradictedSessions) == Observers(contradicting, records[i].id))
    && (forall o :: o in contradicting ==> Find(records, o.id) < |records|)
  }

  lemma NobodyObserved(seen: set<Observation>, records: seq<Record>, id: CandidateId)
    requires Find(records, id) == |records|
    requires forall o :: o in seen ==> Find(records, o.id) < |records|
    ensures Observers(seen, id) == {}
  {
  }

  lemma MergeOneKeepsAttributed(records: seq<Record>, m: Mined, session: SessionId, now: Time, contradicting: set<Observation>)
    requires Attributed(records, contradicting)
    ensures Attributed(MergeOne(records, m, session, now), contradicting)
  {
    hide Observers;
    hide Refreshed;
    RefreshedKeepsContradictions(records, m, session, now);
    var next, i := MergeOne(records, m, session, now), Find(records, m.id);
    if i == |records| {
      NobodyObserved(contradicting, records, m.id);
      assert next[i].contradictedSessions == [];
    }
    assert forall k :: 0 <= k < |records| ==>
      next[k].id == records[k].id && next[k].contradictedSessions == records[k].contradictedSessions;
    forall o | o in contradicting ensures Find(next, o.id) < |next| {
      assert next[Find(records, o.id)].id == o.id;
    }
  }

  lemma RefreshedKeepsContradictions(records: seq<Record>, m: Mined, session: SessionId, now: Time)
    ensures var i := Find(records, m.id);
      i < |records| ==>
        Refreshed(records[i], m, session, now).id == records[i].id
        && Refreshed(records[i], m, session, now).contradictedSessions == records[i].contradictedSessions
  {
  }

  lemma {:induction false} MergingKeepsAttributed(
    records: seq<Record>, mined: seq<Mined>, session: SessionId, now: Time, contradicting: set<Observation>)
    requires Attributed(records, contradicting)
    ensures Attributed(MergeBatch(records, mined, session, now), contradicting)
  {
    hide Attributed;
    if mined != [] {
      var init := mined[..|mined| - 1];
      MergingKeepsAttributed(records, init, session, now, contradicting);
      MergeOneKeepsAttributed(MergeBatch(records, init, session, now), mined[|mined| - 1], session, now, contradicting);
    }
  }

  /** What one session adds to the contradictors of one record. */
  lemma ContradictedObservers(records: seq<Record>, s: Session, contradicting: set<Observation>, i: nat)
    requires UniqueIds(records) && i < |records|
    ensures Observers(contradicting + Contradicted(records, s), records[i].id)
         == Observers(contradicting, records[i].id)
            + (if records[i].status == Graduated && Contradicts(records[i], s.evidence) then {s.id} else {})
  {
    hide Contradicts;
    var r, added := records[i], Contradicted(records, s);
    assert forall o :: o in added && o.id == r.id ==> o == Observation(s.id, r.id);
    assert Observation(s.id, r.id) in added <==> r.status == Graduated && Contradicts(r, s.evidence);
    forall x | x in Observers(contradicting, r.id) ensures x in Observers(contradicting + added, r.id) {
      assert Observation(x, r.id) in contradicting + added;
    }
    if Observation(s.id, r.id) in added {
      assert Observation(s.id, r.id) in contradicting + added;
    }
  }

  /** The sweep records exactly the contradiction, if there is one, and evicts no session. */
  lemma SweepRemembers(r: Record, s: Session)
    requires Standing(r)
    ensures SweepRecord(r, s).id == r.id
    ensures Elements(SweepRecord(r, s).contradictedSessions)
         == Elements(r.contradictedSessions)
            + (if r.status == Graduated && Contradicts(r, s.evidence) then {s.id} else {})
  {
    hide Contradicts;
    var after := SweepRecord(r, s).contradictedSessions;
    if after != r.contradictedSessions {
      assert after == r.contradictedSessions + [s.id];
      assert Elements(after) == Elements(r.contradictedSessions) + {s.id};
    }
  }

  lemma SweepKeepsAttributed(records: seq<Record>, s: Session, contradicting: set<Observation>)
    requires AllStanding(records) && Attributed(records, contradicting)
    ensures Attributed(Sweep(records, s), contradicting + Contradicted(records, s))
  {
    hide Observers;
    hide SweepRecord;
    hide Standing;
    hide Contradicts;
    var after, all := Sweep(records, s), contradicting + Contradicted(records, s);
    forall i | 0 <= i < |after|
      ensures after[i].id == records[i].id
      ensures Elements(after[i].contradictedSessions) == Observers(all, after[i].id)
    {
      SweepRemembers(records[i], s);
      ContradictedObservers(records, s, contradicting, i);
    }
    forall o | o in all ensures Find(after, o.id) < |after| {
      var i :| 0 <= i < |records| && records[i].id == o.id;
      assert after[i].id == o.id;
    }
  }

  /** Drafting and the pass leave ids and remembered sessions alone. */
  lemma SameSessionsStayAttributed(a: seq<Record>, b: seq<Record>, contradicting: set<Observation>)
    requires Attributed(a, contradicting) && |a| == |b|
    requires forall i :: 0 <= i < |a| ==> a[i].id == b[i].id && a[i].contradictedSessions == b[i].contradictedSessions
    ensures Attributed(b, contradicting)
  {
    forall o | o in contradicting ensures Find(b, o.id) < |b| {
      assert b[Find(a, o.id)].id == o.id;
    }
  }

  lemma SingleRunKeepsAttributed(d: C.Decay, w: World, s: Session, drafts: map<CandidateId, string>)
    requires AllStanding(w.records) && Attributed(w.records, w.contradicting)
    ensures var after := Next(d, w, Run([s], drafts));
            Attributed(after.records, after.contradicting)
  {
    hide Attributed;
    hide AllStanding;
    assert [s][..0] == [];
    assert MineSessions(w.records, [], w.now) == w.records;
    var merged := MergeBatch(w.records, s.mined, s.id, w.now);
    MergingKeepsStanding(w.records, s.mined, s.id, w.now);
    MergingKeepsAttributed(w.records, s.mined, s.id, w.now, w.contradicting);
    SweepKeepsAttributed(merged, s, w.contradicting);
    assert RunContradictions(w.records, [], w.now) == {};
    assert RunContradictions(w.records, [s], w.now) == {} + Contradicted(merged, s) == Contradicted(merged, s);
    var all := w.contradicting + Contradicted(merged, s);
    var swept := Sweep(merged, s);
    assert MineSessions(w.records, [s], w.now) == swept;
    var drafted := Mine(w.records, [s], drafts, w.now);
    SameSessionsStayAttributed(swept, drafted, all);
    PassPointwise(d, drafted, w.codex, w.now);
    SameSessionsStayAttributed(drafted, Pass(d, drafted, w.codex, w.now).0, all);
  }

  lemma {:induction false} AttributionHolds(d: C.Decay, w: World, steps: seq<Step>)
    requires C.Lawful(d) && AllStanding(w.records) && NoEarlyStatus(w) && Attributed(w.records, w.contradicting)
    requires Legal(d, w, steps) && forall s :: s in steps ==> SingleSession(s)
    ensures Attributed(Execute(d, w, steps).records, Execute(d, w, steps).contradicting)
  {
    hide Attributed;
    hide AllStanding;
    if steps != [] {
      LegalPrefix(d, w, steps);
      var init, last := steps[..|steps| - 1], steps[|steps| - 1];
      var before := Execute(d, w, init);
      AttributionHolds(d, w, init);
      StandingHolds(d, w, init);
      match last
      case Run(sessions, drafts) =>
        assert SingleSession(last);
        assert sessions == [sessions[0]];
        SingleRunKeepsAttributed(d, before, sessions[0], drafts);
      case _ =>
    }
  }

  /**
   * With one session per run: an entry still graduated has at most two contradictions, none ever
   * exceeds three, so the session cap never evicts and the counter is the number of distinct
   * sessions that contradicted the candidate while it was graduated.
   */
  lemma ContradictionsStayFew(d: C.Decay, w: World, steps: seq<Step>, r: Record)
    requires C.Lawful(d) && Fresh(w)
    requires Legal(d, w, steps) && forall s :: s in steps ==> SingleSession(s)
    requires r in Execute(d, w, steps).records
    ensures r.contradiction <= 3 < CONTRADICTED_SESSIONS_CAP
    ensures r.status == Graduated ==> r.contradiction <= 2
    ensures Elements(r.contradictedSessions) == Observers(Execute(d, w, steps).contradicting, r.id)
    ensures r.contradiction == |Observers(Execute(d, w, steps).contradicting, r.id)|
    ensures r.status == Withdrawn ==> r.contradiction >= 1
  {
    StandingHolds(d, w, steps);
    AttributionHolds(d, w, steps);
    var end := Execute(d, w, steps);
    hide Execute;
    var i :| 0 <= i < |end.records| && end.records[i] == r;
    assert Standing(end.records[i]);
    DistinctLength(r.contradictedSessions);
  }

  /** Withdrawal needs a recorded contradiction: decay alone never withdraws, at any clock. */
  lemma DecayAloneNeverWithdraws(d: C.Decay, records: seq<Record>, codex: Option<Codex>, now: Time, i: nat)
    requires i < |records| && records[i].status == Graduated && records[i].contradiction == 0
    ensures |Pass(d, records, codex, now).0| == |records|
    ensures Pass(d, records, codex, now).0[i].status == Graduated
  {
    PassPointwise(d, records, codex, now);
  }

  /**
   * But a pass that records no new contradiction can withdraw: an old contradiction plus enough
   * silence is enough. The same record survives a pass while fresh.
   */
  lemma SilenceFinishesAContradictedEntry(d: C.Decay, r: Record, c: Codex, silence: Time)
    requires C.Lawful(d) && d.recency(silence) <= 0.5
    requires r.status == Graduated && r.occurrences == 7 && r.contradiction == 1
    ensures Pass(d, [r], Some(c), r.lastSeen).0[0].status == Graduated
    ensures Pass(d, [r], Some(c), r.lastSeen + silence).0[0].status == Withdrawn
  {
    C.DecayFinishesAnOldContradiction(d, silence);
    PassPointwise(d, [r], Some(c), r.lastSeen);
    PassPointwise(d, [r], Some(c), r.lastSeen + silence);
  }

  ghost predicate StaysGraduated(d: C.Decay, records: seq<Record>, c: Codex, i: nat, now: Time) {
    i < |Pass(d, records, Some(c), now).0| && Pass(d, records, Some(c), now).0[i].status == Graduated
  }

  /**
   * Exactly when silence is harmless: a graduated record survives a pass at every clock if and only
   * if no contradiction of it was ever recorded.
   */
  lemma SilenceIsHarmlessExactlyWithoutContradictions(d: C.Decay, records: seq<Record>, c: Codex, i: nat, silence: Time)
    requires C.Lawful(d) && d.recency(silence) <= 0.5
    requires i < |records| && records[i].status == Graduated
    ensures (forall now :: StaysGraduated(d, records, c, i, now)) <==> records[i].contradiction == 0
  {
    hide Pass;
    if records[i].contradiction == 0 {
      forall now ensures StaysGraduated(d, records, c, i, now) {
        DecayAloneNeverWithdraws(d, records, Some(c), now, i);
      }
    } else {
      var now := records[i].lastSeen + silence;
      C.HalvedRecencySinksTheContradicted(d, records[i].occurrences, silence, records[i].contradiction);
      PassPointwise(d, records, Some(c), now);
      assert PassMoves(d, records[i], Pass(d, records, Some(c), now).0[i], true, now);
      assert !StaysGraduated(d, records, c, i, now);
    }
  }

  // ----- Withdrawn is terminal -----

  ghost predicate WithdrawnStays(before: seq<Record>, after: seq<Record>) {
    && |before| <= |after|
    && forall i :: 0 <= i < |before| ==>
         before[i].id == after[i].id && (before[i].status == Withdrawn ==> after[i].status == Withdrawn)
  }

  lemma {:induction false} MergingIsTerminal(records: seq<Record>, mined: seq<Mined>, session: SessionId, now: Time)
    ensures WithdrawnStays(records, MergeBatch(records, mined, session, now))
  {
    if mined != [] {
      MergingIsTerminal(records, mined[..|mined| - 1], session, now);
    }
  }

  lemma {:induction false} MiningIsTerminal(records: seq<Record>, sessions: seq<Session>, now: Time)
    ensures WithdrawnStays(records, MineSessions(records, sessions, now))
  {
    if sessions != [] {
      var s := sessions[|sessions| - 1];
      MiningIsTerminal(records, sessions[..|sessions| - 1], now);
      MergingIsTerminal(MineSessions(records, sessions[..|sessions| - 1], now), s.mined, s.id, now);
    }
  }

  /** A withdrawn record never comes back, whatever is observed later. */
  lemma {:induction false} WithdrawnIsTerminal(d: C.Decay, w: World, steps: seq<Step>)
    ensures WithdrawnStays(w.records, Execute(d, w, steps).records)
  {
    if steps != [] {
      var before := Execute(d, w, steps[..|steps| - 1]);
      WithdrawnIsTerminal(d, w, steps[..|steps| - 1]);
      match steps[|steps| - 1]
      case Run(sessions, drafts) =>
        MiningIsTerminal(before.records, sessions, before.now);
        PassPointwise(d, Mine(before.records, sessions, drafts, before.now), before.codex, before.now);
      case _ =>
    }
  }

  // ----- The pass is idempotent -----

  /** A second look at this record changes nothing. */
  ghost predicate NothingToDo(d: C.Decay, r: Record, c: Codex, now: Time) {
    && r.confidence == ConfidenceOf(d, r, now)
    && !IsBelowWithdrawal(d, r, now)
    && !Graduates(d, r, c, now)
  }

  ghost predicate Extends(small: Codex, big: Codex) {
    && (forall e :: e in small.learned ==> e in big.learned)
    && (forall e :: e in small.pitfalls ==> e in big.pitfalls)
    && (forall e :: e in small.conventions ==> e in big.conventions)
  }

  lemma StillNotGraduating(d: C.Decay, r: Record, small: Codex, big: Codex, now: Time)
    requires Extends(small, big) && !Graduates(d, r, small, now)
    ensures !Graduates(d, r, big, now)
  {
  }

  /** No record is withdrawable before the graduation loop, and none is after it. */
  lemma {:induction false} GraduateAllSettles(d: C.Decay, records: seq<Record>, c: Codex, now: Time)
    requires forall i :: 0 <= i < |records| ==>
      records[i].confidence == ConfidenceOf(d, records[i], now) && !IsBelowWithdrawal(d, records[i], now)
    ensures var (out, after) := GraduateAll(d, records, c, now);
      Extends(c, after) && |out| == |records| && forall i :: 0 <= i < |out| ==> NothingToDo(d, out[i], after, now)
  {
    if records != [] {
      var n := |records| - 1;
      GraduateAllSettles(d, records[..n], c, now);
      var (out, before) := GraduateAll(d, records[..n], c, now);
      var after := GraduateAll(d, records, c, now).1;
      assert Extends(before, after);
      forall i | 0 <= i < n ensures !Graduates(d, out[i], after, now) {
        StillNotGraduating(d, out[i], before, after, now);
      }
    }
  }

  lemma {:induction false} SettledPassDoesNothing(d: C.Decay, records: seq<Record>, c: Codex, now: Time)
    requires forall i :: 0 <= i < |records| ==> NothingToDo(d, records[i], c, now)
    ensures WithdrawAll(d, records, c, now) == (records, c)
    ensures GraduateAll(d, records, c, now) == (records, c)
  {
    if records != [] {
      SettledPassDoesNothing(d, records[..|records| - 1], c, now);
      assert records == records[..|records| - 1] + [records[|records| - 1]];
    }
  }

  /** Running the pass again at the same clock changes neither records nor codex. */
  lemma PassIsIdempotent(d: C.Decay, records: seq<Record>, codex: Option<Codex>, now: Time)
    ensures var (after, edited) := Pass(d, records, codex, now);
            Pass(d, after, edited, now) == (after, edited)
  {
    var refreshed := WithConfidence(d, records, now);
    var (after, edited) := Pass(d, records, codex, now);
    if codex.Some? {
      WithdrawAllPointwise(d, refreshed, codex.value, now);
      var (kept, withdrawn) := WithdrawAll(d, refreshed, codex.value, now);
      GraduateAllSettles(d, kept, withdrawn, now);
      SettledPassDoesNothing(d, after, edited.value, now);
    }
    assert WithConfidence(d, after, now) == after;
  }
}
