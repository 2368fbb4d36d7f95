/**
 * Candidate records and the merge of one session's mined candidates
 * (`mergeCandidates`, packages/sidecar/src/graduation.ts).
 */
module Candidates {
  import opened Common

  type Time = nat
  type SessionId = string

  datatype Kind = ErrorFix | ZoomHotspot | Recurrence

  /** `candidateId` hashes type and key; ids are the pair itself, so they never collide. */
  datatype CandidateId = CandidateId(kind: Kind, key: string)

  /** The `details` fields the pass reads. A query is given as its identifier tokens. */
  datatype Details = Details(
    queries: Option<seq<seq<string>>>,
    target: string,
    targetIsFile: bool,
    errorSignature: Option<string>,
    fixSummary: string
  )

  datatype Mined = Mined(id: CandidateId, signature: string, details: Details)

  datatype Status = Candidate | Graduated | Withdrawn

  datatype Record = Record(
    id: CandidateId,
    signature: string,
    lesson: Option<string>,
    firstSeen: Time,
    lastSeen: Time,
    occurrences: nat,
    contradiction: nat,
    contradictedSessions: seq<SessionId>,
    status: Status,
    confidence: real,
    graduatedAt: Option<Time>,
    withdrawnAt: Option<Time>,
    minedSessions: seq<SessionId>,
    details: Details
  )

  const MINED_SESSIONS_CAP := 50

  /** `s.slice(-cap)` */
  function TakeLast<T>(s: seq<T>, cap: nat): seq<T> {
    if |s| <= cap then s else s[|s| - cap..]
  }

  function NewRecord(m: Mined, session: SessionId, now: Time): Record {
    Record(m.id, m.signature, None, now, now, 1, 0, [], Candidate, 0.0, None, None, [session], m.details)
  }

  /** Queried symbols accumulate when both sides carry a list; every other detail is replaced. */
  function MergedDetails(prior: Details, update: Details): Details {
    if prior.queries.Some? && update.queries.Some?
    then update.(queries := Some(Distinct(prior.queries.value + update.queries.value)))
    else update
  }

  function Refreshed(r: Record, m: Mined, session: SessionId, now: Time): Record {
    r.(minedSessions := TakeLast(Distinct(r.minedSessions + [session]), MINED_SESSIONS_CAP),
       details := MergedDetails(r.details, m.details),
       lastSeen := now,
       occurrences := if session in r.minedSessions then r.occurrences else r.occurrences + 1)
  }

  /** Position of the record with this id, or the length when there is none. */
  function Find(records: seq<Record>, id: CandidateId): (i: nat)
    ensures i <= |records|
    ensures i < |records| ==> records[i].id == id
    ensures forall j :: 0 <= j < i ==> records[j].id != id
  {
    if records == [] || records[0].id == id then 0 else 1 + Find(records[1..], id)
  }

  function MergeOne(records: seq<Record>, m: Mined, session: SessionId, now: Time): seq<Record> {
    var i := Find(records, m.id);
    if i == |records| then records + [NewRecord(m, session, now)]
    else records[i := Refreshed(records[i], m, session, now)]
  }

  function MergeBatch(records: seq<Record>, mined: seq<Mined>, session: SessionId, now: Time): seq<Record> {
    if mined == [] then records
    else MergeOne(MergeBatch(records, mined[..|mined| - 1], session, now), mined[|mined| - 1], session, now)
  }

  /** How many of a batch's candidates re-observed a record already seen in another session. */
  function MergedCount(records: seq<Record>, mined: seq<Mined>, session: SessionId, now: Time): nat {
    if mined == [] then 0
    else
      var before := MergeBatch(records, mined[..|mined| - 1], session, now);
      var i := Find(before, mined[|mined| - 1].id);
      MergedCount(records, mined[..|mined| - 1], session, now)
      + (if i < |before| && session !in before[i].minedSessions then 1 else 0)
  }

  /** The persistent record list the miner mutates. */
  class CandidateList {
    var records: seq<Record>

    constructor (initial: seq<Record>)
      ensures records == initial
    {
      records := initial;
    }

    method MergeCandidates(mined: seq<Mined>, session: SessionId, now: Time) returns (merged: nat, skipped: nat)
      modifies this
      ensures records == MergeBatch(old(records), mined, session, now)
      ensures merged == MergedCount(old(records), mined, session, now)
      ensures merged + skipped <= |mined|
      ensures |records| == |old(records)| + |mined| - merged - skipped
    {
      merged, skipped := 0, 0;
      for n := 0 to |mined|
        invariant records == MergeBatch(old(records), mined[..n], session, now)
        invariant merged == MergedCount(old(records), mined[..n], session, now)
        invariant merged + skipped <= n
        invariant |records| == |old(records)| + n - merged - skipped
      {
        assert mined[..n + 1][..n] == mined[..n];
        var candidate := mined[n];
        var i := Find(records, candidate.id);
        if i == |records| {
          records := records + [NewRecord(candidate, session, now)];
        } else {
          var sameSession := session in records[i].minedSessions;
          records := records[i := Refreshed(records[i], candidate, session, now)];
          if sameSession {
            skipped := skipped + 1;
          } else {
            merged := merged + 1;
          }
        }
      }
      assert mined[..|mined|] == mined;
    }
  }

  // ----- One more candidate of a batch -----

  /** The queries a record accumulates: both lists, each query once; without two lists, the newer details stand. */
  ghost predicate Accumulates(prior: Details, update: Details, merged: Details) {
    && merged == update.(queries := merged.queries)
    && match (prior.queries, update.queries)
       case (Some(old_), Some(new_)) => merged.queries == Some(Distinct(old_ + new_))
       case _ => merged.queries == update.queries
  }

  /** At most the fifty latest of the sessions remembered, this one among them. */
  ghost predicate RemembersSession(before: seq<SessionId>, session: SessionId, after: seq<SessionId>) {
    var all := Distinct(before + [session]);
    if |all| <= 50 then after == all else |after| == 50 && exists older :: all == older + after
  }

  /** A known record seen again: counted once more in a session it does not remember; what it was and what contradicted it stay. */
  ghost predicate SeenAgain(before: Record, m: Mined, session: SessionId, now: Time, after: Record) {
    && after == before.(minedSessions := after.minedSessions, details := after.details, lastSeen := now, occurrences := after.occurrences)
    && after.occurrences == before.occurrences + (if session in before.minedSessions then 0 else 1)
    && RemembersSession(before.minedSessions, session, after.minedSessions)
    && Accumulates(before.details, m.details, after.details)
  }

  /**
   * One more candidate: without a record it gets one, seen now, once, by this session, never
   * contradicted and not graduated; otherwise its first record is seen again and no other changes.
   */
  lemma OneMoreCandidate(records: seq<Record>, mined: seq<Mined>, m: Mined, session: SessionId, now: Time)
    ensures MergeBatch(records, [], session, now) == records
    ensures var (before, after) := (MergeBatch(records, mined, session, now), MergeBatch(records, mined + [m], session, now));
      if forall i :: 0 <= i < |before| ==> before[i].id != m.id then
        after == before + [Record(m.id, m.signature, None, now, now, 1, 0, [], Candidate, 0.0, None, None, [session], m.details)]
      else
        exists i :: 0 <= i < |before| == |after| && before[i].id == m.id && (forall j :: 0 <= j < i ==> before[j].id != m.id)
          && after == before[i := after[i]] && SeenAgain(before[i], m, session, now, after[i])
  {
    assert (mined + [m])[..|mined|] == mined;
    var before := MergeBatch(records, mined, session, now);
    hide Distinct;
    if Find(before, m.id) < |before| {
      RefreshedIsSeenAgain(before[Find(before, m.id)], m, session, now);
    }
    hide Refreshed;
    hide SeenAgain;
  }

  ghost predicate FirstRecordOf(records: seq<Record>, id: CandidateId, i: nat) {
    i < |records| && records[i].id == id && forall j :: 0 <= j < i ==> records[j].id != id
  }

  /** It counts as merged exactly when it has a record that does not remember the session. */
  lemma OneMoreMerged(records: seq<Record>, mined: seq<Mined>, m: Mined, session: SessionId, now: Time)
    ensures MergedCount(records, [], session, now) == 0
    ensures var before := MergeBatch(records, mined, session, now);
      MergedCount(records, mined + [m], session, now) == MergedCount(records, mined, session, now)
      + (if exists i: nat :: FirstRecordOf(before, m.id, i) && session !in before[i].minedSessions then 1 else 0)
  {
    var all, before := mined + [m], MergeBatch(records, mined, session, now);
    assert all[..|all| - 1] == mined && all[|all| - 1] == m;
    assert MergedCount(records, [], session, now) == 0;
    hide MergeBatch;
    MergedCountOfLast(records, all, session, now);
    hide MergedCount;
    FindIsFirst(before, m.id);
    hide FirstRecordOf;
    hide Find;
    var known := Find(before, m.id) < |before| && session !in before[Find(before, m.id)].minedSessions;
    assert known <==> exists i: nat :: FirstRecordOf(before, m.id, i) && session !in before[i].minedSessions;
  }

  lemma MergedCountOfLast(records: seq<Record>, mined: seq<Mined>, session: SessionId, now: Time)
    requires mined != []
    ensures var init := mined[..|mined| - 1];
      var before := MergeBatch(records, init, session, now);
      var i := Find(before, mined[|mined| - 1].id);
      MergedCount(records, mined, session, now) == MergedCount(records, init, session, now)
      + (if i < |before| && session !in before[i].minedSessions then 1 else 0)
  {
    hide MergeBatch;
    hide Find;
  }

  lemma FindIsFirst(records: seq<Record>, id: CandidateId)
    ensures forall i: nat :: FirstRecordOf(records, id, i) <==> i == Find(records, id) && i < |records|
  {
  }

  lemma RefreshedIsSeenAgain(r: Record, m: Mined, session: SessionId, now: Time)
    ensures SeenAgain(r, m, session, now, Refreshed(r, m, session, now))
  {
    hide Distinct;
    var all := Distinct(r.minedSessions + [session]);
    if |all| > 50 {
      assert all == all[..|all| - 50] + TakeLast(all, 50);
    }
  }

  // ----- Observations: which session observed which candidate -----

  datatype Observation = Observation(session: SessionId, id: CandidateId)

  function Observers(seen: set<Observation>, id: CandidateId): set<SessionId> {
    set o | o in seen && o.id == id :: o.session
  }

  ghost predicate UniqueIds(records: seq<Record>) {
    forall i, j :: 0 <= i < j < |records| ==> records[i].id != records[j].id
  }

  /**
   * What a record remembers of its observers, under the cap or not: a duplicate-free sample of
   * them, and never a second occurrence without a second session. Below the cap it is exact.
   */
  ghost predicate Remembers(r: Record, observers: set<SessionId>) {
    && r.occurrences >= 1
    && r.minedSessions != []
    && NoDuplicates(r.minedSessions)
    && (forall s :: s in r.minedSessions ==> s in observers)
    && (r.occurrences >= 2 ==> |observers| >= 2)
    && (|observers| <= MINED_SESSIONS_CAP ==>
          r.occurrences == |observers| && forall s :: s in observers ==> s in r.minedSessions)
  }

  ghost predicate AllRemember(records: seq<Record>, seen: set<Observation>) {
    forall i :: 0 <= i < |records| ==> Remembers(records[i], Observers(seen, records[i].id))
  }

  /** Every observed candidate has a record. */
  ghost predicate Covers(records: seq<Record>, seen: set<Observation>) {
    forall o :: o in seen ==> Find(records, o.id) < |records|
  }

  lemma ObserversGrow(seen: set<Observation>, o: Observation, id: CandidateId)
    ensures Observers(seen + {o}, id) == Observers(seen, id) + (if o.id == id then {o.session} else {})
  {
    forall s | s in Observers(seen, id) ensures s in Observers(seen + {o}, id) {
      assert Observation(s, id) in seen + {o};
    }
    if o.id == id {
      assert o in seen + {o};
    }
  }

  /** Re-observation in a session already remembered changes no count; a new one adds exactly one. */
  lemma RefreshRemembers(r: Record, m: Mined, session: SessionId, now: Time, observers: set<SessionId>)
    requires Remembers(r, observers)
    ensures Remembers(Refreshed(r, m, session, now), observers + {session})
  {
    hide Distinct;
    hide TakeLast;
    if session in r.minedSessions {
      KnownSessionRemembers(r, m, session, now, observers);
    } else {
      NewSessionRemembers(r, m, session, now, observers);
    }
  }

  lemma KnownSessionRemembers(r: Record, m: Mined, session: SessionId, now: Time, observers: set<SessionId>)
    requires Remembers(r, observers) && session in r.minedSessions
    ensures Remembers(Refreshed(r, m, session, now), observers + {session})
  {
    hide Distinct;
    hide TakeLast;
    DistinctOfKnown(r.minedSessions, session);
    CapUnused(r.minedSessions, observers);
    LastOfDistinct(r.minedSessions, MINED_SESSIONS_CAP);
    assert observers + {session} == observers;
  }

  lemma NewSessionRemembers(r: Record, m: Mined, session: SessionId, now: Time, observers: set<SessionId>)
    requires Remembers(r, observers) && session !in r.minedSessions
    ensures Remembers(Refreshed(r, m, session, now), observers + {session})
  {
    hide Distinct;
    hide TakeLast;
    var sessions, all := r.minedSessions + [session], observers + {session};
    DistinctIdentity(sessions);
    LastOfDistinct(sessions, MINED_SESSIONS_CAP);
    CapUnused(sessions, all);
    assert sessions[0] in observers && sessions[0] != session;
    SubsetSize({sessions[0], session}, all);
    SubsetSize(observers, all);
    if |all| <= MINED_SESSIONS_CAP {
      assert session !in observers;
      assert |all| == |observers| + 1;
    }
  }

  lemma DistinctOfKnown<T(!new)>(s: seq<T>, x: T)
    requires NoDuplicates(s) && x in s
    ensures Distinct(s + [x]) == s
  {
    DistinctIdentity(s);
    assert (s + [x])[..|s|] == s;
  }

  lemma CapUnused(sessions: seq<SessionId>, observers: set<SessionId>)
    requires NoDuplicates(sessions) && forall s :: s in sessions ==> s in observers
    ensures |observers| <= MINED_SESSIONS_CAP ==> TakeLast(sessions, MINED_SESSIONS_CAP) == sessions
  {
    DistinctLength(sessions);
    SubsetSize(Elements(sessions), observers);
  }

  lemma LastOfDistinct<T>(s: seq<T>, cap: nat)
    requires NoDuplicates(s) && s != [] && cap > 0
    ensures TakeLast(s, cap) != [] && NoDuplicates(TakeLast(s, cap))
    ensures forall x :: x in TakeLast(s, cap) ==> x in s
  {
  }

  lemma FindUnique(records: seq<Record>, i: nat)
    requires UniqueIds(records) && i < |records|
    ensures Find(records, records[i].id) == i
  {
  }

  /** One record per observed candidate, each remembering its observers. */
  ghost predicate Consistent(records: seq<Record>, seen: set<Observation>) {
    UniqueIds(records) && AllRemember(records, seen) && Covers(records, seen)
  }

  /** One merged candidate keeps the list consistent, its observation added. */
  lemma MergeOneKeeps(records: seq<Record>, seen: set<Observation>, m: Mined, session: SessionId, now: Time)
    requires Consistent(records, seen)
    ensures Consistent(MergeOne(records, m, session, now), seen + {Observation(session, m.id)})
  {
    var o := Observation(session, m.id);
    var next := MergeOne(records, m, session, now);
    var i := Find(records, m.id);
    assert i == |records| ==> Observers(seen, m.id) == {};
    forall k | 0 <= k < |next| ensures Remembers(next[k], Observers(seen + {o}, next[k].id)) {
      ObserversGrow(seen, o, next[k].id);
      if k == i && i < |records| {
        RefreshRemembers(records[i], m, session, now, Observers(seen, m.id));
      } else if k == |records| {
        assert next[k].minedSessions == [session];
        assert Observers(seen + {o}, m.id) == {session};
      }
    }
    FindUnique(next, i);
    forall p | p in seen + {o} ensures Find(next, p.id) < |next| {
      if p != o {
        assert next[Find(records, p.id)].id == p.id;
      }
    }
  }

  // ----- Histories of batches -----

  datatype Batch = Batch(session: SessionId, mined: seq<Mined>, now: Time)

  function Replay(history: seq<Batch>): seq<Record> {
    if history == [] then []
    else
      var b := history[|history| - 1];
      MergeBatch(Replay(history[..|history| - 1]), b.mined, b.session, b.now)
  }

  function BatchObservations(b: Batch): set<Observation> {
    set m | m in b.mined :: Observation(b.session, m.id)
  }

  function Seen(history: seq<Batch>): set<Observation> {
    if history == [] then {}
    else Seen(history[..|history| - 1]) + BatchObservations(history[|history| - 1])
  }

  lemma {:induction false} MergeBatchKeeps(records: seq<Record>, seen: set<Observation>, b: Batch)
    requires Consistent(records, seen)
    ensures Consistent(MergeBatch(records, b.mined, b.session, b.now), seen + BatchObservations(b))
    decreases |b.mined|
  {
    hide Consistent;
    hide BatchObservations;
    if b.mined == [] {
      NoObservations(b);
      assert seen + {} == seen;
    } else {
      var init, m := b.(mined := b.mined[..|b.mined| - 1]), b.mined[|b.mined| - 1];
      MergeBatchKeeps(records, seen, init);
      MergeOneKeeps(MergeBatch(records, init.mined, b.session, b.now), seen + BatchObservations(init), m, b.session, b.now);
      ObservationsSnoc(b);
      assert seen + BatchObservations(init) + {Observation(b.session, m.id)} == seen + BatchObservations(b);
    }
  }

  lemma NoObservations(b: Batch)
    requires b.mined == []
    ensures BatchObservations(b) == {}
  {
  }

  lemma ObservationsSnoc(b: Batch)
    requires b.mined != []
    ensures var init := b.(mined := b.mined[..|b.mined| - 1]);
            BatchObservations(b) == BatchObservations(init) + {Observation(b.session, b.mined[|b.mined| - 1].id)}
  {
    assert b.mined == b.mined[..|b.mined| - 1] + [b.mined[|b.mined| - 1]];
  }

  lemma {:induction false} ReplayKeeps(history: seq<Batch>)
    ensures Consistent(Replay(history), Seen(history))
  {
    if history != [] {
      var init, last := history[..|history| - 1], history[|history| - 1];
      ReplayKeeps(init);
      MergeBatchKeeps(Replay(init), Seen(init), last);
    }
  }

  /** How often a history observed a candidate, as its record counts it. */
  function OccurrencesOf(records: seq<Record>, id: CandidateId): nat {
    var i := Find(records, id);
    if i < |records| then records[i].occurrences else 0
  }

  /** A candidate within the cap has one record, counting its distinct observing sessions. */
  lemma OccurrencesCountSessions(history: seq<Batch>, id: CandidateId)
    requires |Observers(Seen(history), id)| <= MINED_SESSIONS_CAP
    ensures UniqueIds(Replay(history))
    ensures OccurrencesOf(Replay(history), id) == |Observers(Seen(history), id)|
  {
    ReplayKeeps(history);
    var records := Replay(history);
    if Find(records, id) == |records| {
      assert Observers(Seen(history), id) == {};
    }
  }

  /** Order and repetition of batches never change a count: only who observed what does. */
  lemma OrderAndRerunsDoNotMatter(a: seq<Batch>, b: seq<Batch>, id: CandidateId)
    requires Seen(a) == Seen(b)
    requires |Observers(Seen(a), id)| <= MINED_SESSIONS_CAP
    ensures OccurrencesOf(Replay(a), id) == OccurrencesOf(Replay(b), id)
  {
    OccurrencesCountSessions(a, id);
    OccurrencesCountSessions(b, id);
  }

  lemma {:induction false} SeenIsMembership(history: seq<Batch>)
    ensures forall o :: o in Seen(history) <==> exists b :: b in history && o in BatchObservations(b)
  {
    if history != [] {
      var init, last := history[..|history| - 1], history[|history| - 1];
      SeenIsMembership(init);
      assert history == init + [last];
      assert forall b :: b in history <==> b in init || b == last;
    }
  }

  /** Replaying any shuffled or repeated form of the same batches counts the same. */
  lemma SameBatchesSameCounts(a: seq<Batch>, b: seq<Batch>, id: CandidateId)
    requires forall x :: x in a <==> x in b
    requires |Observers(Seen(a), id)| <= MINED_SESSIONS_CAP
    ensures OccurrencesOf(Replay(a), id) == OccurrencesOf(Replay(b), id)
  {
    SeenIsMembership(a);
    SeenIsMembership(b);
    assert Seen(a) == Seen(b);
    OrderAndRerunsDoNotMatter(a, b, id);
  }
}
