/** What the contradiction counter counts, over runs of any number of sessions. */
module LifecycleContradictions {
  import opened Common
  import opened Candidates
  import opened Graduation
  import opened Lifecycle
  import opened LifecycleEvidence
  import C = Confidence

  /**
   * What a record keeps of the sessions that contradicted it: a duplicate-free sample of them, and,
   * while they are no more than twenty, exactly them, each counted once.
   */
  ghost predicate CountsOf(r: Record, contradictors: set<SessionId>) {
    && NoDuplicates(r.contradictedSessions)
    && Elements(r.contradictedSessions) <= contradictors
    && (|contradictors| <= 20 ==>
          Elements(r.contradictedSessions) == contradictors && r.contradiction == |r.contradictedSessions|)
  }

  ghost predicate Accounted(records: seq<Record>, contradicting: set<Observation>) {
    && UniqueIds(records)
    && (forall i :: 0 <= i < |records| ==> CountsOf(records[i], Observers(contradicting, records[i].id)))
    && (forall o :: o in contradicting ==> Find(records, o.id) < |records|)
  }

  lemma AppendedElements(s: seq<SessionId>, x: SessionId)
    ensures Elements(s + [x]) == Elements(s) + {x}
    ensures NoDuplicates(s) && x !in s ==> NoDuplicates(s + [x])
  {
  }

  lemma LastElements(s: seq<SessionId>, cap: nat)
    requires NoDuplicates(s)
    ensures NoDuplicates(TakeLast(s, cap)) && Elements(TakeLast(s, cap)) <= Elements(s)
    ensures |s| <= cap ==> TakeLast(s, cap) == s
  {
  }

  /** One session more: counted when it contradicts the record and was not counted yet. */
  lemma SweepCounts(r: Record, s: Session, contradictors: set<SessionId>)
    requires CountsOf(r, contradictors)
    ensures SweepRecord(r, s).id == r.id
    ensures CountsOf(SweepRecord(r, s),
                     contradictors + (if r.status == Graduated && Contradicts(r, s.evidence) then {s.id} else {}))
  {
    hide Contradicts;
    var kept := r.contradictedSessions;
    if r.status == Graduated && Contradicts(r, s.evidence) {
      if s.id in kept {
        assert s.id in Elements(kept);
        assert contradictors + {s.id} == contradictors;
      } else {
        NewContradictor(r, s.id, contradictors);
      }
    } else {
      assert contradictors + {} == contradictors;
    }
  }

  lemma NewContradictor(r: Record, session: SessionId, contradictors: set<SessionId>)
    requires CountsOf(r, contradictors) && session !in r.contradictedSessions
    ensures CountsOf(r.(contradiction := r.contradiction + 1,
                        contradictedSessions := TakeLast(r.contradictedSessions + [session], CONTRADICTED_SESSIONS_CAP)),
                     contradictors + {session})
  {
    var kept := r.contradictedSessions;
    AppendedElements(kept, session);
    LastElements(kept + [session], 20);
    var all := contradictors + {session};
    SubsetSize(contradictors, all);
    DistinctLength(kept);
    hide TakeLast;
    hide NoDuplicates;
    if |all| <= 20 {
      assert Elements(kept) == contradictors && session !in contradictors;
      assert |all| == |contradictors| + 1;
    }
  }

  lemma SweepAccounts(records: seq<Record>, s: Session, contradicting: set<Observation>)
    requires Accounted(records, contradicting)
    ensures Accounted(Sweep(records, s), contradicting + Contradicted(records, s))
  {
    hide Observers;
    hide SweepRecord;
    hide CountsOf;
    hide Contradicts;
    var after, all := Sweep(records, s), contradicting + Contradicted(records, s);
    forall i | 0 <= i < |after|
      ensures after[i].id == records[i].id
      ensures CountsOf(after[i], Observers(all, after[i].id))
    {
      SweepCounts(records[i], s, Observers(contradicting, records[i].id));
      ContradictedObservers(records, s, contradicting, i);
    }
    forall o | o in all ensures Find(after, o.id) < |after| {
      var i :| 0 <= i < |records| && records[i].id == o.id;
      assert after[i].id == o.id;
    }
  }

  lemma MergeOneAccounts(records: seq<Record>, m: Mined, session: SessionId, now: Time, contradicting: set<Observation>)
    requires Accounted(records, contradicting)
    ensures Accounted(MergeOne(records, m, session, now), contradicting)
  {
    hide Observers;
    hide Refreshed;
    hide CountsOf;
    var next, i := MergeOne(records, m, session, now), Find(records, m.id);
    if i == |records| {
      NobodyObserved(contradicting, records, m.id);
      NothingCounted(next[i]);
    } else {
      RefreshedCounts(records[i], m, session, now, Observers(contradicting, m.id));
    }
    assert forall k :: 0 <= k < |records| && k != i ==> next[k] == records[k];
    forall o | o in contradicting ensures Find(next, o.id) < |next| {
      assert next[Find(records, o.id)].id == o.id;
    }
  }

  lemma NothingCounted(r: Record)
    requires r.contradiction == 0 && r.contradictedSessions == []
    ensures CountsOf(r, {})
  {
  }

  lemma RefreshedCounts(r: Record, m: Mined, session: SessionId, now: Time, contradictors: set<SessionId>)
    requires CountsOf(r, contradictors)
    ensures CountsOf(Refreshed(r, m, session, now), contradictors) && Refreshed(r, m, session, now).id == r.id
  {
  }

  lemma {:induction false} MergingAccounts(
    records: seq<Record>, mined: seq<Mined>, session: SessionId, now: Time, contradicting: set<Observation>)
    requires Accounted(records, contradicting)
    ensures Accounted(MergeBatch(records, mined, session, now), contradicting)
  {
    hide Accounted;
    if mined != [] {
      var init := mined[..|mined| - 1];
      MergingAccounts(records, init, session, now, contradicting);
      MergeOneAccounts(MergeBatch(records, init, session, now), mined[|mined| - 1], session, now, contradicting);
    }
  }

  lemma {:induction false} MiningAccounts(records: seq<Record>, sessions: seq<Session>, now: Time, contradicting: set<Observation>)
    requires Accounted(records, contradicting)
    ensures Accounted(MineSessions(records, sessions, now), contradicting + RunContradictions(records, sessions, now))
  {
    hide Accounted;
    hide MergeBatch;
    hide Sweep;
    hide Contradicted;
    if sessions == [] {
      assert contradicting + {} == contradicting;
    } else {
      var init, s := sessions[..|sessions| - 1], sessions[|sessions| - 1];
      MiningAccounts(records, init, now, contradicting);
      var mined, all := MineSessions(records, init, now), contradicting + RunContradictions(records, init, now);
      var merged := MergeBatch(mined, s.mined, s.id, now);
      MergingAccounts(mined, s.mined, s.id, now, all);
      SweepAccounts(merged, s, all);
      assert all + Contradicted(merged, s) == contradicting + RunContradictions(records, sessions, now);
    }
  }

  /** Drafting and the pass leave ids and counters alone. */
  lemma SameCountsStayAccounted(a: seq<Record>, b: seq<Record>, contradicting: set<Observation>)
    requires Accounted(a, contradicting) && |a| == |b|
    requires forall i :: 0 <= i < |a| ==>
      a[i].id == b[i].id && a[i].contradiction == b[i].contradiction && a[i].contradictedSessions == b[i].contradictedSessions
    ensures Accounted(b, contradicting)
  {
    hide Observers;
    forall i | 0 <= i < |b| ensures CountsOf(b[i], Observers(contradicting, b[i].id)) {
      assert CountsOf(a[i], Observers(contradicting, a[i].id));
    }
    forall o | o in contradicting ensures Find(b, o.id) < |b| {
      assert b[Find(a, o.id)].id == o.id;
    }
  }

  lemma RunAccounts(d: C.Decay, w: World, sessions: seq<Session>, drafts: map<CandidateId, string>)
    requires Accounted(w.records, w.contradicting)
    ensures var after := Next(d, w, Run(sessions, drafts));
            Accounted(after.records, after.contradicting)
  {
    MiningAccounts(w.records, sessions, w.now, w.contradicting);
    var all := w.contradicting + RunContradictions(w.records, sessions, w.now);
    var mined, drafted := MineSessions(w.records, sessions, w.now), Mine(w.records, sessions, drafts, w.now);
    hide Accounted;
    hide MineSessions;
    hide RunContradictions;
    SameCountsStayAccounted(mined, drafted, all);
    PassPointwise(d, drafted, w.codex, w.now);
    hide Mine;
    hide Pass;
    SameCountsStayAccounted(drafted, Pass(d, drafted, w.codex, w.now).0, all);
  }

  lemma {:induction false} RunsAccount(d: C.Decay, w: World, steps: seq<Step>)
    requires Accounted(w.records, w.contradicting)
    ensures Accounted(Execute(d, w, steps).records, Execute(d, w, steps).contradicting)
  {
    hide Accounted;
    if steps != [] {
      var init, last := steps[..|steps| - 1], steps[|steps| - 1];
      RunsAccount(d, w, init);
      match last
      case Run(sessions, drafts) => RunAccounts(d, Execute(d, w, init), sessions, drafts);
      case _ =>
    }
  }

  /**
   * Over every interleaving, runs of any number of sessions and cut ones included: while no more
   * than twenty sessions of completed runs contradicted a candidate as it was graduated, its record
   * remembers exactly these, and its counter is their number. Beyond that it remembers only such.
   */
  lemma ContradictionsCountSessions(d: C.Decay, w: World, steps: seq<Step>, r: Record)
    requires Fresh(w) && r in Execute(d, w, steps).records
    ensures var contradictors := Observers(Execute(d, w, steps).contradicting, r.id);
      && Elements(r.contradictedSessions) <= contradictors
      && (|contradictors| <= 20 ==>
            Elements(r.contradictedSessions) == contradictors && r.contradiction == |contradictors|)
  {
    RunsAccount(d, w, steps);
    var end := Execute(d, w, steps);
    hide Execute;
    var i :| 0 <= i < |end.records| && end.records[i] == r;
    assert CountsOf(end.records[i], Observers(end.contradicting, r.id));
    DistinctLength(r.contradictedSessions);
    hide Observers;
  }
}
