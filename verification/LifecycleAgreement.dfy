/**
 * Records and codex agree after every complete step: a record is graduated exactly when it owns
 * its entry, except withdrawn records whose entry a human locked.
 */
module LifecycleAgreement {
  import opened Common
  import opened Candidates
  import opened Graduation
  import opened Lifecycle
  import C = Confidence

  ghost predicate Agrees(r: Record, c: Codex) {
    match r.status
    case Candidate => Owned(c, r.id) == 0
    case Graduated => Owned(c, r.id) == 1
    case Withdrawn => OnlyLocked(c, r.id)
  }

  ghost predicate Absent(records: seq<Record>, id: CandidateId) {
    forall i :: 0 <= i < |records| ==> records[i].id != id
  }

  /** Every record agrees with the codex, which holds no entry of an unknown candidate. */
  ghost predicate AllAgree(records: seq<Record>, c: Codex) {
    && UniqueIds(records)
    && (forall i :: 0 <= i < |records| ==> Agrees(records[i], c))
    && (forall id :: Absent(records, id) ==> Owned(c, id) == 0)
  }

  // ----- Rewriting records without touching ids or status -----

  ghost predicate SameStanding(a: seq<Record>, b: seq<Record>) {
    |a| == |b| && forall i :: 0 <= i < |a| ==> a[i].id == b[i].id && a[i].status == b[i].status
  }

  lemma StandingDecides(a: seq<Record>, b: seq<Record>, c: Codex)
    requires SameStanding(a, b) && AllAgree(a, c)
    ensures AllAgree(b, c)
  {
    forall id | Absent(b, id) ensures Owned(c, id) == 0 {
      assert Absent(a, id);
    }
  }

  lemma MergeOneAgrees(records: seq<Record>, m: Mined, session: SessionId, now: Time, c: Codex)
    requires AllAgree(records, c)
    ensures AllAgree(MergeOne(records, m, session, now), c)
  {
    var next := MergeOne(records, m, session, now);
    if Find(records, m.id) == |records| {
      assert Absent(records, m.id);
      forall id | Absent(next, id) ensures Owned(c, id) == 0 {
        forall i | 0 <= i < |records| ensures records[i].id != id {
          assert next[i].id != id;
        }
        assert Absent(records, id);
      }
    } else {
      StandingDecides(records, next, c);
    }
  }

  lemma {:induction false} MergeBatchAgrees(records: seq<Record>, mined: seq<Mined>, session: SessionId, now: Time, c: Codex)
    requires AllAgree(records, c)
    ensures AllAgree(MergeBatch(records, mined, session, now), c)
  {
    if mined != [] {
      MergeBatchAgrees(records, mined[..|mined| - 1], session, now, c);
      MergeOneAgrees(MergeBatch(records, mined[..|mined| - 1], session, now), mined[|mined| - 1], session, now, c);
    }
  }

  lemma {:induction false} MineSessionsAgrees(records: seq<Record>, sessions: seq<Session>, now: Time, c: Codex)
    requires AllAgree(records, c)
    ensures AllAgree(MineSessions(records, sessions, now), c)
  {
    if sessions != [] {
      var s := sessions[|sessions| - 1];
      var before := MineSessions(records, sessions[..|sessions| - 1], now);
      MineSessionsAgrees(records, sessions[..|sessions| - 1], now, c);
      MergeBatchAgrees(before, s.mined, s.id, now, c);
      var merged := MergeBatch(before, s.mined, s.id, now);
      StandingDecides(merged, Sweep(merged, s), c);
    }
  }

  lemma MineAgrees(records: seq<Record>, sessions: seq<Session>, drafts: map<CandidateId, string>, now: Time, c: Codex)
    requires AllAgree(records, c)
    ensures AllAgree(Mine(records, sessions, drafts, now), c)
  {
    MineSessionsAgrees(records, sessions, now, c);
    StandingDecides(MineSessions(records, sessions, now), Mine(records, sessions, drafts, now), c);
  }

  // ----- One record and the codex move together -----

  /** The codex changed for `id` only. */
  ghost predicate ChangedOnlyFor(before: Codex, after: Codex, id: CandidateId) {
    forall other :: other != id ==>
      Owned(after, other) == Owned(before, other) && (OnlyLocked(before, other) ==> OnlyLocked(after, other))
  }

  lemma MoveOne(records: seq<Record>, n: nat, moved: Record, before: Codex, after: Codex)
    requires n < |records| && AllAgree(records, before)
    requires moved.id == records[n].id && ChangedOnlyFor(before, after, moved.id)
    requires Agrees(moved, after)
    ensures AllAgree(records[n := moved], after)
  {
    var next := records[n := moved];
    forall i | 0 <= i < |next| ensures Agrees(next[i], after) {
      assert Agrees(records[i], before);
      assert i != n ==> records[i].id != moved.id;
    }
    forall id | Absent(next, id) ensures Owned(after, id) == 0 {
      assert next[n].id != id;
      forall i | 0 <= i < |records| ensures records[i].id != id {
        assert next[i].id != id;
      }
      assert Absent(records, id);
    }
  }

  lemma WithdrawOneAgrees(d: C.Decay, records: seq<Record>, n: nat, c: Codex, now: Time)
    requires n < |records| && AllAgree(records, c) && IsBelowWithdrawal(d, records[n], now)
    ensures AllAgree(records[n := WithdrawRecord(d, records[n], now)], WithdrawFromCodex(c, records[n].id))
  {
    var id := records[n].id;
    forall other | other != id
      ensures Owned(WithdrawFromCodex(c, id), other) == Owned(c, other)
      ensures OnlyLocked(c, other) ==> OnlyLocked(WithdrawFromCodex(c, id), other)
    {
      WithdrawOwnership(c, id, other);
    }
    WithdrawOwnership(c, id, id);
    MoveOne(records, n, WithdrawRecord(d, records[n], now), c, WithdrawFromCodex(c, id));
  }

  lemma GraduateOneAgrees(d: C.Decay, records: seq<Record>, n: nat, c: Codex, now: Time)
    requires n < |records| && AllAgree(records, c) && Graduates(d, records[n], c, now)
    ensures AllAgree(records[n := records[n].(status := Graduated, graduatedAt := Some(now))], GraduateIntoCodex(records[n], c, now))
  {
    var r := records[n];
    var after := GraduateIntoCodex(r, c, now);
    forall other | other != r.id
      ensures Owned(after, other) == Owned(c, other)
      ensures OnlyLocked(c, other) ==> OnlyLocked(after, other)
    {
      GraduateOwnership(d, r, c, now, other);
    }
    GraduateOwnership(d, r, c, now, r.id);
    MoveOne(records, n, r.(status := Graduated, graduatedAt := Some(now)), c, after);
  }

  // ----- The loops -----

  lemma {:induction false} WithdrawAllAgrees(d: C.Decay, records: seq<Record>, n: nat, c: Codex, now: Time)
    requires n <= |records| && AllAgree(records, c)
    ensures var (done, after) := WithdrawAll(d, records[..n], c, now);
            |done| == n && AllAgree(done + records[n..], after)
  {
    hide AllAgree;
    if n == 0 {
      assert [] + records[0..] == records;
    } else {
      WithdrawAllAgrees(d, records, n - 1, c, now);
      var r := records[n - 1];
      assert records[..n] == records[..n - 1] + [r];
      WithdrawAllSnoc(d, records[..n - 1], r, c, now);
      var (done, before) := WithdrawAll(d, records[..n - 1], c, now);
      var working := done + records[n - 1..];
      assert working[n - 1 := WithdrawRecord(d, r, now)] == done + [WithdrawRecord(d, r, now)] + records[n..];
      if IsBelowWithdrawal(d, r, now) {
        WithdrawOneAgrees(d, working, n - 1, before, now);
      } else {
        assert working == done + [r] + records[n..];
      }
    }
  }

  lemma {:induction false} GraduateAllAgrees(d: C.Decay, records: seq<Record>, n: nat, c: Codex, now: Time)
    requires n <= |records| && AllAgree(records, c)
    ensures var (done, after) := GraduateAll(d, records[..n], c, now);
            |done| == n && AllAgree(done + records[n..], after)
  {
    hide AllAgree;
    if n == 0 {
      assert [] + records[0..] == records;
    } else {
      GraduateAllAgrees(d, records, n - 1, c, now);
      var r := records[n - 1];
      assert records[..n] == records[..n - 1] + [r];
      GraduateAllSnoc(d, records[..n - 1], r, c, now);
      var (done, before) := GraduateAll(d, records[..n - 1], c, now);
      var working := done + records[n - 1..];
      if Graduates(d, r, before, now) {
        GraduateOneAgrees(d, working, n - 1, before, now);
        var moved := r.(status := Graduated, graduatedAt := Some(now));
        assert working[n - 1 := moved] == done + [moved] + records[n..];
      } else {
        assert working == done + [r] + records[n..];
      }
    }
  }

  lemma PassAgrees(d: C.Decay, records: seq<Record>, c: Codex, now: Time)
    requires AllAgree(records, c)
    ensures var (after, codex) := Pass(d, records, Some(c), now);
            codex.Some? && AllAgree(after, codex.value)
  {
    var refreshed := WithConfidence(d, records, now);
    StandingDecides(records, refreshed, c);
    WithdrawAllAgrees(d, refreshed, |refreshed|, c, now);
    assert refreshed[..|refreshed|] == refreshed;
    var (kept, withdrawn) := WithdrawAll(d, refreshed, c, now);
    assert kept + refreshed[|refreshed|..] == kept;
    GraduateAllAgrees(d, kept, |kept|, withdrawn, now);
    assert kept[..|kept|] == kept;
    var (done, graduated) := GraduateAll(d, kept, withdrawn, now);
    assert done + kept[|kept|..] == done;
  }

  // ----- Runs -----

  /** Before the first codex nothing has graduated; afterwards records and codex agree. */
  ghost predicate Agreement(w: World) {
    && (w.codex.Some? ==> AllAgree(w.records, w.codex.value))
    && (w.codex.None? ==> UniqueIds(w.records) && forall r :: r in w.records ==> r.status == Candidate)
  }

  /** Without a codex every record is a candidate, which agrees with the empty one. */
  lemma EmptyCodexAgrees(records: seq<Record>, c: Codex)
    requires UniqueIds(records) && forall r :: r in records ==> r.status == Candidate
    requires c.learned == [] && c.pitfalls == [] && c.conventions == []
    ensures AllAgree(records, c)
  {
    forall id ensures Owned(c, id) == 0 {
    }
    forall i | 0 <= i < |records| ensures Agrees(records[i], c) {
      assert records[i] in records;
    }
  }

  lemma {:induction false} MiningKeepsCandidates(records: seq<Record>, sessions: seq<Session>, now: Time)
    requires UniqueIds(records) && forall r :: r in records ==> r.status == Candidate
    ensures var out := MineSessions(records, sessions, now);
            UniqueIds(out) && forall r :: r in out ==> r.status == Candidate
  {
    if sessions != [] {
      var s := sessions[|sessions| - 1];
      var before := MineSessions(records, sessions[..|sessions| - 1], now);
      MiningKeepsCandidates(records, sessions[..|sessions| - 1], now);
      MergingKeepsCandidates(before, s.mined, s.id, now);
    }
  }

  lemma {:induction false} MergingKeepsCandidates(records: seq<Record>, mined: seq<Mined>, session: SessionId, now: Time)
    requires UniqueIds(records) && forall r :: r in records ==> r.status == Candidate
    ensures var out := MergeBatch(records, mined, session, now);
            UniqueIds(out) && forall r :: r in out ==> r.status == Candidate
  {
    if mined != [] {
      MergingKeepsCandidates(records, mined[..|mined| - 1], session, now);
    }
  }

  lemma HumanEditAgrees(records: seq<Record>, c: Codex, edited: Codex)
    requires AllAgree(records, c)
    requires edited.learned == c.learned
    requires KeepsGraduated(c.pitfalls, edited.pitfalls) && KeepsGraduated(c.conventions, edited.conventions)
    ensures AllAgree(records, edited)
  {
    forall id
      ensures Owned(edited, id) == Owned(c, id)
      ensures OnlyLocked(c, id) ==> OnlyLocked(edited, id)
    {
      HumanEditOwnership(c.pitfalls, edited.pitfalls, id);
      HumanEditOwnership(c.conventions, edited.conventions, id);
    }
    forall i | 0 <= i < |records| ensures Agrees(records[i], edited) {
      assert Agrees(records[i], c);
    }
  }

  lemma SameSectionsAgree(records: seq<Record>, a: Codex, b: Codex)
    requires AllAgree(records, a)
    requires a.learned == b.learned && a.pitfalls == b.pitfalls && a.conventions == b.conventions
    ensures AllAgree(records, b)
  {
    forall id ensures Owned(b, id) == Owned(a, id) && (OnlyLocked(a, id) <==> OnlyLocked(b, id)) {
    }
    forall i | 0 <= i < |records| ensures Agrees(records[i], b) {
      assert Agrees(records[i], a);
    }
  }

  lemma StepKeepsAgreement(d: C.Decay, w: World, s: Step)
    requires Agreement(w) && Allowed(w, s) && !s.CutRun?
    ensures Agreement(Next(d, w, s))
  {
    match s
    case Run(sessions, drafts) =>
      if w.codex.Some? {
        MineAgrees(w.records, sessions, drafts, w.now, w.codex.value);
        PassAgrees(d, Mine(w.records, sessions, drafts, w.now), w.codex.value, w.now);
      } else {
        MiningKeepsCandidates(w.records, sessions, w.now);
      }
    case Regenerate(generated) =>
      if w.codex.Some? {
        SameSectionsAgree(w.records, w.codex.value, Next(d, w, s).codex.value);
      } else {
        EmptyCodexAgrees(w.records, generated);
      }
    case HumanEdit(edited) => HumanEditAgrees(w.records, w.codex.value, edited);
    case Advance(_) =>
  }

  /** Over every interleaving of complete runs, regenerations, human edits and clock advances. */
  lemma {:induction false} AgreementHolds(d: C.Decay, w: World, steps: seq<Step>)
    requires Agreement(w) && Legal(d, w, steps)
    requires forall s :: s in steps ==> !s.CutRun?
    ensures Agreement(Execute(d, w, steps))
  {
    if steps != [] {
      LegalPrefix(d, w, steps);
      AgreementHolds(d, w, steps[..|steps| - 1]);
      StepKeepsAgreement(d, Execute(d, w, steps[..|steps| - 1]), steps[|steps| - 1]);
    }
  }

  /**
   * From a fresh repository: a record is graduated exactly when it owns its entry, except
   * withdrawn records all of whose entries a human locked.
   */
  lemma GraduatedExactlyWhenOwning(d: C.Decay, w: World, steps: seq<Step>, r: Record)
    requires Fresh(w) && Legal(d, w, steps)
    requires forall s :: s in steps ==> !s.CutRun?
    requires Execute(d, w, steps).codex.Some? && r in Execute(d, w, steps).records
    ensures var c := Execute(d, w, steps).codex.value;
      && Owned(c, r.id) <= 1
      && (r.status == Graduated ==> Owned(c, r.id) == 1)
      && (Owned(c, r.id) == 1 ==> r.status == Graduated || (r.status == Withdrawn && OnlyLocked(c, r.id)))
  {
    AgreementHolds(d, w, steps);
    OneEntryPerCandidate(d, w, steps);
    var end := Execute(d, w, steps);
    var i :| 0 <= i < |end.records| && end.records[i] == r;
    assert Agrees(end.records[i], end.codex.value);
    assert OwnsAtMostOne(end.codex.value, r.id);
  }
}
