/** The mirror update at the end of a graduation pass (packages/sidecar/src/graduation.ts). */
module MirrorAfterPass {
  import opened Common
  import opened Candidates
  import opened Graduation
  import opened LifecycleEvidence
  import opened Mirror
  import opened MirrorFreshness
  import C = Confidence

  /** Whether the pass withdrew or graduated anything: the source's `codexDirty`. */
  ghost predicate Dirty(d: C.Decay, records: seq<Record>, c: Codex, now: Time) {
    exists i :: 0 <= i < |records| && i < |Pass(d, records, Some(c), now).0|
                && Pass(d, records, Some(c), now).0[i].status != records[i].status
  }

  lemma {:induction false} QuietWithdrawal(d: C.Decay, records: seq<Record>, c: Codex, now: Time)
    requires forall i :: 0 <= i < |records| ==> !IsBelowWithdrawal(d, records[i], now)
    ensures WithdrawAll(d, records, c, now) == (records, c)
  {
    if records != [] {
      QuietWithdrawal(d, records[..|records| - 1], c, now);
      assert records == records[..|records| - 1] + [records[|records| - 1]];
    }
  }

  lemma {:induction false} QuietGraduation(d: C.Decay, records: seq<Record>, c: Codex, now: Time)
    requires forall i :: 0 <= i < |records| && i < |GraduateAll(d, records, c, now).0| ==>
      GraduateAll(d, records, c, now).0[i].status == records[i].status
    ensures GraduateAll(d, records, c, now).1 == c
  {
    if records != [] {
      var n := |records| - 1;
      GraduateAllPointwise(d, records[..n], c, now);
      var (before, codex) := GraduateAll(d, records[..n], c, now);
      assert GraduateAll(d, records, c, now).0[..n] == before;
      forall i | 0 <= i < n ensures before[i].status == records[..n][i].status {
        assert GraduateAll(d, records, c, now).0[i] == before[i];
      }
      QuietGraduation(d, records[..n], c, now);
      assert GraduateAll(d, records, c, now).0[n].status == records[n].status;
    }
  }

  /** A pass that moves no record leaves the codex alone. */
  lemma CleanPassKeepsCodex(d: C.Decay, records: seq<Record>, c: Codex, now: Time)
    requires !Dirty(d, records, c, now)
    ensures Pass(d, records, Some(c), now).1 == Some(c)
  {
    var refreshed := WithConfidence(d, records, now);
    PassPointwise(d, records, Some(c), now);
    forall i | 0 <= i < |refreshed| ensures !IsBelowWithdrawal(d, refreshed[i], now) {
      assert Pass(d, records, Some(c), now).0[i].status == records[i].status;
    }
    QuietWithdrawal(d, refreshed, c, now);
    forall i | 0 <= i < |refreshed| && i < |GraduateAll(d, refreshed, c, now).0|
      ensures GraduateAll(d, refreshed, c, now).0[i].status == refreshed[i].status
    {
      assert Pass(d, records, Some(c), now).0[i].status == records[i].status;
    }
    QuietGraduation(d, refreshed, c, now);
  }

  /** `rels` is the source's list of affected index keys. A clean pass refreshes nothing. */
  ghost function MirrorUpdate(
    t: Tools, repo: Repo, rels: seq<Rel>, d: C.Decay, records: seq<Record>, c: Codex, now: Time, stuck: set<string>): Repo
  {
    var after := Pass(d, records, Some(c), now).1;
    if Dirty(d, records, c, now) && after.Some? then Refresh(t, repo, rels, after.value.learned, stuck) else repo
  }

  /**
   * If the mirror agrees with the learned directives before a graduation pass, it agrees with the
   * new ones after it, although only files matching an old or new directive are refreshed.
   */
  lemma MirrorFollowsTheDirectives(
    t: Tools, repo: Repo, rels: seq<Rel>, d: C.Decay, records: seq<Record>, c: Codex, now: Time, stuck: set<string>)
    requires WellKeyed(t, IndexOf(repo)) && FingerprintsAgree(t, IndexOf(repo), c.learned)
    requires Pass(d, records, Some(c), now).1.Some?
    requires IsAffectedList(rels, IndexOf(repo), c.learned, Pass(d, records, Some(c), now).1.value.learned)
    ensures FingerprintsAgree(
      t, IndexOf(MirrorUpdate(t, repo, rels, d, records, c, now, stuck)), Pass(d, records, Some(c), now).1.value.learned)
  {
    if Dirty(d, records, c, now) {
      PassKeepsFingerprintsInStep(t, repo, rels, c.learned, Pass(d, records, Some(c), now).1.value.learned, stuck);
    } else {
      CleanPassKeepsCodex(d, records, c, now);
    }
  }
}
