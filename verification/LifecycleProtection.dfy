/**
 * What a human wrote or locked survives every run of the lifecycle, humans locking and adding
 * entries along the way.
 */
module LifecycleProtection {
  import opened Common
  import opened Candidates
  import opened Graduation
  import opened Lifecycle
  import opened Subsequences
  import C = Confidence

  /** The human and locked entries, in order, whether they are locked yet or not. */
  ghost function ProtectedContent(entries: seq<Entry>): seq<Entry> {
    if entries == [] then []
    else
      var init, last := entries[..|entries| - 1], entries[|entries| - 1];
      ProtectedContent(init) + (if Protected(last) then [last.(locked := true)] else [])
  }

  lemma {:induction false} ContentOfProtected(entries: seq<Entry>)
    ensures ProtectedContent(entries) == ProtectedContent(ProtectedEntries(entries))
  {
    if entries != [] {
      var init, last := entries[..|entries| - 1], entries[|entries| - 1];
      ContentOfProtected(init);
      FilterAppend(init, [last], Protected);
      assert entries == init + [last];
      if Protected(last) {
        var kept := ProtectedEntries(init) + [last];
        assert ProtectedEntries(entries) == kept && kept[..|kept| - 1] == ProtectedEntries(init);
      } else {
        assert ProtectedEntries(entries) == ProtectedEntries(init);
      }
    }
  }

  /** Nothing protected disappears, changes or moves past another: entries may only be added. */
  ghost predicate KeepsProtected(before: Codex, after: Codex) {
    && Subsequence(ProtectedContent(before.pitfalls), ProtectedContent(after.pitfalls))
    && Subsequence(ProtectedContent(before.conventions), ProtectedContent(after.conventions))
  }

  /** The same entries, some of them locked now. */
  ghost predicate OnlyLocks(before: seq<Entry>, after: seq<Entry>) {
    && |before| == |after|
    && forall i :: 0 <= i < |before| ==>
         after[i].(locked := true) == before[i].(locked := true) && (before[i].locked ==> after[i].locked)
  }

  /** A human who only locks keeps everything protected, and protects what was locked as well. */
  lemma {:induction false} LockingKeepsProtected(before: seq<Entry>, after: seq<Entry>)
    requires OnlyLocks(before, after)
    ensures Subsequence(ProtectedContent(before), ProtectedContent(after))
    ensures forall i :: 0 <= i < |after| && after[i].locked ==> after[i] in ProtectedContent(after)
  {
    LockedIsProtected(after);
    hide Subsequence;
    if before == [] {
      SubsequenceOfItself(ProtectedContent(before));
    } else {
      var b, a := before[|before| - 1], after[|after| - 1];
      var initB, initA := before[..|before| - 1], after[..|after| - 1];
      LockingKeepsProtected(initB, initA);
      if Protected(b) {
        SubsequenceAppend(ProtectedContent(initB), ProtectedContent(initA), [a.(locked := true)]);
      } else {
        SubsequenceWiden(ProtectedContent(initB), ProtectedContent(initA), if Protected(a) then [a.(locked := true)] else []);
        assert ProtectedContent(before) == ProtectedContent(initB);
      }
    }
  }

  lemma {:induction false} LockedIsProtected(entries: seq<Entry>)
    ensures forall i :: 0 <= i < |entries| && entries[i].locked ==> entries[i] in ProtectedContent(entries)
  {
    if entries != [] {
      var init := entries[..|entries| - 1];
      LockedIsProtected(init);
      assert forall i :: 0 <= i < |init| ==> init[i] == entries[i];
    }
  }

  lemma SameProtectedKeeps(before: Codex, after: Codex)
    requires SameProtected(after, before)
    ensures KeepsProtected(before, after)
  {
    ContentOfProtected(before.pitfalls);
    ContentOfProtected(after.pitfalls);
    ContentOfProtected(before.conventions);
    ContentOfProtected(after.conventions);
    SubsequenceOfItself(ProtectedContent(before.pitfalls));
    SubsequenceOfItself(ProtectedContent(before.conventions));
  }

  lemma KeepsProtectedTransitive(a: Codex, b: Codex, c: Codex)
    requires KeepsProtected(a, b) && KeepsProtected(b, c)
    ensures KeepsProtected(a, c)
  {
    SubsequenceTransitive(ProtectedContent(a.pitfalls), ProtectedContent(b.pitfalls), ProtectedContent(c.pitfalls));
    SubsequenceTransitive(ProtectedContent(a.conventions), ProtectedContent(b.conventions), ProtectedContent(c.conventions));
  }

  lemma StepKeepsProtected(d: C.Decay, w: World, s: Step)
    requires w.codex.Some?
    requires s.HumanEdit? ==> KeepsProtected(w.codex.value, s.edited)
    ensures Next(d, w, s).codex.Some?
    ensures KeepsProtected(w.codex.value, Next(d, w, s).codex.value)
  {
    hide KeepsProtected;
    match s
    case Run(sessions, drafts) =>
      PassKeeps(d, Mine(w.records, sessions, drafts, w.now), w.codex.value, w.now);
      SameProtectedKeeps(w.codex.value, Next(d, w, s).codex.value);
    case CutRun(sessions, drafts) =>
      PassKeeps(d, Mine(w.records, sessions, drafts, w.now), w.codex.value, w.now);
      SameProtectedKeeps(w.codex.value, Next(d, w, s).codex.value);
    case HumanEdit(_) =>
    case _ => SameProtectedKeeps(w.codex.value, Next(d, w, s).codex.value);
  }

  /**
   * Over every interleaving of runs (cut short or not), regenerations, clock advances and human
   * edits that keep what is protected: every entry human or locked at the start is still there,
   * its content and order unchanged.
   */
  lemma {:induction false} ProtectedContentSurvives(d: C.Decay, w: World, steps: seq<Step>)
    requires w.codex.Some?
    requires forall n :: 0 <= n < |steps| && steps[n].HumanEdit? && Execute(d, w, steps[..n]).codex.Some? ==>
      KeepsProtected(Execute(d, w, steps[..n]).codex.value, steps[n].edited)
    ensures Execute(d, w, steps).codex.Some?
    ensures KeepsProtected(w.codex.value, Execute(d, w, steps).codex.value)
  {
    hide KeepsProtected;
    hide Next;
    if steps == [] {
      SameProtectedKeeps(w.codex.value, w.codex.value);
    } else {
      var n := |steps| - 1;
      var init := steps[..n];
      assert forall k :: 0 <= k < n ==> init[..k] == steps[..k];
      ProtectedContentSurvives(d, w, init);
      var before := Execute(d, w, init);
      StepKeepsProtected(d, before, steps[n]);
      KeepsProtectedTransitive(w.codex.value, before.codex.value, Execute(d, w, steps).codex.value);
    }
  }

  // ----- Roles in the repository map -----

  /** The map still lists the path, under the role it had, from the source it had, as locked as it was. */
  ghost predicate KeepsRole(before: Codex, after: Codex, path: string) {
    var a, b := FindMapEntry(before.repoMap, path), FindMapEntry(after.repoMap, path);
    a.Some? && b.Some?
    && b.value.role == a.value.role && b.value.roleSource == a.value.roleSource && b.value.locked == a.value.locked
  }

  ghost predicate HasAuthoredRole(c: Codex, path: string) {
    var e := FindMapEntry(c.repoMap, path);
    e.Some? && AuthoredRole(e.value)
  }

  lemma {:induction false} WithdrawalsKeepTheMap(d: C.Decay, records: seq<Record>, c: Codex, now: Time)
    ensures WithdrawAll(d, records, c, now).1.repoMap == c.repoMap
  {
    if records != [] {
      WithdrawalsKeepTheMap(d, records[..|records| - 1], c, now);
    }
  }

  lemma {:induction false} GraduationsKeepTheMap(d: C.Decay, records: seq<Record>, c: Codex, now: Time)
    ensures GraduateAll(d, records, c, now).1.repoMap == c.repoMap
  {
    hide Graduates;
    if records != [] {
      GraduationsKeepTheMap(d, records[..|records| - 1], c, now);
    }
  }

  lemma PassKeepsTheMap(d: C.Decay, records: seq<Record>, c: Codex, now: Time)
    ensures Pass(d, records, Some(c), now).1.Some? && Pass(d, records, Some(c), now).1.value.repoMap == c.repoMap
  {
    var refreshed := WithConfidence(d, records, now);
    var (kept, withdrawn) := WithdrawAll(d, refreshed, c, now);
    WithdrawalsKeepTheMap(d, refreshed, c, now);
    GraduationsKeepTheMap(d, kept, withdrawn, now);
  }

  /** Two maps of the same paths list a path at the same place. */
  lemma {:induction false} SamePlace(a: seq<MapEntry>, b: seq<MapEntry>, path: string) returns (i: nat)
    requires |a| == |b| && forall k :: 0 <= k < |a| ==> a[k].path == b[k].path
    requires FindMapEntry(a, path).Some?
    ensures i < |a| && FindMapEntry(a, path) == Some(a[i]) && FindMapEntry(b, path) == Some(b[i])
  {
    if a[0].path == path {
      i := 0;
    } else {
      var rest := SamePlace(a[1..], b[1..], path);
      i := rest + 1;
    }
  }

  lemma RegenerationKeepsRole(generated: Codex, existing: Codex, path: string)
    requires HasAuthoredRole(existing, path) && FindMapEntry(generated.repoMap, path).Some?
    ensures KeepsRole(existing, PreserveLocked(generated, Some(existing)), path)
  {
    var out := PreserveLocked(generated, Some(existing)).repoMap;
    var i := SamePlace(generated.repoMap, out, path);
    RegenerationKeepsAuthoredRoles(generated, existing, i);
  }

  lemma StepKeepsRole(d: C.Decay, w: World, s: Step, path: string)
    requires w.codex.Some? && HasAuthoredRole(w.codex.value, path)
    requires s.Regenerate? ==> FindMapEntry(s.generated.repoMap, path).Some?
    requires s.HumanEdit? ==> KeepsRole(w.codex.value, s.edited, path)
    ensures Next(d, w, s).codex.Some? && KeepsRole(w.codex.value, Next(d, w, s).codex.value, path)
  {
    match s
    case Run(sessions, drafts) =>
      hide Pass;
      PassKeepsTheMap(d, Mine(w.records, sessions, drafts, w.now), w.codex.value, w.now);
    case CutRun(sessions, drafts) =>
      hide Pass;
      PassKeepsTheMap(d, Mine(w.records, sessions, drafts, w.now), w.codex.value, w.now);
    case Regenerate(generated) => RegenerationKeepsRole(generated, w.codex.value, path);
    case HumanEdit(_) =>
    case Advance(_) =>
  }

  /**
   * A role someone wrote or locked survives every interleaving whose regenerations still list its
   * path and whose human edits leave it.
   */
  lemma {:induction false} AuthoredRoleSurvives(d: C.Decay, w: World, steps: seq<Step>, path: string)
    requires w.codex.Some? && HasAuthoredRole(w.codex.value, path)
    requires forall s :: s in steps && s.Regenerate? ==> FindMapEntry(s.generated.repoMap, path).Some?
    requires forall n :: 0 <= n < |steps| && steps[n].HumanEdit? && Execute(d, w, steps[..n]).codex.Some? ==>
      KeepsRole(Execute(d, w, steps[..n]).codex.value, steps[n].edited, path)
    ensures Execute(d, w, steps).codex.Some? && KeepsRole(w.codex.value, Execute(d, w, steps).codex.value, path)
  {
    hide Next;
    if steps != [] {
      var n := |steps| - 1;
      var init := steps[..n];
      assert forall k :: 0 <= k < n ==> init[..k] == steps[..k];
      AuthoredRoleSurvives(d, w, init, path);
      assert steps[n] in steps;
      StepKeepsRole(d, Execute(d, w, init), steps[n], path);
    }
  }
}
