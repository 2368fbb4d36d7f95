/**
 * Whole runs of the graduation lifecycle: miner runs (complete or cut between the codex write and
 * the candidate file), codex regenerations, human edits of the codex and clock advances.
 */
module Lifecycle {
  import opened Common
  import opened Candidates
  import opened Graduation
  import C = Confidence

  // ----- Owned entries -----

  function OwnedIn(entries: seq<Entry>, id: CandidateId): seq<Entry> {
    Filter(entries, e => Owns(e, id))
  }

  function DirectivesOf(learned: seq<Directive>, id: CandidateId): seq<Directive> {
    Filter(learned, (e: Directive) => e.candidate == id)
  }

  /** How many codex entries a candidate owns, over all three sections. */
  function Owned(c: Codex, id: CandidateId): nat {
    |DirectivesOf(c.learned, id)| + |OwnedIn(c.pitfalls, id)| + |OwnedIn(c.conventions, id)|
  }

  /** Every entry `id` owns is one a human locked. */
  ghost predicate OnlyLocked(c: Codex, id: CandidateId) {
    && DirectivesOf(c.learned, id) == []
    && (forall e :: e in OwnedIn(c.pitfalls, id) ==> e.locked)
    && (forall e :: e in OwnedIn(c.conventions, id) ==> e.locked)
  }

  /** A candidate owns entries only in the section of its kind, and at most one. */
  ghost predicate OwnsAtMostOne(c: Codex, id: CandidateId) {
    && |DirectivesOf(c.learned, id)| <= (if id.kind == ZoomHotspot then 1 else 0)
    && |OwnedIn(c.pitfalls, id)| <= (if id.kind == ErrorFix then 1 else 0)
    && |OwnedIn(c.conventions, id)| <= (if id.kind == Recurrence then 1 else 0)
  }

  ghost predicate OneEntryEach(c: Codex) {
    forall id :: OwnsAtMostOne(c, id)
  }

  // ----- Effects of one withdrawal and one graduation on ownership -----

  lemma WithoutEntriesOwnership(entries: seq<Entry>, id: CandidateId, other: CandidateId)
    ensures other != id ==> OwnedIn(WithoutEntries(entries, id), other) == OwnedIn(entries, other)
    ensures |OwnedIn(WithoutEntries(entries, id), id)| <= |OwnedIn(entries, id)|
    ensures forall e :: e in OwnedIn(WithoutEntries(entries, id), id) ==> e.locked
    ensures ProtectedEntries(WithoutEntries(entries, id)) == ProtectedEntries(entries)
  {
    if other != id {
      FilterTwice(entries, e => KeptWithout(e, id), e => Owns(e, other));
    }
    FilterTwice(entries, e => KeptWithout(e, id), Protected);
    FilterShrinks(entries, e => KeptWithout(e, id), e => Owns(e, id));
  }

  lemma {:induction false} FilterShrinks<T(!new)>(s: seq<T>, p: T -> bool, q: T -> bool)
    ensures |Filter(Filter(s, p), q)| <= |Filter(s, q)|
  {
    if s != [] {
      FilterShrinks(s[1..], p, q);
      if p(s[0]) {
        assert ([s[0]] + Filter(s[1..], p))[1..] == Filter(s[1..], p);
      }
    }
  }

  lemma WithdrawOwnership(c: Codex, id: CandidateId, other: CandidateId)
    ensures other != id ==> Owned(WithdrawFromCodex(c, id), other) == Owned(c, other)
    ensures other != id && OnlyLocked(c, other) ==> OnlyLocked(WithdrawFromCodex(c, id), other)
    ensures OnlyLocked(WithdrawFromCodex(c, id), id)
    ensures OwnsAtMostOne(c, other) ==> OwnsAtMostOne(WithdrawFromCodex(c, id), other)
  {
    WithoutEntriesOwnership(c.pitfalls, id, other);
    WithoutEntriesOwnership(c.conventions, id, other);
    FilterShrinks(c.learned, (e: Directive) => e.candidate != id, (e: Directive) => e.candidate == other);
    FilterNone(WithoutDirectives(c.learned, id), (e: Directive) => e.candidate == id);
    if other != id {
      FilterTwice(c.learned, (e: Directive) => e.candidate != id, (e: Directive) => e.candidate == other);
    }
  }

  lemma PushEntryOwnership(entries: seq<Entry>, e: Entry, id: CandidateId, other: CandidateId)
    requires Owns(e, id) && !e.locked
    ensures OwnedIn(entries + [e], other) == OwnedIn(entries, other) + (if other == id then [e] else [])
    ensures ProtectedEntries(entries + [e]) == ProtectedEntries(entries)
  {
    FilterAppend(entries, [e], x => Owns(x, other));
    FilterAppend(entries, [e], Protected);
    assert Filter([e], Protected) == [];
  }

  lemma UnnamedOwnsNothing(entries: seq<Entry>, id: CandidateId)
    requires !Names(entries, id)
    ensures OwnedIn(entries, id) == []
  {
    FilterNone(entries, e => Owns(e, id));
  }

  lemma GraduateOwnership(d: C.Decay, r: Record, c: Codex, now: Time, other: CandidateId)
    requires Graduates(d, r, c, now)
    ensures Owned(GraduateIntoCodex(r, c, now), other) == Owned(c, other) + (if other == r.id then 1 else 0)
    ensures other != r.id && OnlyLocked(c, other) ==> OnlyLocked(GraduateIntoCodex(r, c, now), other)
    ensures OwnsAtMostOne(c, other) ==> OwnsAtMostOne(GraduateIntoCodex(r, c, now), other)
  {
    match r.id.kind
    case ZoomHotspot =>
      var e := Directive(r.id, r.details.target, QueriedSymbols(r), r.confidence, now);
      FilterAppend(c.learned, [e], (x: Directive) => x.candidate == other);
      if other == r.id {
        FilterNone(c.learned, (x: Directive) => x.candidate == other);
      }
    case ErrorFix =>
      PushEntryOwnership(c.pitfalls, Entry(PitfallText(r), false, FromGraduation, Some(r.id), r.confidence), r.id, other);
      UnnamedOwnsNothing(c.pitfalls, r.id);
    case Recurrence =>
      PushEntryOwnership(c.conventions, Entry(ConventionText(r), false, FromGraduation, Some(r.id), r.confidence), r.id, other);
      UnnamedOwnsNothing(c.conventions, r.id);
  }

  // ----- Protected entries and single ownership, through a whole pass -----

  ghost predicate SameProtected(a: Codex, b: Codex) {
    && ProtectedEntries(a.pitfalls) == ProtectedEntries(b.pitfalls)
    && ProtectedEntries(a.conventions) == ProtectedEntries(b.conventions)
  }

  lemma WithdrawOneKeeps(c: Codex, id: CandidateId)
    ensures SameProtected(WithdrawFromCodex(c, id), c)
    ensures OneEntryEach(c) ==> OneEntryEach(WithdrawFromCodex(c, id))
  {
    WithoutEntriesOwnership(c.pitfalls, id, id);
    WithoutEntriesOwnership(c.conventions, id, id);
    if OneEntryEach(c) {
      forall other ensures OwnsAtMostOne(WithdrawFromCodex(c, id), other) {
        WithdrawOwnership(c, id, other);
      }
    }
  }

  lemma GraduateOneKeeps(d: C.Decay, r: Record, c: Codex, now: Time)
    requires Graduates(d, r, c, now)
    ensures SameProtected(GraduateIntoCodex(r, c, now), c)
    ensures OneEntryEach(c) ==> OneEntryEach(GraduateIntoCodex(r, c, now))
  {
    PushEntryOwnership(c.pitfalls, Entry(PitfallText(r), false, FromGraduation, Some(r.id), r.confidence), r.id, r.id);
    PushEntryOwnership(c.conventions, Entry(ConventionText(r), false, FromGraduation, Some(r.id), r.confidence), r.id, r.id);
    if OneEntryEach(c) {
      forall other ensures OwnsAtMostOne(GraduateIntoCodex(r, c, now), other) {
        GraduateOwnership(d, r, c, now, other);
      }
    }
  }

  lemma {:induction false} WithdrawAllKeeps(d: C.Decay, records: seq<Record>, c: Codex, now: Time)
    ensures var after := WithdrawAll(d, records, c, now).1;
            SameProtected(after, c) && (OneEntryEach(c) ==> OneEntryEach(after))
  {
    if records != [] {
      var n := |records| - 1;
      WithdrawAllKeeps(d, records[..n], c, now);
      WithdrawOneKeeps(WithdrawAll(d, records[..n], c, now).1, records[n].id);
    }
  }

  lemma {:induction false} GraduateAllKeeps(d: C.Decay, records: seq<Record>, c: Codex, now: Time)
    ensures var after := GraduateAll(d, records, c, now).1;
            SameProtected(after, c) && (OneEntryEach(c) ==> OneEntryEach(after))
  {
    if records != [] {
      var n := |records| - 1;
      GraduateAllKeeps(d, records[..n], c, now);
      var before := GraduateAll(d, records[..n], c, now).1;
      if Graduates(d, records[n], before, now) {
        GraduateOneKeeps(d, records[n], before, now);
      }
    }
  }

  lemma PassKeeps(d: C.Decay, records: seq<Record>, c: Codex, now: Time)
    ensures var after := Pass(d, records, Some(c), now).1;
            && after.Some?
            && SameProtected(after.value, c)
            && (OneEntryEach(c) ==> OneEntryEach(after.value))
  {
    var refreshed := WithConfidence(d, records, now);
    var (kept, withdrawn) := WithdrawAll(d, refreshed, c, now);
    WithdrawAllKeeps(d, refreshed, c, now);
    GraduateAllKeeps(d, kept, withdrawn, now);
  }

  // ----- Steps and runs -----

  /**
   * `seen` holds the observations behind the persisted records, `contradicting` which sessions of
   * completed runs contradicted which candidate while it was graduated.
   */
  datatype World = World(
    records: seq<Record>, codex: Option<Codex>, now: Time, seen: set<Observation>, contradicting: set<Observation>)

  datatype Step =
    | Run(sessions: seq<Session>, drafts: map<CandidateId, string>)
    /** The run dies after writing the codex and before writing the candidate file. */
    | CutRun(sessions: seq<Session>, drafts: map<CandidateId, string>)
    | Regenerate(generated: Codex)
    | HumanEdit(edited: Codex)
    | Advance(elapsed: nat)

  predicate FromPass(e: Entry) {
    e.source == FromGraduation
  }

  function GraduatedEntries(entries: seq<Entry>): seq<Entry> {
    Filter(entries, FromPass)
  }

  /** A human may write anything, and lock, but deletes no graduated entry and unlocks none. */
  ghost predicate KeepsGraduated(before: seq<Entry>, after: seq<Entry>) {
    var a, b := GraduatedEntries(before), GraduatedEntries(after);
    && |a| == |b|
    && forall i :: 0 <= i < |a| ==> a[i].candidate == b[i].candidate && (a[i].locked ==> b[i].locked)
  }

  ghost predicate Allowed(w: World, s: Step) {
    match s
    case Regenerate(g) => g.pitfalls == [] && g.conventions == [] && g.learned == []
    case HumanEdit(c) =>
      && w.codex.Some?
      && c.learned == w.codex.value.learned
      && KeepsGraduated(w.codex.value.pitfalls, c.pitfalls)
      && KeepsGraduated(w.codex.value.conventions, c.conventions)
    case _ => true
  }

  function SessionBatch(s: Session, now: Time): Batch {
    Batch(s.id, s.mined, now)
  }

  function SessionObservations(sessions: seq<Session>): set<Observation> {
    if sessions == [] then {}
    else SessionObservations(sessions[..|sessions| - 1]) + BatchObservations(SessionBatch(sessions[|sessions| - 1], 0))
  }

  /** The graduated candidates a session's evidence contradicts. */
  function Contradicted(records: seq<Record>, s: Session): set<Observation> {
    set i | 0 <= i < |records| && records[i].status == Graduated && Contradicts(records[i], s.evidence) ::
      Observation(s.id, records[i].id)
  }

  /** Over the sessions of a run, each taken once its own observations are merged. */
  function RunContradictions(records: seq<Record>, sessions: seq<Session>, now: Time): set<Observation> {
    if sessions == [] then {}
    else
      var init, s := sessions[..|sessions| - 1], sessions[|sessions| - 1];
      RunContradictions(records, init, now) + Contradicted(MergeBatch(MineSessions(records, init, now), s.mined, s.id, now), s)
  }

  function Next(d: C.Decay, w: World, s: Step): World {
    match s
    case Run(sessions, drafts) =>
      var (records, codex) := Pass(d, Mine(w.records, sessions, drafts, w.now), w.codex, w.now);
      w.(records := records, codex := codex, seen := w.seen + SessionObservations(sessions),
         contradicting := w.contradicting + RunContradictions(w.records, sessions, w.now))
    case CutRun(sessions, drafts) =>
      w.(codex := Pass(d, Mine(w.records, sessions, drafts, w.now), w.codex, w.now).1)
    case Regenerate(generated) => w.(codex := Some(PreserveLocked(generated, w.codex)))
    case HumanEdit(edited) => w.(codex := Some(edited))
    case Advance(elapsed) => w.(now := w.now + elapsed)
  }

  function Execute(d: C.Decay, w: World, steps: seq<Step>): World {
    if steps == [] then w else Next(d, Execute(d, w, steps[..|steps| - 1]), steps[|steps| - 1])
  }

  /**
   * What one more step of a run does: a complete run writes the records and codex of its pass, a cut
   * one the codex alone; a regeneration and a human edit change only the codex, time only the clock.
   */
  lemma OneMoreStep(d: C.Decay, w: World, steps: seq<Step>, step: Step)
    ensures Execute(d, w, []) == w
    ensures var (before, after) := (Execute(d, w, steps), Execute(d, w, steps + [step]));
      && (!step.Advance? ==> after.now == before.now)
      && (!step.Run? ==>
           after.records == before.records && after.seen == before.seen && after.contradicting == before.contradicting)
      && match step
         case Run(sessions, drafts) =>
           (after.records, after.codex) == Pass(d, Mine(before.records, sessions, drafts, before.now), before.codex, before.now)
         case CutRun(sessions, drafts) =>
           after.codex == Pass(d, Mine(before.records, sessions, drafts, before.now), before.codex, before.now).1
         case Regenerate(generated) => after.codex == Some(PreserveLocked(generated, before.codex))
         case HumanEdit(edited) => after.codex == Some(edited)
         case Advance(elapsed) => after.now == before.now + elapsed && after.codex == before.codex
  {
    assert (steps + [step])[..|steps|] == steps;
    hide Mine;
    hide Pass;
    hide PreserveLocked;
  }

  /** Every step is allowed in the state it is taken in. */
  ghost predicate Legal(d: C.Decay, w: World, steps: seq<Step>) {
    forall n :: 0 <= n < |steps| ==> Allowed(Execute(d, w, steps[..n]), steps[n])
  }

  ghost predicate Fresh(w: World) {
    w.records == [] && w.codex.None? && w.seen == {} && w.contradicting == {}
  }

  lemma LegalPrefix(d: C.Decay, w: World, steps: seq<Step>)
    requires Legal(d, w, steps) && steps != []
    ensures Legal(d, w, steps[..|steps| - 1])
    ensures Allowed(Execute(d, w, steps[..|steps| - 1]), steps[|steps| - 1])
  {
    forall n | 0 <= n < |steps| - 1 ensures Allowed(Execute(d, w, steps[..|steps| - 1][..n]), steps[n]) {
      assert steps[..|steps| - 1][..n] == steps[..n];
    }
  }

  // ----- Human and locked entries are never touched by the machine -----

  /** Without a human edit, the protected pitfalls and conventions keep content and order, crashes included. */
  lemma {:induction false} ProtectedEntriesSurvive(d: C.Decay, w: World, steps: seq<Step>)
    requires w.codex.Some?
    requires forall s :: s in steps ==> !s.HumanEdit?
    ensures Execute(d, w, steps).codex.Some?
    ensures SameProtected(Execute(d, w, steps).codex.value, w.codex.value)
  {
    if steps != [] {
      var before := Execute(d, w, steps[..|steps| - 1]);
      ProtectedEntriesSurvive(d, w, steps[..|steps| - 1]);
      match steps[|steps| - 1]
      case Run(sessions, drafts) => PassKeeps(d, Mine(before.records, sessions, drafts, before.now), before.codex.value, before.now);
      case CutRun(sessions, drafts) => PassKeeps(d, Mine(before.records, sessions, drafts, before.now), before.codex.value, before.now);
      case _ =>
    }
  }

  /** Regeneration keeps every role someone wrote or locked, and rewrites the others. */
  lemma RegenerationKeepsAuthoredRoles(generated: Codex, existing: Codex, i: nat)
    requires i < |generated.repoMap|
    ensures |PreserveLocked(generated, Some(existing)).repoMap| == |generated.repoMap|
    ensures var out := PreserveLocked(generated, Some(existing)).repoMap[i];
            var prior := FindMapEntry(existing.repoMap, generated.repoMap[i].path);
            && out.path == generated.repoMap[i].path && out.keySymbols == generated.repoMap[i].keySymbols
            && (prior.Some? && AuthoredRole(prior.value) ==>
                  (out.role == prior.value.role && out.roleSource == prior.value.roleSource && out.locked == prior.value.locked))
            && (prior.None? || !AuthoredRole(prior.value) ==> out == generated.repoMap[i])
  {
  }

  // ----- At most one entry per candidate, crashes included -----

  lemma HumanEditOwnership(before: seq<Entry>, after: seq<Entry>, id: CandidateId)
    requires KeepsGraduated(before, after)
    ensures |OwnedIn(after, id)| == |OwnedIn(before, id)|
    ensures (forall e :: e in OwnedIn(before, id) ==> e.locked) ==> (forall e :: e in OwnedIn(after, id) ==> e.locked)
  {
    FilterTwice(before, FromPass, e => Owns(e, id));
    FilterTwice(after, FromPass, e => Owns(e, id));
    PairedOwnership(GraduatedEntries(before), GraduatedEntries(after), id);
  }

  lemma {:induction false} PairedOwnership(a: seq<Entry>, b: seq<Entry>, id: CandidateId)
    requires |a| == |b|
    requires forall i :: 0 <= i < |a| ==> a[i].candidate == b[i].candidate && (a[i].locked ==> b[i].locked)
    requires (forall e :: e in a ==> FromPass(e)) && (forall e :: e in b ==> FromPass(e))
    ensures |OwnedIn(b, id)| == |OwnedIn(a, id)|
    ensures (forall e :: e in OwnedIn(a, id) ==> e.locked) ==> (forall e :: e in OwnedIn(b, id) ==> e.locked)
  {
    if a != [] {
      assert a[0] in a && b[0] in b;
      PairedOwnership(a[1..], b[1..], id);
      if Owns(a[0], id) {
        assert a[0] in OwnedIn(a, id);
        assert forall e :: e in OwnedIn(a[1..], id) ==> e in OwnedIn(a, id);
      }
    }
  }

  ghost predicate SingleOwnership(w: World) {
    w.codex.Some? ==> OneEntryEach(w.codex.value)
  }

  lemma StepKeepsSingleOwnership(d: C.Decay, w: World, s: Step)
    requires SingleOwnership(w) && Allowed(w, s)
    ensures SingleOwnership(Next(d, w, s))
  {
    match s
    case Run(sessions, drafts) =>
      if w.codex.Some? {
        PassKeeps(d, Mine(w.records, sessions, drafts, w.now), w.codex.value, w.now);
      }
    case CutRun(sessions, drafts) =>
      if w.codex.Some? {
        PassKeeps(d, Mine(w.records, sessions, drafts, w.now), w.codex.value, w.now);
      }
    case HumanEdit(edited) =>
      forall id ensures OwnsAtMostOne(edited, id) {
        HumanEditOwnership(w.codex.value.pitfalls, edited.pitfalls, id);
        HumanEditOwnership(w.codex.value.conventions, edited.conventions, id);
        assert OwnsAtMostOne(w.codex.value, id);
      }
    case Regenerate(generated) =>
      if w.codex.Some? {
        forall id ensures OwnsAtMostOne(Next(d, w, s).codex.value, id) {
          assert OwnsAtMostOne(w.codex.value, id);
        }
      }
    case Advance(elapsed) =>
  }

  /** Over every interleaving, runs cut short included, a candidate owns at most one codex entry. */
  lemma {:induction false} OneEntryPerCandidate(d: C.Decay, w: World, steps: seq<Step>)
    requires SingleOwnership(w) && Legal(d, w, steps)
    ensures SingleOwnership(Execute(d, w, steps))
  {
    if steps != [] {
      LegalPrefix(d, w, steps);
      OneEntryPerCandidate(d, w, steps[..|steps| - 1]);
      StepKeepsSingleOwnership(d, Execute(d, w, steps[..|steps| - 1]), steps[|steps| - 1]);
    }
  }
}
