/**
 * The graduation pass and the codex it edits (packages/sidecar/src/graduation.ts,
 * `preserveLocked` of packages/sidecar/src/codex.ts).
 *
 * A pass withdraws contradicted entries, then graduates eligible candidates. Every loop over
 * records has a specification function here; the class at the end runs the loops in place.
 */
module Graduation {
  import opened Common
  import opened Candidates
  import opened Strings
  import C = Confidence

  // ----- The codex -----

  datatype Source = Human | FromGraduation

  /** A pitfall or convention. */
  datatype Entry = Entry(text: string, locked: bool, source: Source, candidate: Option<CandidateId>, confidence: real)

  /** A skeleton-enrichment directive. */
  datatype Directive = Directive(candidate: CandidateId, path: string, symbols: seq<string>, confidence: real, addedAt: Time)

  datatype RoleSource = ByRules | ByModel | ByHuman

  datatype MapEntry = MapEntry(path: string, role: string, roleSource: RoleSource, keySymbols: seq<string>, locked: bool)

  datatype Codex = Codex(
    learned: seq<Directive>,
    pitfalls: seq<Entry>,
    conventions: seq<Entry>,
    architecture: seq<string>,
    glossary: seq<string>,
    summary: Option<string>,
    locked: seq<string>,
    repoMap: seq<MapEntry>,
    interfaces: seq<string>
  )

  predicate Owns(e: Entry, id: CandidateId) {
    e.source == FromGraduation && e.candidate == Some(id)
  }

  ghost predicate Protected(e: Entry) {
    e.source == Human || e.locked
  }

  ghost function ProtectedEntries(entries: seq<Entry>): seq<Entry> {
    Filter(entries, Protected)
  }

  // ----- Per-record decisions -----

  function ConfidenceOf(d: C.Decay, r: Record, now: Time): real {
    C.Confidence(d, r.occurrences, C.Age(r.lastSeen, now), r.contradiction)
  }

  predicate IsEligible(d: C.Decay, r: Record, now: Time) {
    r.status == Candidate && ConfidenceOf(d, r, now) >= C.GRADUATE_MIN_CONFIDENCE
  }

  predicate IsBelowWithdrawal(d: C.Decay, r: Record, now: Time) {
    r.status == Graduated && r.contradiction > 0 && ConfidenceOf(d, r, now) < C.WITHDRAW_BELOW_CONFIDENCE
  }

  function NonEmpty(tokens: seq<string>): seq<string> {
    Filter(tokens, t => t != "")
  }

  /** Identifier tokens across every accumulated query, at most twelve. */
  function QueriedSymbols(r: Record): seq<string> {
    if r.details.queries.None? then []
    else
      var symbols := Distinct(NonEmpty(Flatten(r.details.queries.value)));
      if |symbols| <= 12 then symbols else symbols[..12]
  }

  // ----- Withdrawal -----

  /** What withdrawing `id` keeps: all but its own unlocked graduated entries. */
  predicate KeptWithout(e: Entry, id: CandidateId) {
    !Owns(e, id) || e.locked
  }

  function WithoutEntries(entries: seq<Entry>, id: CandidateId): seq<Entry> {
    Filter(entries, e => KeptWithout(e, id))
  }

  function WithoutDirectives(learned: seq<Directive>, id: CandidateId): seq<Directive> {
    Filter(learned, (e: Directive) => e.candidate != id)
  }

  function WithdrawFromCodex(c: Codex, id: CandidateId): Codex {
    c.(learned := WithoutDirectives(c.learned, id),
       pitfalls := WithoutEntries(c.pitfalls, id),
       conventions := WithoutEntries(c.conventions, id))
  }

  function WithdrawRecord(d: C.Decay, r: Record, now: Time): Record {
    if IsBelowWithdrawal(d, r, now) then r.(status := Withdrawn, withdrawnAt := Some(now)) else r
  }

  function WithdrawAll(d: C.Decay, records: seq<Record>, c: Codex, now: Time): (seq<Record>, Codex) {
    if records == [] then ([], c)
    else
      var (rs, before) := WithdrawAll(d, records[..|records| - 1], c, now);
      var r := records[|records| - 1];
      (rs + [WithdrawRecord(d, r, now)],
       if IsBelowWithdrawal(d, r, now) then WithdrawFromCodex(before, r.id) else before)
  }

  // ----- Graduation -----

  function PitfallText(r: Record): string {
    (if r.details.errorSignature.Some? then r.details.errorSignature.value else r.signature)
    + " — fix: "
    + (if r.lesson.Some? then r.lesson.value else r.details.fixSummary)
  }

  function ConventionText(r: Record): string {
    if r.lesson.Some? then r.lesson.value else r.signature
  }

  predicate Names(entries: seq<Entry>, id: CandidateId) {
    exists e :: e in entries && e.candidate == Some(id)
  }

  predicate Directs(learned: seq<Directive>, id: CandidateId) {
    exists e :: e in learned && e.candidate == id
  }

  /** Eligible and not already in its section; only file hotspots with symbols are actionable. */
  predicate Graduates(d: C.Decay, r: Record, c: Codex, now: Time) {
    IsEligible(d, r, now) &&
    match r.id.kind
    case ZoomHotspot => r.details.targetIsFile && QueriedSymbols(r) != [] && !Directs(c.learned, r.id)
    case ErrorFix => !Names(c.pitfalls, r.id)
    case Recurrence => !Names(c.conventions, r.id)
  }

  function GraduateIntoCodex(r: Record, c: Codex, now: Time): Codex {
    match r.id.kind
    case ZoomHotspot =>
      c.(learned := c.learned + [Directive(r.id, r.details.target, QueriedSymbols(r), r.confidence, now)])
    case ErrorFix =>
      c.(pitfalls := c.pitfalls + [Entry(PitfallText(r), false, FromGraduation, Some(r.id), r.confidence)])
    case Recurrence =>
      c.(conventions := c.conventions + [Entry(ConventionText(r), false, FromGraduation, Some(r.id), r.confidence)])
  }

  function GraduateAll(d: C.Decay, records: seq<Record>, c: Codex, now: Time): (seq<Record>, Codex) {
    if records == [] then ([], c)
    else
      var (rs, before) := GraduateAll(d, records[..|records| - 1], c, now);
      var r := records[|records| - 1];
      if Graduates(d, r, before, now)
      then (rs + [r.(status := Graduated, graduatedAt := Some(now))], GraduateIntoCodex(r, before, now))
      else (rs + [r], before)
  }

  // ----- The pass -----

  function WithConfidence(d: C.Decay, records: seq<Record>, now: Time): seq<Record> {
    seq(|records|, i requires 0 <= i < |records| => records[i].(confidence := ConfidenceOf(d, records[i], now)))
  }

  /** Without a codex only the confidences move. */
  function Pass(d: C.Decay, records: seq<Record>, codex: Option<Codex>, now: Time): (seq<Record>, Option<Codex>) {
    var refreshed := WithConfidence(d, records, now);
    if codex.None? then (refreshed, None)
    else
      var (kept, withdrawn) := WithdrawAll(d, refreshed, codex.value, now);
      var (done, graduated) := GraduateAll(d, kept, withdrawn, now);
      (done, Some(graduated))
  }

  // ----- Contradictions -----

  datatype Failure = Failure(at: Time, signature: string)
  datatype ZoomBack = ZoomBack(at: Time, path: string)

  /** The events of a session that can contradict a graduated entry. */
  datatype Evidence = Evidence(failures: seq<Failure>, zooms: seq<ZoomBack>)

  datatype Session = Session(id: SessionId, mined: seq<Mined>, evidence: Evidence)

  function Slashed(path: string): string {
    seq(|path|, i requires 0 <= i < |path| => if path[i] == '\\' then '/' else path[i])
  }

  /** Path equality, either side possibly a /-boundary suffix of the other. */
  predicate PathsMatch(a: string, b: string) {
    var x, y := Slashed(a), Slashed(b);
    x == y || EndsWith(x, "/" + y) || EndsWith(y, "/" + x)
  }

  predicate After(at: Time, graduatedAt: Option<Time>) {
    graduatedAt.None? || at > graduatedAt.value
  }

  /** Only evidence later than the graduation counts. */
  predicate Contradicts(r: Record, evidence: Evidence) {
    match r.id.kind
    case ErrorFix =>
      var wanted := if r.details.errorSignature.Some? then r.details.errorSignature.value else r.signature;
      exists f :: f in evidence.failures && After(f.at, r.graduatedAt) && f.signature == wanted
    case ZoomHotspot =>
      r.details.targetIsFile &&
      exists z :: z in evidence.zooms && After(z.at, r.graduatedAt) && z.path != "" && PathsMatch(z.path, r.details.target)
    case Recurrence => false
  }

  const CONTRADICTED_SESSIONS_CAP := 20

  function SweepRecord(r: Record, s: Session): Record {
    if r.status == Graduated && s.id !in r.contradictedSessions && Contradicts(r, s.evidence)
    then r.(contradiction := r.contradiction + 1,
            contradictedSessions := TakeLast(r.contradictedSessions + [s.id], CONTRADICTED_SESSIONS_CAP))
    else r
  }

  function Sweep(records: seq<Record>, s: Session): seq<Record> {
    seq(|records|, i requires 0 <= i < |records| => SweepRecord(records[i], s))
  }

  // ----- What the sweep counts, in terms of the evidence -----

  /** Every character of `path`, backslashes read as slashes. */
  ghost predicate ReadsAs(path: string, slashed: string) {
    |slashed| == |path| && forall i :: 0 <= i < |path| ==>
      (path[i] == '\\' ==> slashed[i] == '/') && (path[i] != '\\' ==> slashed[i] == path[i])
  }

  /** `longer` is `shorter`, or ends in a slash and `shorter`. */
  ghost predicate SuffixAtSlash(longer: string, shorter: string) {
    longer == shorter || exists head :: longer == head + "/" + shorter
  }

  /** The evidence that conflicts with a graduated entry: later than its graduation, if it has a date. */
  ghost predicate Conflicting(r: Record, evidence: Evidence) {
    match r.id.kind
    case ErrorFix =>
      exists i :: 0 <= i < |evidence.failures| &&
        var f := evidence.failures[i];
        && (r.graduatedAt.Some? ==> f.at > r.graduatedAt.value)
        && (r.details.errorSignature.Some? ==> f.signature == r.details.errorSignature.value)
        && (r.details.errorSignature.None? ==> f.signature == r.signature)
    case ZoomHotspot =>
      r.details.targetIsFile &&
      exists i, zoomed, target :: 0 <= i < |evidence.zooms| &&
        var z := evidence.zooms[i];
        && (r.graduatedAt.Some? ==> z.at > r.graduatedAt.value)
        && z.path != "" && ReadsAs(z.path, zoomed) && ReadsAs(r.details.target, target)
        && (SuffixAtSlash(zoomed, target) || SuffixAtSlash(target, zoomed))
    case Recurrence => false
  }

  lemma SlashedReads(path: string, slashed: string)
    ensures ReadsAs(path, slashed) <==> slashed == Slashed(path)
  {
  }

  lemma MatchingAtSlash(a: string, b: string)
    ensures PathsMatch(a, b) <==> SuffixAtSlash(Slashed(a), Slashed(b)) || SuffixAtSlash(Slashed(b), Slashed(a))
  {
    EndsAtSlash(Slashed(a), Slashed(b));
    EndsAtSlash(Slashed(b), Slashed(a));
    hide Slashed;
    hide EndsWith;
  }

  lemma EndsAtSlash(longer: string, shorter: string)
    ensures EndsWith(longer, "/" + shorter) <==> exists head :: longer == head + "/" + shorter
  {
    if EndsWith(longer, "/" + shorter) {
      assert longer == longer[..|longer| - |shorter| - 1] + "/" + shorter;
    }
    if head :| longer == head + "/" + shorter {
      assert longer[|head|..] == "/" + shorter;
    }
  }

  lemma ConflictsAreContradictions(r: Record, evidence: Evidence)
    ensures Contradicts(r, evidence) <==> Conflicting(r, evidence)
  {
    hide Slashed;
    hide PathsMatch;
    hide ReadsAs;
    hide SuffixAtSlash;
    forall path, slashed ensures ReadsAs(path, slashed) <==> slashed == Slashed(path) {
      SlashedReads(path, slashed);
    }
    forall a, b ensures PathsMatch(a, b) <==> SuffixAtSlash(Slashed(a), Slashed(b)) || SuffixAtSlash(Slashed(b), Slashed(a)) {
      MatchingAtSlash(a, b);
    }
  }

  /**
   * A session adds one contradiction to a record if and only if the record is graduated, the
   * session is not among those remembered for it, and some of its evidence conflicts with the
   * entry. It then remembers the session, the twenty latest at most; nothing else changes.
   */
  lemma SweepCountsConflicts(records: seq<Record>, s: Session, i: nat)
    requires i < |records|
    ensures |Sweep(records, s)| == |records|
    ensures var before, after := records[i], Sweep(records, s)[i];
      var counted := before.status == Graduated && s.id !in before.contradictedSessions && Conflicting(before, s.evidence);
      && after.contradiction == before.contradiction + (if counted then 1 else 0)
      && (!counted ==> after == before)
      && (counted ==>
           && (var kept := before.contradictedSessions;
               after.contradictedSessions == kept[if |kept| < 20 then 0 else |kept| - 19..] + [s.id])
           && before.(contradiction := after.contradiction, contradictedSessions := after.contradictedSessions) == after)
  {
    ConflictsAreContradictions(records[i], s.evidence);
    hide Contradicts;
    hide Conflicting;
  }

  /** Merge and sweep every session, in order. */
  function MineSessions(records: seq<Record>, sessions: seq<Session>, now: Time): seq<Record> {
    if sessions == [] then records
    else
      var s := sessions[|sessions| - 1];
      Sweep(MergeBatch(MineSessions(records, sessions[..|sessions| - 1], now), s.mined, s.id, now), s)
  }

  /** Lessons drafted by the local model, for records that have none. */
  function Draft(records: seq<Record>, drafts: map<CandidateId, string>): seq<Record> {
    seq(|records|, i requires 0 <= i < |records| =>
      if records[i].lesson.None? && records[i].id in drafts
      then records[i].(lesson := Some(drafts[records[i].id])) else records[i])
  }

  function Mine(records: seq<Record>, sessions: seq<Session>, drafts: map<CandidateId, string>, now: Time): seq<Record> {
    Draft(MineSessions(records, sessions, now), drafts)
  }

  // ----- Regeneration -----

  function FindMapEntry(repoMap: seq<MapEntry>, path: string): (r: Option<MapEntry>)
    ensures r.Some? ==> r.value in repoMap && r.value.path == path
    ensures r.None? ==> forall e :: e in repoMap ==> e.path != path
  {
    if repoMap == [] then None
    else if repoMap[0].path == path then Some(repoMap[0])
    else FindMapEntry(repoMap[1..], path)
  }

  /** A role that a human or a model wrote, or that is locked. */
  predicate AuthoredRole(e: MapEntry) {
    e.locked || e.roleSource != ByRules
  }

  function PreservedMapEntry(entry: MapEntry, prior: Option<MapEntry>): MapEntry {
    if prior.Some? && AuthoredRole(prior.value)
    then entry.(role := prior.value.role, roleSource := prior.value.roleSource, locked := prior.value.locked)
    else entry
  }

  function PreserveLocked(generated: Codex, existing: Option<Codex>): Codex {
    if existing.None? then generated
    else
      var old_ := existing.value;
      generated.(
        architecture := old_.architecture,
        glossary := old_.glossary,
        pitfalls := old_.pitfalls,
        conventions := old_.conventions,
        learned := old_.learned,
        locked := old_.locked,
        summary := if old_.summary.Some? && "summary" in old_.locked then old_.summary else generated.summary,
        repoMap := seq(|generated.repoMap|, i requires 0 <= i < |generated.repoMap| =>
          PreservedMapEntry(generated.repoMap[i], FindMapEntry(old_.repoMap, generated.repoMap[i].path))))
  }

  // ----- The loops, in place -----

  /** Ids of the records whose status changed to `status`, in order. */
  function Moved(before: seq<Record>, after: seq<Record>, status: Status): seq<CandidateId>
    requires |before| == |after|
  {
    if before == [] then []
    else
      var n := |before| - 1;
      Moved(before[..n], after[..n], status)
      + (if before[n].status != status && after[n].status == status then [before[n].id] else [])
  }

  lemma MovedSnoc(before: seq<Record>, after: seq<Record>, x: Record, y: Record, status: Status)
    requires |before| == |after|
    ensures Moved(before + [x], after + [y], status)
         == Moved(before, after, status) + (if x.status != status && y.status == status then [x.id] else [])
  {
    assert (before + [x])[..|before|] == before && (after + [y])[..|after|] == after;
  }

  lemma WithdrawAllSnoc(d: C.Decay, records: seq<Record>, r: Record, c: Codex, now: Time)
    ensures var (rs, before) := WithdrawAll(d, records, c, now);
            WithdrawAll(d, records + [r], c, now)
            == (rs + [WithdrawRecord(d, r, now)],
                if IsBelowWithdrawal(d, r, now) then WithdrawFromCodex(before, r.id) else before)
  {
    assert (records + [r])[..|records|] == records;
  }

  lemma GraduateAllSnoc(d: C.Decay, records: seq<Record>, r: Record, c: Codex, now: Time)
    ensures var (rs, before) := GraduateAll(d, records, c, now);
            GraduateAll(d, records + [r], c, now)
            == if Graduates(d, r, before, now)
               then (rs + [r.(status := Graduated, graduatedAt := Some(now))], GraduateIntoCodex(r, before, now))
               else (rs + [r], before)
  {
    assert (records + [r])[..|records|] == records;
  }

  lemma NothingMoved(d: C.Decay, c: Codex, now: Time, status: Status)
    ensures WithdrawAll(d, [], c, now) == ([], c) && GraduateAll(d, [], c, now) == ([], c)
    ensures Moved([], [], status) == []
  {
  }

  lemma WithdrawalIsAMove(d: C.Decay, r: Record, now: Time)
    ensures var after := WithdrawRecord(d, r, now);
      && (IsBelowWithdrawal(d, r, now) ==> r.status != Withdrawn && after == r.(status := Withdrawn, withdrawnAt := Some(now)))
      && (!IsBelowWithdrawal(d, r, now) ==> after == r)
  {
  }

  lemma GraduationIsAMove(d: C.Decay, r: Record, c: Codex, now: Time)
    ensures Graduates(d, r, c, now) ==> r.status != Graduated
  {
  }

  /** The withdrawal loop after `n` records: the withdrawn prefix, the rest as it was. */
  ghost predicate WithdrawnUpTo(
    d: C.Decay, was: seq<Record>, first: Codex, now: Time, n: nat, records: seq<Record>, c: Codex, withdrawn: seq<CandidateId>)
    requires n <= |was|
  {
    var (done, after) := WithdrawAll(d, was[..n], first, now);
    && |done| == n && c == after && records == done + was[n..]
    && withdrawn == Moved(was[..n], done, Withdrawn)
  }

  lemma WithdrawNext(
    d: C.Decay, was: seq<Record>, first: Codex, now: Time, n: nat, records: seq<Record>, c: Codex, withdrawn: seq<CandidateId>)
    requires n < |was| && WithdrawnUpTo(d, was, first, now, n, records, c, withdrawn)
    ensures |records| == |was| && records[n] == was[n]
    ensures IsBelowWithdrawal(d, was[n], now) ==>
      WithdrawnUpTo(d, was, first, now, n + 1, records[n := was[n].(status := Withdrawn, withdrawnAt := Some(now))],
                    WithdrawFromCodex(c, was[n].id), withdrawn + [was[n].id])
    ensures !IsBelowWithdrawal(d, was[n], now) ==> WithdrawnUpTo(d, was, first, now, n + 1, records, c, withdrawn)
  {
    hide WithdrawAll;
    hide Moved;
    hide IsBelowWithdrawal;
    hide WithdrawFromCodex;
    var r := was[n];
    var done := WithdrawAll(d, was[..n], first, now).0;
    assert was[..n + 1] == was[..n] + [r];
    WithdrawAllSnoc(d, was[..n], r, first, now);
    MovedSnoc(was[..n], done, r, WithdrawRecord(d, r, now), Withdrawn);
    WithdrawalIsAMove(d, r, now);
    assert records == done + [r] + was[n + 1..];
    assert forall x :: (done + [r] + was[n + 1..])[n := x] == done + [x] + was[n + 1..];
  }

  /** Likewise for the graduation loop. */
  ghost predicate GraduatedUpTo(
    d: C.Decay, was: seq<Record>, first: Codex, now: Time, n: nat, records: seq<Record>, c: Codex, graduated: seq<CandidateId>)
    requires n <= |was|
  {
    var (done, after) := GraduateAll(d, was[..n], first, now);
    && |done| == n && c == after && records == done + was[n..]
    && graduated == Moved(was[..n], done, Graduated)
  }

  lemma GraduateNext(
    d: C.Decay, was: seq<Record>, first: Codex, now: Time, n: nat, records: seq<Record>, c: Codex, graduated: seq<CandidateId>)
    requires n < |was| && GraduatedUpTo(d, was, first, now, n, records, c, graduated)
    ensures |records| == |was| && records[n] == was[n]
    ensures Graduates(d, was[n], c, now) ==>
      GraduatedUpTo(d, was, first, now, n + 1, records[n := was[n].(status := Graduated, graduatedAt := Some(now))],
                    GraduateIntoCodex(was[n], c, now), graduated + [was[n].id])
    ensures !Graduates(d, was[n], c, now) ==> GraduatedUpTo(d, was, first, now, n + 1, records, c, graduated)
  {
    hide GraduateAll;
    hide Moved;
    hide Graduates;
    hide GraduateIntoCodex;
    var r := was[n];
    var done := GraduateAll(d, was[..n], first, now).0;
    assert was[..n + 1] == was[..n] + [r];
    GraduateAllSnoc(d, was[..n], r, first, now);
    GraduationIsAMove(d, r, c, now);
    var after := if Graduates(d, r, c, now) then r.(status := Graduated, graduatedAt := Some(now)) else r;
    MovedSnoc(was[..n], done, r, after, Graduated);
    assert records == done + [r] + was[n + 1..];
    assert forall x :: (done + [r] + was[n + 1..])[n := x] == done + [x] + was[n + 1..];
  }

  lemma LoopsStart(d: C.Decay, was: seq<Record>, first: Codex, now: Time)
    ensures WithdrawnUpTo(d, was, first, now, 0, was, first, []) && GraduatedUpTo(d, was, first, now, 0, was, first, [])
  {
    assert was[..0] == [] && was[0..] == was;
    hide WithdrawAll;
    hide GraduateAll;
    hide Moved;
    NothingMoved(d, first, now, Withdrawn);
    NothingMoved(d, first, now, Graduated);
  }

  lemma WithdrawEnds(d: C.Decay, was: seq<Record>, first: Codex, now: Time, records: seq<Record>, c: Codex, moved: seq<CandidateId>)
    requires WithdrawnUpTo(d, was, first, now, |was|, records, c, moved)
    ensures |records| == |was| && (records, c) == WithdrawAll(d, was, first, now) && moved == Moved(was, records, Withdrawn)
  {
    hide WithdrawAll;
    hide Moved;
    assert was[..|was|] == was && was[|was|..] == [];
    assert records == WithdrawAll(d, was, first, now).0;
  }

  lemma GraduateEnds(d: C.Decay, was: seq<Record>, first: Codex, now: Time, records: seq<Record>, c: Codex, moved: seq<CandidateId>)
    requires GraduatedUpTo(d, was, first, now, |was|, records, c, moved)
    ensures |records| == |was| && (records, c) == GraduateAll(d, was, first, now) && moved == Moved(was, records, Graduated)
  {
    hide GraduateAll;
    hide Moved;
    assert was[..|was|] == was && was[|was|..] == [];
    assert records == GraduateAll(d, was, first, now).0;
  }

  class Graduator {
    var records: seq<Record>
    var codex: Option<Codex>
    const decay: C.Decay

    constructor (decay: C.Decay, records: seq<Record>, codex: Option<Codex>)
      ensures this.decay == decay && this.records == records && this.codex == codex
    {
      this.decay, this.records, this.codex := decay, records, codex;
    }

    method SweepSession(s: Session) returns (contradicted: seq<CandidateId>)
      modifies this`records
      ensures records == Sweep(old(records), s)
      ensures forall id :: id in contradicted <==>
        exists i :: 0 <= i < |records| && old(records)[i].id == id && records[i].contradiction != old(records)[i].contradiction
    {
      contradicted := [];
      for n := 0 to |records|
        invariant |records| == |old(records)|
        invariant forall i :: 0 <= i < n ==> records[i] == SweepRecord(old(records)[i], s)
        invariant forall i :: n <= i < |records| ==> records[i] == old(records)[i]
        invariant forall id :: id in contradicted <==>
          exists i :: 0 <= i < n && old(records)[i].id == id && records[i].contradiction != old(records)[i].contradiction
      {
        var record := records[n];
        if record.status == Graduated && s.id !in record.contradictedSessions && Contradicts(record, s.evidence) {
          records := records[n := record.(
            contradiction := record.contradiction + 1,
            contradictedSessions := TakeLast(record.contradictedSessions + [s.id], CONTRADICTED_SESSIONS_CAP))];
          contradicted := contradicted + [record.id];
        }
      }
    }

    method Withdraw(now: Time) returns (withdrawn: seq<CandidateId>)
      requires codex.Some?
      modifies this
      ensures codex.Some?
      ensures (records, codex.value) == WithdrawAll(decay, old(records), old(codex).value, now)
      ensures |records| == |old(records)| && withdrawn == Moved(old(records), records, Withdrawn)
    {
      hide *;
      withdrawn := [];
      ghost var was, first := records, codex.value;
      LoopsStart(decay, was, first, now);
      for n := 0 to |records|
        invariant |records| == |was| && codex.Some?
        invariant WithdrawnUpTo(decay, was, first, now, n, records, codex.value, withdrawn)
      {
        var record := records[n];
        WithdrawNext(decay, was, first, now, n, records, codex.value, withdrawn);
        if IsBelowWithdrawal(decay, record, now) {
          codex := Some(WithdrawFromCodex(codex.value, record.id));
          records := records[n := record.(status := Withdrawn, withdrawnAt := Some(now))];
          withdrawn := withdrawn + [record.id];
        }
      }
      WithdrawEnds(decay, was, first, now, records, codex.value, withdrawn);
    }

    method Graduate(now: Time) returns (graduated: seq<CandidateId>)
      requires codex.Some?
      modifies this
      ensures codex.Some?
      ensures (records, codex.value) == GraduateAll(decay, old(records), old(codex).value, now)
      ensures |records| == |old(records)| && graduated == Moved(old(records), records, Graduated)
    {
      hide *;
      graduated := [];
      ghost var was, first := records, codex.value;
      LoopsStart(decay, was, first, now);
      for n := 0 to |records|
        invariant |records| == |was| && codex.Some?
        invariant GraduatedUpTo(decay, was, first, now, n, records, codex.value, graduated)
      {
        var record := records[n];
        GraduateNext(decay, was, first, now, n, records, codex.value, graduated);
        if Graduates(decay, record, codex.value, now) {
          codex := Some(GraduateIntoCodex(record, codex.value, now));
          records := records[n := record.(status := Graduated, graduatedAt := Some(now))];
          graduated := graduated + [record.id];
        }
      }
      GraduateEnds(decay, was, first, now, records, codex.value, graduated);
    }

    /** A pass without a codex moves only confidences; with one, it withdraws and then graduates. */
    method RunPass(now: Time) returns (graduated: seq<CandidateId>, withdrawn: seq<CandidateId>)
      modifies this
      ensures (records, codex) == Pass(decay, old(records), old(codex), now)
      ensures old(codex).None? ==> graduated == [] && withdrawn == []
      ensures old(codex).Some? ==>
        var refreshed := WithConfidence(decay, old(records), now);
        var kept := WithdrawAll(decay, refreshed, old(codex).value, now).0;
        && |refreshed| == |kept| == |records|
        && withdrawn == Moved(refreshed, kept, Withdrawn)
        && graduated == Moved(kept, records, Graduated)
    {
      hide WithdrawAll;
      hide GraduateAll;
      hide Moved;
      records := WithConfidence(decay, records, now);
      graduated, withdrawn := [], [];
      if codex.None? {
        return;
      }
      withdrawn := Withdraw(now);
      graduated := Graduate(now);
    }
  }
}
