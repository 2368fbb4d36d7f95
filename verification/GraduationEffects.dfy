/**
 * What one graduation pass writes, record by record and section by section
 * (`runGraduationPass`, packages/sidecar/src/graduation.ts).
 */
module GraduationEffects {
  import opened Common
  import opened Candidates
  import opened Graduation
  import opened LifecycleEvidence
  import C = Confidence

  // ----- The decisions, in terms of the record -----

  ghost function Score(d: C.Decay, r: Record, now: Time): real {
    C.Confidence(d, r.occurrences, if now <= r.lastSeen then 0 else now - r.lastSeen, r.contradiction)
  }

  ghost predicate Sinks(d: C.Decay, r: Record, now: Time) {
    r.status == Graduated && r.contradiction > 0 && Score(d, r, now) < 0.3
  }

  ghost function SunkIds(d: C.Decay, records: seq<Record>, now: Time): set<CandidateId> {
    set r | r in records && Sinks(d, r, now) :: r.id
  }

  /** At most twelve of the identifiers the queries asked for, each once, the earliest first. */
  ghost function AskedFor(r: Record): seq<string> {
    if r.details.queries.None? then []
    else
      var all := Distinct(Filter(Flatten(r.details.queries.value), t => t != ""));
      if |all| <= 12 then all else all[..12]
  }

  // ----- What a withdrawal keeps -----

  ghost predicate StaysEntry(e: Entry, sunk: set<CandidateId>) {
    e.source == Human || e.locked || e.candidate.None? || e.candidate.value !in sunk
  }

  ghost function KeptEntries(entries: seq<Entry>, sunk: set<CandidateId>): seq<Entry> {
    Filter(entries, e => StaysEntry(e, sunk))
  }

  ghost function KeptDirectives(learned: seq<Directive>, sunk: set<CandidateId>): seq<Directive> {
    Filter(learned, (e: Directive) => e.candidate !in sunk)
  }

  lemma {:induction false} FilterBoth<T(!new)>(s: seq<T>, p: T -> bool, q: T -> bool, both: T -> bool)
    requires forall x :: both(x) <==> p(x) && q(x)
    ensures Filter(Filter(s, p), q) == Filter(s, both)
  {
    if s != [] {
      FilterBoth(s[1..], p, q, both);
      if p(s[0]) {
        assert ([s[0]] + Filter(s[1..], p))[1..] == Filter(s[1..], p);
      }
    }
  }

  lemma {:induction false} FilterAll<T(!new)>(s: seq<T>, p: T -> bool)
    requires forall x :: x in s ==> p(x)
    ensures Filter(s, p) == s
  {
    if s != [] {
      FilterAll(s[1..], p);
    }
  }

  ghost function KeptCodex(c: Codex, sunk: set<CandidateId>): Codex {
    c.(learned := KeptDirectives(c.learned, sunk),
       pitfalls := KeptEntries(c.pitfalls, sunk),
       conventions := KeptEntries(c.conventions, sunk))
  }

  lemma WithdrawOneMore(c: Codex, sunk: set<CandidateId>, id: CandidateId)
    ensures WithdrawFromCodex(KeptCodex(c, sunk), id) == KeptCodex(c, sunk + {id})
  {
    KeptOneMore(c.pitfalls, sunk, id);
    KeptOneMore(c.conventions, sunk, id);
    FilterBoth(c.learned, (e: Directive) => e.candidate !in sunk, (e: Directive) => e.candidate != id,
               (e: Directive) => e.candidate !in sunk + {id});
  }

  lemma KeptOneMore(entries: seq<Entry>, sunk: set<CandidateId>, id: CandidateId)
    ensures WithoutEntries(KeptEntries(entries, sunk), id) == KeptEntries(entries, sunk + {id})
  {
    FilterBoth(entries, e => StaysEntry(e, sunk), e => KeptWithout(e, id), e => StaysEntry(e, sunk + {id}));
  }

  lemma NothingSunk(c: Codex)
    ensures KeptCodex(c, {}) == c
  {
    var none: set<CandidateId> := {};
    FilterAll(c.pitfalls, e => StaysEntry(e, none));
    FilterAll(c.conventions, e => StaysEntry(e, none));
    FilterAll(c.learned, (e: Directive) => e.candidate !in none);
  }

  lemma SinksIsBelowWithdrawal(d: C.Decay, r: Record, now: Time)
    ensures Sinks(d, r, now) <==> IsBelowWithdrawal(d, r, now)
    ensures Score(d, r, now) == ConfidenceOf(d, r, now)
  {
  }

  lemma {:induction false} WithdrawAllKeeps(d: C.Decay, records: seq<Record>, c: Codex, now: Time)
    ensures WithdrawAll(d, records, c, now).1 == KeptCodex(c, SunkIds(d, records, now))
  {
    hide KeptCodex;
    hide Sinks;
    hide WithdrawFromCodex;
    hide IsBelowWithdrawal;
    hide WithdrawRecord;
    if records == [] {
      NothingSunk(c);
      assert SunkIds(d, records, now) == {};
    } else {
      var n := |records| - 1;
      WithdrawAllKeeps(d, records[..n], c, now);
      SinksIsBelowWithdrawal(d, records[n], now);
      WithdrawOneMore(c, SunkIds(d, records[..n], now), records[n].id);
      SunkIdsStep(d, records, now);
    }
  }

  lemma SunkIdsStep(d: C.Decay, records: seq<Record>, now: Time)
    requires records != []
    ensures var n := |records| - 1;
      SunkIds(d, records, now)
      == if Sinks(d, records[n], now) then SunkIds(d, records[..n], now) + {records[n].id} else SunkIds(d, records[..n], now)
  {
    assert records == records[..|records| - 1] + [records[|records| - 1]];
  }

  // ----- What graduations add -----

  /** The positions of the records that graduate. */
  ghost function Rising(d: C.Decay, records: seq<Record>, c: Codex, now: Time): (r: seq<nat>)
    ensures forall i :: i in r ==> i < |records|
    ensures forall i, j :: 0 <= i < j < |r| ==> r[i] < r[j]
  {
    if records == [] then []
    else
      var n := |records| - 1;
      var earlier := Rising(d, records[..n], c, now);
      assert forall k :: 0 <= k < |earlier| ==> earlier[k] in earlier;
      earlier + (if Graduates(d, records[n], GraduateAll(d, records[..n], c, now).1, now) then [n] else [])
  }

  ghost function OfKind(records: seq<Record>, rising: seq<nat>, kind: Kind): seq<nat> {
    Filter(rising, (i: nat) => i < |records| && records[i].id.kind == kind)
  }

  /** The entry of a graduated record. */
  ghost predicate EntryFor(e: Entry, r: Record, lead: string, confidence: real) {
    && e.text == lead && !e.locked && e.source == FromGraduation && e.candidate == Some(r.id) && e.confidence == confidence
  }

  ghost function PitfallLead(r: Record): string {
    match (r.details.errorSignature, r.lesson)
    case (Some(error), Some(lesson)) => error + " — fix: " + lesson
    case (Some(error), None) => error + " — fix: " + r.details.fixSummary
    case (None, Some(lesson)) => r.signature + " — fix: " + lesson
    case (None, None) => r.signature + " — fix: " + r.details.fixSummary
  }

  ghost function ConventionLead(r: Record): string {
    match r.lesson
    case Some(lesson) => lesson
    case None => r.signature
  }

  ghost predicate AddsPitfalls(before: seq<Entry>, after: seq<Entry>, records: seq<Record>, rising: seq<nat>) {
    var added := OfKind(records, rising, ErrorFix);
    && |after| == |before| + |added| && after[..|before|] == before
    && forall k :: 0 <= k < |added| ==>
         added[k] < |records| && EntryFor(after[|before| + k], records[added[k]], PitfallLead(records[added[k]]), records[added[k]].confidence)
  }

  ghost predicate AddsConventions(before: seq<Entry>, after: seq<Entry>, records: seq<Record>, rising: seq<nat>) {
    var added := OfKind(records, rising, Recurrence);
    && |after| == |before| + |added| && after[..|before|] == before
    && forall k :: 0 <= k < |added| ==>
         added[k] < |records| && EntryFor(after[|before| + k], records[added[k]], ConventionLead(records[added[k]]), records[added[k]].confidence)
  }

  ghost predicate AddsDirectives(before: seq<Directive>, after: seq<Directive>, records: seq<Record>, rising: seq<nat>, now: Time) {
    var added := OfKind(records, rising, ZoomHotspot);
    && |after| == |before| + |added| && after[..|before|] == before
    && forall k :: 0 <= k < |added| ==>
         added[k] < |records|
         && var (e, r) := (after[|before| + k], records[added[k]]);
            e.candidate == r.id && e.path == r.details.target && e.symbols == AskedFor(r)
            && e.confidence == r.confidence && e.addedAt == now
  }

  lemma OfKindStep(records: seq<Record>, rising: seq<nat>, n: nat, kind: Kind)
    requires n < |records|
    ensures OfKind(records, rising + [n], kind) == OfKind(records, rising, kind) + (if records[n].id.kind == kind then [n] else [])
  {
    FilterAppend(rising, [n], (i: nat) => i < |records| && records[i].id.kind == kind);
  }

  lemma OfKindOfPrefix(records: seq<Record>, rising: seq<nat>, kind: Kind)
    requires records != [] && forall i :: i in rising ==> i < |records| - 1
    ensures OfKind(records[..|records| - 1], rising, kind) == OfKind(records, rising, kind)
  {
    var init := records[..|records| - 1];
    FilterAgree(rising, (i: nat) => i < |init| && init[i].id.kind == kind, (i: nat) => i < |records| && records[i].id.kind == kind);
  }

  /** The three sections grow by the entries of the records that graduate, in order; nothing else changes. */
  ghost predicate Grows(before: Codex, after: Codex, records: seq<Record>, rising: seq<nat>, now: Time) {
    && AddsPitfalls(before.pitfalls, after.pitfalls, records, rising)
    && AddsConventions(before.conventions, after.conventions, records, rising)
    && AddsDirectives(before.learned, after.learned, records, rising, now)
    && after == before.(learned := after.learned, pitfalls := after.pitfalls, conventions := after.conventions)
  }

  lemma GrowsFromNothing(c: Codex, now: Time)
    ensures Grows(c, c, [], [], now)
  {
  }

  lemma GrowsOnPrefix(before: Codex, after: Codex, records: seq<Record>, rising: seq<nat>, now: Time)
    requires records != [] && forall i :: i in rising ==> i < |records| - 1
    requires Grows(before, after, records[..|records| - 1], rising, now)
    ensures Grows(before, after, records, rising, now)
  {
    OfKindOfPrefix(records, rising, ErrorFix);
    OfKindOfPrefix(records, rising, Recurrence);
    OfKindOfPrefix(records, rising, ZoomHotspot);
    hide OfKind;
    hide AskedFor;
    hide PitfallLead;
    hide ConventionLead;
  }

  lemma GrowsByOne(before: Codex, after: Codex, records: seq<Record>, rising: seq<nat>, n: nat, now: Time)
    requires n < |records| && Grows(before, after, records, rising, now)
    ensures Grows(before, GraduateIntoCodex(records[n], after, now), records, rising + [n], now)
  {
    OfKindStep(records, rising, n, ErrorFix);
    OfKindStep(records, rising, n, Recurrence);
    OfKindStep(records, rising, n, ZoomHotspot);
    hide OfKind;
    assert QueriedSymbols(records[n]) == AskedFor(records[n]);
    assert PitfallText(records[n]) == PitfallLead(records[n]);
    assert ConventionText(records[n]) == ConventionLead(records[n]);
    hide QueriedSymbols;
    hide AskedFor;
    hide PitfallText;
    hide PitfallLead;
    hide ConventionText;
    hide ConventionLead;
  }

  lemma {:induction false} GraduateAllGrows(d: C.Decay, records: seq<Record>, c: Codex, now: Time)
    ensures Grows(c, GraduateAll(d, records, c, now).1, records, Rising(d, records, c, now), now)
  {
    hide Grows;
    hide Graduates;
    hide GraduateIntoCodex;
    if records == [] {
      GrowsFromNothing(c, now);
    } else {
      var n := |records| - 1;
      GraduateAllGrows(d, records[..n], c, now);
      var before := GraduateAll(d, records[..n], c, now).1;
      GrowsOnPrefix(c, before, records, Rising(d, records[..n], c, now), now);
      GrowsByOne(c, before, records, Rising(d, records[..n], c, now), n, now);
      assert Rising(d, records[..n], c, now) + [] == Rising(d, records[..n], c, now);
    }
  }

  // ----- Which records graduate -----

  /** Some entry of the record's section names it already. */
  ghost predicate Listed(r: Record, c: Codex) {
    match r.id.kind
    case ErrorFix => exists k :: 0 <= k < |c.pitfalls| && c.pitfalls[k].candidate == Some(r.id)
    case Recurrence => exists k :: 0 <= k < |c.conventions| && c.conventions[k].candidate == Some(r.id)
    case ZoomHotspot => exists k :: 0 <= k < |c.learned| && c.learned[k].candidate == r.id
  }

  /** A candidate of enough confidence; a hotspot must be a file with symbols to enrich. */
  ghost predicate Ripe(d: C.Decay, r: Record, now: Time) {
    && r.status == Candidate && Score(d, r, now) >= 0.5
    && (r.id.kind == ZoomHotspot ==> r.details.targetIsFile && AskedFor(r) != [])
  }

  lemma GraduatesExactly(d: C.Decay, r: Record, c: Codex, now: Time)
    ensures Graduates(d, r, c, now) <==> Ripe(d, r, now) && !Listed(r, c)
  {
    SinksIsBelowWithdrawal(d, r, now);
    assert QueriedSymbols(r) == AskedFor(r);
    hide QueriedSymbols;
    hide AskedFor;
    hide C.Confidence;
    match r.id.kind
    case ErrorFix => NamesListed(c.pitfalls, r.id);
    case Recurrence => NamesListed(c.conventions, r.id);
    case ZoomHotspot =>
      if Directs(c.learned, r.id) {
        var e :| e in c.learned && e.candidate == r.id;
        var k :| 0 <= k < |c.learned| && c.learned[k] == e;
      }
  }

  lemma NamesListed(entries: seq<Entry>, id: CandidateId)
    ensures Names(entries, id) <==> exists k :: 0 <= k < |entries| && entries[k].candidate == Some(id)
  {
    if Names(entries, id) {
      var e :| e in entries && e.candidate == Some(id);
      var k :| 0 <= k < |entries| && entries[k] == e;
    }
  }

  /** Listed after some graduations: listed before them, or one of them is of the same candidate. */
  lemma ListedAfter(before: Codex, after: Codex, records: seq<Record>, rising: seq<nat>, now: Time, r: Record)
    requires Grows(before, after, records, rising, now) && forall i :: i in rising ==> i < |records|
    ensures Listed(r, after) <==> Listed(r, before) || exists i :: i in rising && records[i].id == r.id
  {
    var added := OfKind(records, rising, r.id.kind);
    match r.id.kind
    case ErrorFix => ListedAmong(before.pitfalls, after.pitfalls, records, added, r.id);
    case Recurrence => ListedAmong(before.conventions, after.conventions, records, added, r.id);
    case ZoomHotspot => DirectedAmong(before.learned, after.learned, records, added, r.id);
    OfThatKind(records, rising, r.id);
    hide AddsPitfalls;
    hide AddsConventions;
    hide AddsDirectives;
    hide OfKind;
  }

  lemma OfThatKind(records: seq<Record>, rising: seq<nat>, id: CandidateId)
    requires forall i :: i in rising ==> i < |records|
    ensures (exists i :: i in OfKind(records, rising, id.kind) && i < |records| && records[i].id == id)
       <==> exists i :: i in rising && records[i].id == id
  {
    if i :| i in rising && records[i].id == id {
      assert i in OfKind(records, rising, id.kind);
    }
  }

  lemma ListedAmong(before: seq<Entry>, after: seq<Entry>, records: seq<Record>, added: seq<nat>, id: CandidateId)
    requires |after| == |before| + |added| && after[..|before|] == before
    requires forall k :: 0 <= k < |added| ==> added[k] < |records| && after[|before| + k].candidate == Some(records[added[k]].id)
    ensures (exists k :: 0 <= k < |after| && after[k].candidate == Some(id))
       <==> (exists k :: 0 <= k < |before| && before[k].candidate == Some(id)) || exists i :: i in added && records[i].id == id
  {
    if k :| 0 <= k < |after| && after[k].candidate == Some(id) {
      if k < |before| {
        assert before[k] == after[k];
      } else {
        assert added[k - |before|] in added && after[|before| + (k - |before|)] == after[k];
      }
    }
    if k :| 0 <= k < |before| && before[k].candidate == Some(id) {
      assert after[k] == before[k];
    }
    if i :| i in added && records[i].id == id {
      var k :| 0 <= k < |added| && added[k] == i;
      assert after[|before| + k].candidate == Some(id);
    }
  }

  lemma DirectedAmong(before: seq<Directive>, after: seq<Directive>, records: seq<Record>, added: seq<nat>, id: CandidateId)
    requires |after| == |before| + |added| && after[..|before|] == before
    requires forall k :: 0 <= k < |added| ==> added[k] < |records| && after[|before| + k].candidate == records[added[k]].id
    ensures (exists k :: 0 <= k < |after| && after[k].candidate == id)
       <==> (exists k :: 0 <= k < |before| && before[k].candidate == id) || exists i :: i in added && records[i].id == id
  {
    if k :| 0 <= k < |after| && after[k].candidate == id {
      if k < |before| {
        assert before[k] == after[k];
      } else {
        assert added[k - |before|] in added && after[|before| + (k - |before|)] == after[k];
      }
    }
    if k :| 0 <= k < |before| && before[k].candidate == id {
      assert after[k] == before[k];
    }
    if i :| i in added && records[i].id == id {
      var k :| 0 <= k < |added| && added[k] == i;
      assert after[|before| + k].candidate == id;
    }
  }

  /** A record graduates when it is ripe, not listed, and no earlier record of its candidate graduates. */
  ghost predicate RisesExactly(d: C.Decay, records: seq<Record>, c: Codex, now: Time, rising: seq<nat>, i: nat)
    requires i < |records|
  {
    i in rising <==>
      Ripe(d, records[i], now) && !Listed(records[i], c)
      && forall j :: 0 <= j < i && records[j].id == records[i].id ==> j !in rising
  }

  lemma {:induction false} RisingExactly(d: C.Decay, records: seq<Record>, c: Codex, now: Time, i: nat)
    requires i < |records|
    ensures RisesExactly(d, records, c, now, Rising(d, records, c, now), i)
  {
    var n := |records| - 1;
    var earlier := Rising(d, records[..n], c, now);
    var rising := Rising(d, records, c, now);
    RisingStep(d, records, c, now);
    hide Rising;
    hide RisesExactly;
    hide Ripe;
    hide Listed;
    hide Grows;
    if i < n {
      RisingExactly(d, records[..n], c, now, i);
      EarlierRise(d, records, c, now, earlier, rising, i);
    } else {
      LastRises(d, records, c, now, earlier, rising);
    }
  }

  lemma RisingStep(d: C.Decay, records: seq<Record>, c: Codex, now: Time)
    requires records != []
    ensures var n := |records| - 1;
      var earlier, before := Rising(d, records[..n], c, now), GraduateAll(d, records[..n], c, now).1;
      && (forall i :: i in earlier ==> i < n)
      && Grows(c, before, records[..n], earlier, now)
      && Rising(d, records, c, now) == earlier + (if Ripe(d, records[n], now) && !Listed(records[n], before) then [n] else [])
      && (Listed(records[n], before) <==> Listed(records[n], c) || exists i :: i in earlier && records[..n][i].id == records[n].id)
  {
    var n := |records| - 1;
    var before := GraduateAll(d, records[..n], c, now).1;
    GraduateAllGrows(d, records[..n], c, now);
    ListedAfter(c, before, records[..n], Rising(d, records[..n], c, now), now, records[n]);
    GraduatesExactly(d, records[n], before, now);
    hide Graduates;
    hide Ripe;
    hide Listed;
    hide Grows;
    hide GraduateAll;
  }

  lemma EarlierRise(
    d: C.Decay, records: seq<Record>, c: Codex, now: Time, earlier: seq<nat>, rising: seq<nat>, i: nat)
    requires i < |records| - 1 && RisesExactly(d, records[..|records| - 1], c, now, earlier, i)
    requires rising == earlier || rising == earlier + [|records| - 1]
    ensures RisesExactly(d, records, c, now, rising, i)
  {
    hide Ripe;
    hide Listed;
    var init := records[..|records| - 1];
    assert forall j :: 0 <= j < |init| ==> init[j] == records[j] && (j in rising <==> j in earlier);
  }

  lemma LastRises(d: C.Decay, records: seq<Record>, c: Codex, now: Time, earlier: seq<nat>, rising: seq<nat>)
    requires records != [] && forall i :: i in earlier ==> i < |records| - 1
    requires var n := |records| - 1;
      var listed := Listed(records[n], c) || exists i :: i in earlier && records[..n][i].id == records[n].id;
      rising == earlier + (if Ripe(d, records[n], now) && !listed then [n] else [])
    ensures RisesExactly(d, records, c, now, rising, |records| - 1)
  {
    hide Ripe;
    hide Listed;
    var n := |records| - 1;
    var init := records[..n];
    assert forall j :: 0 <= j < n ==> init[j] == records[j] && (j in rising <==> j in earlier);
  }

  lemma {:induction false} RisingRecords(d: C.Decay, records: seq<Record>, c: Codex, now: Time)
    ensures var out, rising := GraduateAll(d, records, c, now).0, Rising(d, records, c, now);
      |out| == |records| && forall i :: 0 <= i < |records| ==>
        out[i] == if i in rising then records[i].(status := Graduated, graduatedAt := Some(now)) else records[i]
  {
    hide Graduates;
    if records != [] {
      var n := |records| - 1;
      RisingRecords(d, records[..n], c, now);
      assert n !in Rising(d, records[..n], c, now);
    }
  }

  // ----- The pass -----

  /** What became of a record: its confidence is refreshed, and it sinks, rises or keeps its status. */
  ghost predicate Moves(d: C.Decay, before: Record, after: Record, rises: bool, now: Time) {
    && after == before.(confidence := Score(d, before, now), status := after.status,
                        withdrawnAt := after.withdrawnAt, graduatedAt := after.graduatedAt)
    && after.status == (if Sinks(d, before, now) then Withdrawn else if rises then Graduated else before.status)
    && after.withdrawnAt == (if Sinks(d, before, now) then Some(now) else before.withdrawnAt)
    && after.graduatedAt == (if rises then Some(now) else before.graduatedAt)
  }

  /** The records as the graduation loop reads them: confidences refreshed. */
  ghost predicate Refreshed(d: C.Decay, records: seq<Record>, scored: seq<Record>, now: Time) {
    |scored| == |records| && forall i :: 0 <= i < |records| ==> scored[i] == records[i].(confidence := Score(d, records[i], now))
  }

  /**
   * One pass, exactly. Every sunk record is withdrawn and takes its unlocked graduated entries and
   * its directives with it. Then exactly the ripe records no entry of their section names graduate,
   * one per candidate, each appending its entry. Nothing else in the codex changes.
   */
  lemma PassExactly(d: C.Decay, records: seq<Record>, c: Codex, now: Time)
    ensures Pass(d, records, Some(c), now).1.Some?
    ensures var (after, c') := (Pass(d, records, Some(c), now).0, Pass(d, records, Some(c), now).1.value);
      var kept := KeptCodex(c, SunkIds(d, records, now));
      |after| == |records| &&
      exists rising: seq<nat>, scored ::
        && (forall i, j :: 0 <= i < j < |rising| ==> rising[i] < rising[j])
        && (forall i :: i in rising ==> i < |records|)
        && (forall i :: 0 <= i < |records| ==> RisesExactly(d, records, kept, now, rising, i))
        && (forall i :: 0 <= i < |records| ==> Moves(d, records[i], after[i], i in rising, now))
        && Refreshed(d, records, scored, now)
        && Grows(kept, c', scored, rising, now)
  {
    var scored := WithConfidence(d, records, now);
    var kept := WithdrawAll(d, scored, c, now).0;
    WithdrawAllKeeps(d, scored, c, now);
    WithdrawAllPointwise(d, scored, c, now);
    ScoringKeepsSunk(d, records, now);
    var codex := KeptCodex(c, SunkIds(d, records, now));
    var rising := Rising(d, kept, codex, now);
    GraduateAllGrows(d, kept, codex, now);
    RisingRecords(d, kept, codex, now);
    assert GraduateAll(d, kept, codex, now) == (Pass(d, records, Some(c), now).0, Pass(d, records, Some(c), now).1.value);
    hide WithdrawAll;
    hide GraduateAll;
    hide Pass;
    hide KeptCodex;
    hide SunkIds;
    hide Rising;
    forall i | 0 <= i < |records|
      ensures RisesExactly(d, records, codex, now, rising, i)
      ensures Moves(d, records[i], GraduateAll(d, kept, codex, now).0[i], i in rising, now)
    {
      RisingExactly(d, kept, codex, now, i);
      MovesThrough(d, records, scored, kept, codex, now, rising, i);
    }
    GrowsFromScored(codex, GraduateAll(d, kept, codex, now).1, scored, kept, rising, d, now);
  }

  lemma ScoringKeepsSunk(d: C.Decay, records: seq<Record>, now: Time)
    ensures Refreshed(d, records, WithConfidence(d, records, now), now)
    ensures SunkIds(d, WithConfidence(d, records, now), now) == SunkIds(d, records, now)
  {
    var scored := WithConfidence(d, records, now);
    hide C.Confidence;
    forall i | 0 <= i < |records| ensures Sinks(d, scored[i], now) == Sinks(d, records[i], now) {
    }
    forall id ensures id in SunkIds(d, scored, now) <==> id in SunkIds(d, records, now) {
      if id in SunkIds(d, scored, now) {
        var i :| 0 <= i < |scored| && Sinks(d, scored[i], now) && scored[i].id == id;
        assert records[i] in records;
      }
      if id in SunkIds(d, records, now) {
        var i :| 0 <= i < |records| && Sinks(d, records[i], now) && records[i].id == id;
        assert scored[i] in scored;
      }
    }
  }

  /** Refreshing the confidence and withdrawing change nothing a graduation looks at, except that the withdrawn are no candidates. */
  lemma MovesThrough(
    d: C.Decay, records: seq<Record>, scored: seq<Record>, kept: seq<Record>, c: Codex, now: Time, rising: seq<nat>, i: nat)
    requires i < |records| && Refreshed(d, records, scored, now) && |kept| == |records|
    requires forall j :: 0 <= j < |records| ==> kept[j] == WithdrawRecord(d, scored[j], now)
    requires RisesExactly(d, kept, c, now, rising, i)
    ensures RisesExactly(d, records, c, now, rising, i)
    ensures Moves(d, records[i],
                  if i in rising then kept[i].(status := Graduated, graduatedAt := Some(now)) else kept[i], i in rising, now)
  {
  }

  lemma GrowsFromScored(
    before: Codex, after: Codex, scored: seq<Record>, kept: seq<Record>, rising: seq<nat>, d: C.Decay, now: Time)
    requires |kept| == |scored| && forall j :: 0 <= j < |scored| ==> kept[j] == WithdrawRecord(d, scored[j], now)
    requires Grows(before, after, kept, rising, now)
    ensures Grows(before, after, scored, rising, now)
  {
    SameKinds(kept, scored, rising, ErrorFix);
    SameKinds(kept, scored, rising, Recurrence);
    SameKinds(kept, scored, rising, ZoomHotspot);
    forall j | 0 <= j < |scored|
      ensures PitfallLead(kept[j]) == PitfallLead(scored[j]) && ConventionLead(kept[j]) == ConventionLead(scored[j])
      ensures AskedFor(kept[j]) == AskedFor(scored[j])
      ensures kept[j].id == scored[j].id && kept[j].confidence == scored[j].confidence && kept[j].details == scored[j].details
    {
    }
    hide WithdrawRecord;
    hide OfKind;
    hide PitfallLead;
    hide ConventionLead;
    hide AskedFor;
  }

  lemma SameKinds(a: seq<Record>, b: seq<Record>, rising: seq<nat>, kind: Kind)
    requires |a| == |b| && forall j :: 0 <= j < |a| ==> a[j].id == b[j].id
    ensures OfKind(a, rising, kind) == OfKind(b, rising, kind)
  {
    FilterAgree(rising, (i: nat) => i < |a| && a[i].id.kind == kind, (i: nat) => i < |b| && b[i].id.kind == kind);
  }

  // ----- A miner run before its pass -----

  /** A drafted lesson fills a gap and changes nothing else; a lesson there already stays. */
  ghost predicate Drafted(before: Record, drafts: map<CandidateId, string>, after: Record) {
    && after == before.(lesson := after.lesson)
    && after.lesson == match before.lesson
                       case Some(_) => before.lesson
                       case None => if before.id in drafts then Some(drafts[before.id]) else None
  }

  /** A run merges and then sweeps each session, in order, and drafts lessons at the end. */
  lemma MiningExactly(records: seq<Record>, sessions: seq<Session>, s: Session, drafts: map<CandidateId, string>, now: Time)
    ensures MineSessions(records, [], now) == records
    ensures MineSessions(records, sessions + [s], now)
         == Sweep(MergeBatch(MineSessions(records, sessions, now), s.mined, s.id, now), s)
    ensures var (mined, drafted) := (MineSessions(records, sessions, now), Mine(records, sessions, drafts, now));
      |drafted| == |mined| && forall i :: 0 <= i < |mined| ==> Drafted(mined[i], drafts, drafted[i])
  {
    assert (sessions + [s])[..|sessions|] == sessions;
    hide MergeBatch;
    hide Sweep;
  }

  // ----- A regeneration -----

  /** The entry the previous codex has for this path: the first. */
  ghost predicate PriorEntry(repoMap: seq<MapEntry>, path: string, k: nat) {
    k < |repoMap| && repoMap[k].path == path && forall j :: 0 <= j < k ==> repoMap[j].path != path
  }

  lemma {:induction false} PriorIsFound(repoMap: seq<MapEntry>, path: string)
    ensures FindMapEntry(repoMap, path).None? <==> forall k :: 0 <= k < |repoMap| ==> repoMap[k].path != path
    ensures forall k: nat :: PriorEntry(repoMap, path, k) ==> FindMapEntry(repoMap, path) == Some(repoMap[k])
  {
    if repoMap != [] && repoMap[0].path != path {
      PriorIsFound(repoMap[1..], path);
      assert forall k :: 0 < k < |repoMap| ==> repoMap[k] == repoMap[1..][k - 1];
      forall k: nat | PriorEntry(repoMap, path, k) ensures FindMapEntry(repoMap, path) == Some(repoMap[k]) {
        assert PriorEntry(repoMap[1..], path, k - 1);
      }
    }
  }

  /** A regenerated entry: its own path and symbols, and its own role unless someone wrote or locked the prior one. */
  ghost predicate Regenerated(entry: MapEntry, prior: seq<MapEntry>, after: MapEntry) {
    && after.path == entry.path && after.keySymbols == entry.keySymbols
    && (forall k: nat :: PriorEntry(prior, entry.path, k) && (prior[k].locked || prior[k].roleSource == ByModel || prior[k].roleSource == ByHuman) ==>
         after.role == prior[k].role && after.roleSource == prior[k].roleSource && after.locked == prior[k].locked)
    && (forall k: nat :: PriorEntry(prior, entry.path, k) && !prior[k].locked && prior[k].roleSource == ByRules ==> after == entry)
    && ((forall k :: 0 <= k < |prior| ==> prior[k].path != entry.path) ==> after == entry)
  }

  /**
   * A regeneration: human sections and learned directives carry over wholesale, a locked summary
   * too, and the map keeps authored roles; everything else is what was generated.
   */
  lemma RegenerationExactly(generated: Codex, existing: Option<Codex>)
    ensures existing.None? ==> PreserveLocked(generated, existing) == generated
    ensures existing.Some? ==>
      var (old_, after) := (existing.value, PreserveLocked(generated, existing));
      && after.architecture == old_.architecture && after.glossary == old_.glossary
      && after.pitfalls == old_.pitfalls && after.conventions == old_.conventions && after.learned == old_.learned
      && after.locked == old_.locked && after.interfaces == generated.interfaces
      && (old_.summary.Some? && "summary" in old_.locked ==> after.summary == old_.summary)
      && (old_.summary.None? || "summary" !in old_.locked ==> after.summary == generated.summary)
      && |after.repoMap| == |generated.repoMap|
      && forall i :: 0 <= i < |after.repoMap| ==> Regenerated(generated.repoMap[i], old_.repoMap, after.repoMap[i])
  {
    if existing.Some? {
      var prior := existing.value.repoMap;
      forall i | 0 <= i < |generated.repoMap|
        ensures Regenerated(generated.repoMap[i], prior, PreserveLocked(generated, existing).repoMap[i])
      {
        PriorIsFound(prior, generated.repoMap[i].path);
      }
    }
  }
}
