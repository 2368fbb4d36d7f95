/**
 * Section references and the ranked selection of document sections (`resolveSectionRefs`,
 * `scoreSections`, `matchedDocSections`, packages/sidecar/src/docs.ts).
 *
 * Sections are compared by identity, so they are indices in document order. What the regular
 * expressions and word lists decide (which section a reference matches, how many words agree,
 * heading strength, body keyword count) is given.
 */
module SectionRefs {
  import opened Common
  import Sorting

  type SectionId = nat

  datatype HeadingMatch = Exact | Strong | Partial | NoMatch

  datatype Tier = ByRef | ByHeading(strength: HeadingMatch)

  function TierRank(t: Tier): nat {
    match t
    case ByRef => 4
    case ByHeading(Exact) => 3
    case ByHeading(Strong) => 2
    case ByHeading(Partial) => 1
    case ByHeading(NoMatch) => 0
  }

  /** One ask against one document; references are numbered as the ask lists them. */
  datatype Query = Query(
    startLines: seq<nat>,
    refs: seq<nat>,
    matches: (SectionId, nat) -> bool,
    agreement: (SectionId, nat) -> nat,
    heading: SectionId -> HeadingMatch,
    body: SectionId -> nat
  )

  ghost predicate InDocumentOrder(q: Query) {
    forall i, j :: 0 <= i < j < |q.startLines| ==> q.startLines[i] < q.startLines[j]
  }

  function Upto(n: nat): (r: seq<SectionId>)
    ensures |r| == n && forall i :: 0 <= i < n ==> r[i] == i
  {
    seq(n, i => i)
  }

  // ----- Resolving one reference -----

  /** The sections a reference may mean, first to last. */
  function CandidatesOf(q: Query, ref: nat): seq<SectionId> {
    Filter(Upto(|q.startLines|), (s: SectionId) => q.matches(s, ref))
  }

  /** The first candidate of greatest agreement: `reduce((a, b) => b > a ? b : a)`. */
  function BestOf(q: Query, ref: nat, candidates: seq<SectionId>): (r: SectionId)
    requires candidates != []
    ensures r in candidates
    ensures forall c :: c in candidates ==> q.agreement(c, ref) <= q.agreement(r, ref)
  {
    var n := |candidates| - 1;
    if n == 0 then candidates[0]
    else
      var best := BestOf(q, ref, candidates[..n]);
      assert candidates == candidates[..n] + [candidates[n]];
      if q.agreement(candidates[n], ref) > q.agreement(best, ref) then candidates[n] else best
  }

  /** The greatest agreement among the candidates other than `best`, 0 when there is none. */
  function RunnerUp(q: Query, ref: nat, candidates: seq<SectionId>, best: SectionId): (r: nat)
    ensures forall c :: c in candidates && c != best ==> q.agreement(c, ref) <= r
    ensures r == 0 || exists c :: c in candidates && c != best && q.agreement(c, ref) == r
  {
    if candidates == [] then 0
    else
      var n := |candidates| - 1;
      var rest := RunnerUp(q, ref, candidates[..n], best);
      assert candidates == candidates[..n] + [candidates[n]];
      if candidates[n] != best && q.agreement(candidates[n], ref) > rest then q.agreement(candidates[n], ref) else rest
  }

  datatype Resolution = Resolution(ref: nat, candidates: seq<SectionId>, chosen: SectionId, discriminated: bool)

  function ResolveRef(q: Query, ref: nat): Option<Resolution> {
    var candidates := CandidatesOf(q, ref);
    if candidates == [] then None
    else if |candidates| == 1 then Some(Resolution(ref, candidates, candidates[0], true))
    else
      var best := BestOf(q, ref, candidates);
      var discriminated := q.agreement(best, ref) > 0 && q.agreement(best, ref) > RunnerUp(q, ref, candidates, best);
      Some(Resolution(ref, candidates, if discriminated then best else candidates[0], discriminated))
  }

  function Resolutions(q: Query, refs: seq<nat>): seq<Resolution> {
    if refs == [] then []
    else
      var n := |refs| - 1;
      var r := ResolveRef(q, refs[n]);
      Resolutions(q, refs[..n]) + (if r.Some? then [r.value] else [])
  }

  method ResolveSectionRefs(q: Query) returns (resolutions: seq<Resolution>)
    ensures resolutions == Resolutions(q, q.refs)
  {
    resolutions := [];
    for n := 0 to |q.refs|
      invariant resolutions == Resolutions(q, q.refs[..n])
    {
      assert q.refs[..n + 1][..n] == q.refs[..n];
      var ref := q.refs[n];
      var candidates := CandidatesOf(q, ref);
      if candidates == [] {
        continue;
      }
      if |candidates| == 1 {
        resolutions := resolutions + [Resolution(ref, candidates, candidates[0], true)];
        continue;
      }
      var best := BestOf(q, ref, candidates);
      var runnerUp := RunnerUp(q, ref, candidates, best);
      var discriminated := q.agreement(best, ref) > 0 && q.agreement(best, ref) > runnerUp;
      resolutions := resolutions + [Resolution(ref, candidates, if discriminated then best else candidates[0], discriminated)];
    }
    assert q.refs[..|q.refs|] == q.refs;
  }

  /** The ask separates `s` from every other candidate: positive and strictly best. */
  ghost predicate StrictlyBest(q: Query, ref: nat, candidates: seq<SectionId>, s: SectionId) {
    && s in candidates && q.agreement(s, ref) > 0
    && forall c :: c in candidates && c != s ==> q.agreement(c, ref) < q.agreement(s, ref)
  }

  /** Several candidates: the unique strictly best one if the ask names it, else the first in document order. */
  lemma ResolvesToStrictBestElseFirst(q: Query, ref: nat, s: SectionId)
    requires |CandidatesOf(q, ref)| >= 2
    ensures ResolveRef(q, ref).Some?
    ensures var r := ResolveRef(q, ref).value;
      && (r.discriminated && r.chosen == s <==> StrictlyBest(q, ref, r.candidates, s))
      && (!r.discriminated ==> r.chosen == r.candidates[0])
      && (forall c :: c in r.candidates ==> r.candidates[0] <= c)
  {
    var candidates := CandidatesOf(q, ref);
    var best := BestOf(q, ref, candidates);
    var runnerUp := RunnerUp(q, ref, candidates, best);
    FilterKeepsOrder(Upto(|q.startLines|), (t: SectionId) => q.matches(t, ref));
    if StrictlyBest(q, ref, candidates, s) {
      assert best == s;
    }
    forall c | c in candidates ensures candidates[0] <= c {
      var i :| 0 <= i < |candidates| && candidates[i] == c;
    }
  }

  ghost predicate InIncreasingOrder(s: seq<nat>) {
    forall i, j :: 0 <= i < j < |s| ==> s[i] < s[j]
  }

  lemma {:induction false} FilterKeepsOrder(s: seq<nat>, p: nat -> bool)
    requires InIncreasingOrder(s)
    ensures InIncreasingOrder(Filter(s, p))
  {
    if s != [] {
      FilterKeepsOrder(s[1..], p);
      var rest := Filter(s[1..], p);
      forall k | 0 <= k < |rest| ensures s[0] < rest[k] {
        assert rest[k] in rest;
        var i :| 0 <= i < |s[1..]| && s[1..][i] == rest[k];
      }
    }
  }

  // ----- Scoring -----

  predicate IsRef(q: Query, s: SectionId) {
    exists ref :: ref in q.refs && q.matches(s, ref)
  }

  /** The sections some reference resolved to. */
  function Chosen(q: Query): set<SectionId> {
    set r | r in Resolutions(q, q.refs) :: r.chosen
  }

  datatype Score = Score(section: SectionId, tier: Tier, refRank: nat, bodyScore: nat)

  function ScoreOf(q: Query, s: SectionId): Score {
    Score(
      s,
      if IsRef(q, s) then ByRef else ByHeading(q.heading(s)),
      if !IsRef(q, s) then 0 else if s in Chosen(q) then 2 else 1,
      q.body(s))
  }

  function Scores(q: Query): seq<Score> {
    seq(|q.startLines|, i requires 0 <= i < |q.startLines| => ScoreOf(q, i))
  }

  predicate Relevant(s: Score) {
    TierRank(s.tier) > 0 || s.bodyScore > 0
  }

  /** Identity first, resolution second, body volume last. */
  predicate RanksAtLeast(a: Score, b: Score) {
    TierRank(a.tier) > TierRank(b.tier)
    || (TierRank(a.tier) == TierRank(b.tier)
        && (a.refRank > b.refRank || (a.refRank == b.refRank && a.bodyScore >= b.bodyScore)))
  }

  function Ranked(q: Query): seq<Score> {
    Sorting.Sort(Filter(Scores(q), Relevant), RanksAtLeast)
  }

  function Cut<T>(s: seq<T>, max: int): seq<T> {
    if max <= 0 then [] else if |s| <= max then s else s[..max]
  }

  function StartLine(q: Query, s: Score): nat {
    if s.section < |q.startLines| then q.startLines[s.section] else 0
  }

  /** `asked` is whether the ask carries any text. */
  function MatchedDocSections(q: Query, asked: bool, maxSections: int): seq<Score> {
    if !asked then []
    else Sorting.Sort(Cut(Ranked(q), maxSections), StartsFirst(q))
  }

  function StartsFirst(q: Query): (Score, Score) -> bool {
    (a, b) => StartLine(q, a) <= StartLine(q, b)
  }

  // ----- The selection -----

  lemma ScoresDistinct(q: Query)
    ensures NoDuplicates(Scores(q))
    ensures forall s :: s in Scores(q) <==> s.section < |q.startLines| && s == ScoreOf(q, s.section)
  {
    forall s: Score | s.section < |q.startLines| && s == ScoreOf(q, s.section) ensures s in Scores(q) {
      assert Scores(q)[s.section] == s;
    }
  }

  lemma {:induction false} FilterNoDuplicates<T(!new)>(s: seq<T>, p: T -> bool)
    requires NoDuplicates(s)
    ensures NoDuplicates(Filter(s, p))
  {
    if s != [] {
      FilterNoDuplicates(s[1..], p);
      assert forall i :: 1 <= i < |s| ==> s[i] != s[0];
      assert s[0] !in s[1..];
    }
  }

  /** The ranked list: each relevant section once, better ranks first. */
  lemma RankedIsSorted(q: Query)
    ensures NoDuplicates(Ranked(q))
    ensures Sorting.Sorted(Ranked(q), RanksAtLeast)
    ensures forall s :: s in Ranked(q) <==> s in Scores(q) && Relevant(s)
  {
    var relevant := Filter(Scores(q), Relevant);
    ScoresDistinct(q);
    FilterNoDuplicates(Scores(q), Relevant);
    Sorting.SortSorted(relevant, RanksAtLeast);
    Sorting.SameMembers(Ranked(q), relevant);
    DuplicateFree(relevant, Ranked(q));
  }

  lemma SelectionIsACut(q: Query, asked: bool, maxSections: int)
    requires asked
    ensures var out := MatchedDocSections(q, asked, maxSections);
      && multiset(out) == multiset(Cut(Ranked(q), maxSections))
      && (forall s :: s in out <==> s in Cut(Ranked(q), maxSections))
  {
    Sorting.SameMembers(MatchedDocSections(q, asked, maxSections), Cut(Ranked(q), maxSections));
  }

  /** Nothing left out outranks anything selected. */
  lemma NoOmittedSectionOutranks(q: Query, maxSections: int, selected: Score, omitted: Score)
    requires selected in MatchedDocSections(q, true, maxSections)
    requires omitted in Scores(q) && omitted !in MatchedDocSections(q, true, maxSections)
    ensures RanksAtLeast(selected, omitted)
  {
    RankedIsSorted(q);
    SelectionIsACut(q, true, maxSections);
    var ranked := Ranked(q);
    var i :| 0 <= i < |Cut(ranked, maxSections)| && Cut(ranked, maxSections)[i] == selected;
    assert ranked[i] == selected;
    if Relevant(omitted) {
      var j :| 0 <= j < |ranked| && ranked[j] == omitted;
      assert j >= |Cut(ranked, maxSections)|;
    } else {
      assert omitted.refRank == 0;
    }
  }

  lemma {:induction false} ResolutionsMatch(q: Query, refs: seq<nat>)
    requires forall ref :: ref in refs ==> ref in q.refs
    ensures forall r :: r in Resolutions(q, refs) ==> r.chosen < |q.startLines| && IsRef(q, r.chosen)
  {
    if refs != [] {
      var n := |refs| - 1;
      ResolutionsMatch(q, refs[..n]);
      var r := ResolveRef(q, refs[n]);
      if r.Some? {
        assert r.value.chosen in CandidatesOf(q, refs[n]);
        assert q.matches(r.value.chosen, refs[n]);
      }
    }
  }

  /** A score at least as good as a resolved section's belongs to a resolved section. */
  lemma OnlyResolvedRankAsHigh(q: Query, a: Score, b: Score)
    requires a in Scores(q) && b in Scores(q) && b.section in Chosen(q) && RanksAtLeast(a, b)
    ensures a.section in Chosen(q)
  {
    ScoresDistinct(q);
    ResolutionsMatch(q, q.refs);
    assert b.tier == ByRef && b.refRank == 2;
  }

  /**
   * Whatever the body keyword counts: when the resolved sections are at most `maxSections`, every
   * one of them is selected.
   */
  lemma EveryResolvedSectionIsSelected(q: Query, maxSections: int, s: SectionId)
    requires s in Chosen(q) && |Chosen(q)| <= maxSections
    ensures ScoreOf(q, s) in MatchedDocSections(q, true, maxSections)
  {
    hide ScoreOf;
    hide Ranked;
    hide Chosen;
    hide MatchedDocSections;
    SelectionIsACut(q, true, maxSections);
    var ranked := Ranked(q);
    var j := ResolvedIsRanked(q, s);
    if j >= maxSections {
      AheadOfResolved(q, j);
      DistinctSectionsFit(q, ranked[..j + 1]);
    }
    assert j < maxSections;
    assert Cut(ranked, maxSections)[j] == ScoreOf(q, s);
  }

  lemma ResolvedIsRanked(q: Query, s: SectionId) returns (j: nat)
    requires s in Chosen(q)
    ensures j < |Ranked(q)| && Ranked(q)[j] == ScoreOf(q, s) && Ranked(q)[j].section == s
  {
    RankedIsSorted(q);
    ResolutionsMatch(q, q.refs);
    ScoresDistinct(q);
    hide Scores;
    var ranked, mine := Ranked(q), ScoreOf(q, s);
    hide Ranked;
    assert mine in Scores(q) && mine.tier == ByRef;
    j :| 0 <= j < |ranked| && ranked[j] == mine;
  }

  /** Everything ranked at or before a resolved section is resolved too. */
  lemma AheadOfResolved(q: Query, j: nat)
    requires j < |Ranked(q)| && Ranked(q)[j].section in Chosen(q)
    ensures NoDuplicates(Ranked(q)[..j + 1])
    ensures forall s :: s in Ranked(q)[..j + 1] ==> s in Scores(q) && s.section in Chosen(q)
  {
    RankedIsSorted(q);
    var ranked := Ranked(q);
    forall i | 0 <= i <= j ensures ranked[i] in Scores(q) && ranked[i].section in Chosen(q) {
      assert ranked[i] in ranked && ranked[j] in ranked;
      if i < j {
        assert RanksAtLeast(ranked[i], ranked[j]);
        OnlyResolvedRankAsHigh(q, ranked[i], ranked[j]);
      }
    }
  }

  lemma DistinctSectionsFit(q: Query, scores: seq<Score>)
    requires NoDuplicates(scores) && forall s :: s in scores ==> s in Scores(q) && s.section in Chosen(q)
    ensures |scores| <= |Chosen(q)|
  {
    hide Chosen;
    hide Scores;
    ScoresDistinct(q);
    var sections := seq(|scores|, i requires 0 <= i < |scores| => scores[i].section);
    forall i, j | 0 <= i < j < |sections| ensures sections[i] != sections[j] {
      assert scores[i] in scores && scores[j] in scores;
      assert scores[i] == ScoreOf(q, scores[i].section) && scores[j] == ScoreOf(q, scores[j].section);
    }
    DistinctLength(sections);
    var elements := Elements(sections);
    forall x | x in elements ensures x in Chosen(q) {
      var i :| 0 <= i < |sections| && sections[i] == x;
      assert scores[i] in scores;
    }
    SubsetSize(elements, Chosen(q));
  }

  /** The selection is in document order, each section once, and as many as fit. */
  lemma SelectionInDocumentOrder(q: Query, maxSections: int)
    requires InDocumentOrder(q)
    ensures var out := MatchedDocSections(q, true, maxSections);
      && (forall i, j :: 0 <= i < j < |out| ==> out[i].section < out[j].section)
      && |out| == |Cut(Filter(Scores(q), Relevant), maxSections)|
  {
    hide *;
    var cut := Cut(Ranked(q), maxSections);
    SelectionSorts(q, maxSections);
    CutIsDistinct(q, maxSections);
    SortedByStartLine(q, cut);
  }

  lemma SelectionSorts(q: Query, maxSections: int)
    ensures MatchedDocSections(q, true, maxSections) == Sorting.Sort(Cut(Ranked(q), maxSections), StartsFirst(q))
  {
    hide Sorting.Sort;
    hide Ranked;
    hide Cut;
  }

  /** Sorting distinct scores by start line puts their sections in document order. */
  lemma SortedByStartLine(q: Query, cut: seq<Score>)
    requires InDocumentOrder(q) && NoDuplicates(cut) && forall s :: s in cut ==> s in Scores(q)
    ensures var out := Sorting.Sort(cut, StartsFirst(q));
      forall i, j :: 0 <= i < j < |out| ==> out[i].section < out[j].section
  {
    hide Sorting.Sort;
    hide InDocumentOrder;
    hide Scores;
    hide ScoreOf;
    var le := StartsFirst(q);
    var out := Sorting.Sort(cut, le);
    ScoresDistinct(q);
    Sorting.SortSorted(cut, le);
    Sorting.SameMembers(out, cut);
    DuplicateFree(cut, out);
    forall i, j | 0 <= i < j < |out| ensures out[i].section < out[j].section {
      assert le(out[i], out[j]);
      assert out[i] in cut && out[j] in cut;
      assert out[i] == ScoreOf(q, out[i].section) && out[j] == ScoreOf(q, out[j].section);
      StartLinesOrder(q, out[i].section, out[j].section);
    }
  }

  lemma CutIsDistinct(q: Query, maxSections: int)
    ensures var cut := Cut(Ranked(q), maxSections);
      && NoDuplicates(cut) && (forall s :: s in cut ==> s in Scores(q))
      && |cut| == |Cut(Filter(Scores(q), Relevant), maxSections)|
  {
    assert |Ranked(q)| == |Filter(Scores(q), Relevant)|;
    RankedIsSorted(q);
    hide Scores;
    hide Ranked;
    hide Filter;
  }

  lemma StartLinesOrder(q: Query, a: SectionId, b: SectionId)
    requires InDocumentOrder(q) && a < |q.startLines| && b < |q.startLines|
    requires a != b && q.startLines[a] <= q.startLines[b]
    ensures a < b
  {
  }
}
