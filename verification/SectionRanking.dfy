/**
 * Which sections an ask selects (`resolveSectionRefs`, `matchedDocSections`,
 * packages/sidecar/src/docs.ts), section by section.
 */
module SectionRanking {
  import opened Common
  import opened SectionRefs
  import Sorting

  // ----- What a reference resolves to -----

  ghost predicate MayMean(q: Query, ref: nat, s: SectionId) {
    s < |q.startLines| && q.matches(s, ref)
  }

  /** The ask agrees with `s`, and with no other section the reference may mean as much. */
  ghost predicate Named(q: Query, ref: nat, s: SectionId) {
    && MayMean(q, ref, s) && q.agreement(s, ref) > 0
    && forall c :: MayMean(q, ref, c) && c != s ==> q.agreement(c, ref) < q.agreement(s, ref)
  }

  /** The only section the reference may mean, or the one the ask names, or else the first. */
  ghost predicate ResolvesTo(q: Query, ref: nat, s: SectionId) {
    && MayMean(q, ref, s)
    && (|| (forall c :: MayMean(q, ref, c) ==> c == s)
        || Named(q, ref, s)
        || ((forall c :: !Named(q, ref, c)) && forall c :: MayMean(q, ref, c) ==> s <= c))
  }

  /** The ask itself tells: there is only one such section, or it names one. */
  ghost predicate Told(q: Query, ref: nat) {
    || (exists s :: MayMean(q, ref, s) && forall c :: MayMean(q, ref, c) ==> c == s)
    || (exists s :: Named(q, ref, s))
  }

  lemma CandidatesMayBeMeant(q: Query, ref: nat)
    ensures var candidates := CandidatesOf(q, ref);
      && (forall s: SectionId :: s in candidates <==> MayMean(q, ref, s))
      && InIncreasingOrder(candidates)
  {
    FilterKeepsOrder(Upto(|q.startLines|), (s: SectionId) => q.matches(s, ref));
    forall s: SectionId ensures s in CandidatesOf(q, ref) <==> MayMean(q, ref, s) {
      if s < |q.startLines| {
        assert Upto(|q.startLines|)[s] == s;
      }
    }
  }

  lemma NamedIsStrictlyBest(q: Query, ref: nat, s: SectionId)
    ensures Named(q, ref, s) <==> StrictlyBest(q, ref, CandidatesOf(q, ref), s)
  {
    CandidatesMayBeMeant(q, ref);
    hide CandidatesOf;
  }

  /**
   * A reference resolves exactly when some section may be meant; it then lists all of these in
   * document order, resolves as specified, and says whether the ask told.
   */
  lemma ReferenceResolvesAsSpecified(q: Query, ref: nat)
    ensures ResolveRef(q, ref).None? <==> forall s :: !MayMean(q, ref, s)
    ensures ResolveRef(q, ref).Some? ==>
      var r := ResolveRef(q, ref).value;
      && r.ref == ref && InIncreasingOrder(r.candidates)
      && (forall s: SectionId :: s in r.candidates <==> MayMean(q, ref, s))
      && (forall s :: ResolvesTo(q, ref, s) <==> r.chosen == s)
      && (r.discriminated <==> Told(q, ref))
  {
    CandidatesMayBeMeant(q, ref);
    var candidates := CandidatesOf(q, ref);
    if candidates != [] {
      assert candidates[0] in candidates;
      forall s: SectionId ensures Named(q, ref, s) <==> StrictlyBest(q, ref, candidates, s) {
        NamedIsStrictlyBest(q, ref, s);
      }
      if |candidates| >= 2 {
        SeveralResolve(q, ref);
      } else {
        OneResolves(q, ref);
      }
    }
  }

  lemma OneResolves(q: Query, ref: nat)
    requires |CandidatesOf(q, ref)| == 1
    ensures var r := ResolveRef(q, ref).value;
      && r.ref == ref && r.candidates == CandidatesOf(q, ref) && r.discriminated && Told(q, ref)
      && forall s :: ResolvesTo(q, ref, s) <==> r.chosen == s
  {
    CandidatesMayBeMeant(q, ref);
    var candidates := CandidatesOf(q, ref);
    hide CandidatesOf;
    assert candidates[0] in candidates;
    assert forall c :: MayMean(q, ref, c) ==> c in candidates && c == candidates[0];
    assert MayMean(q, ref, candidates[0]);
  }

  lemma SeveralResolve(q: Query, ref: nat)
    requires |CandidatesOf(q, ref)| >= 2
    ensures ResolveRef(q, ref).Some?
    ensures var r := ResolveRef(q, ref).value;
      && r.ref == ref && r.candidates == CandidatesOf(q, ref)
      && (forall s :: ResolvesTo(q, ref, s) <==> r.chosen == s)
      && (r.discriminated <==> Told(q, ref))
  {
    CandidatesMayBeMeant(q, ref);
    var r := ResolveRef(q, ref).value;
    forall s: SectionId
      ensures Named(q, ref, s) <==> r.discriminated && r.chosen == s
      ensures !r.discriminated ==> r.chosen == r.candidates[0]
    {
      NamedIsStrictlyBest(q, ref, s);
      ResolvesToStrictBestElseFirst(q, ref, s);
    }
    hide ResolveRef;
    hide CandidatesOf;
    SeveralMeanings(q, ref, r);
  }

  /** With several sections to mean, the reference resolves to the one named, or else to the first. */
  lemma SeveralMeanings(q: Query, ref: nat, r: Resolution)
    requires |r.candidates| >= 2 && InIncreasingOrder(r.candidates)
    requires forall s: SectionId :: s in r.candidates <==> MayMean(q, ref, s)
    requires forall s: SectionId :: Named(q, ref, s) <==> r.discriminated && r.chosen == s
    requires !r.discriminated ==> r.chosen == r.candidates[0]
    ensures forall s :: ResolvesTo(q, ref, s) <==> r.chosen == s
    ensures r.discriminated <==> Told(q, ref)
  {
    var first, second := r.candidates[0], r.candidates[1];
    assert MayMean(q, ref, first) && MayMean(q, ref, second) && first != second;
    assert r.discriminated ==> Named(q, ref, r.chosen);
    NamedMayBeMeant(q, ref, r.chosen);
    hide Named;
    hide MayMean;
    forall c: SectionId | MayMean(q, ref, c) ensures first <= c {
      assert c in r.candidates;
    }
  }

  lemma NamedMayBeMeant(q: Query, ref: nat, s: SectionId)
    ensures Named(q, ref, s) ==> MayMean(q, ref, s)
  {
  }

  ghost predicate HasMeaning(q: Query, ref: nat) {
    ResolveRef(q, ref).Some?
  }

  /** One resolution for every reference some section may answer, in the order the ask lists them. */
  lemma {:induction false} OneResolutionPerReference(q: Query, refs: seq<nat>)
    ensures var rs, resolved := Resolutions(q, refs), Filter(refs, ref => HasMeaning(q, ref));
      |rs| == |resolved| && forall k :: 0 <= k < |rs| ==> ResolveRef(q, resolved[k]) == Some(rs[k])
  {
    hide ResolveRef;
    if refs != [] {
      var n := |refs| - 1;
      OneResolutionPerReference(q, refs[..n]);
      assert refs == refs[..n] + [refs[n]];
      FilterAppend(refs[..n], [refs[n]], ref => HasMeaning(q, ref));
    }
  }

  /** Some reference of the ask resolves to this section. */
  ghost predicate Resolved(q: Query, s: SectionId) {
    exists ref :: ref in q.refs && ResolvesTo(q, ref, s)
  }

  lemma ChosenAreResolved(q: Query, s: SectionId)
    ensures s in Chosen(q) <==> Resolved(q, s)
  {
    var rs, refs := Resolutions(q, q.refs), Filter(q.refs, ref => HasMeaning(q, ref));
    OneResolutionPerReference(q, q.refs);
    forall ref: nat
      ensures ResolvesTo(q, ref, s) <==> ResolveRef(q, ref).Some? && ResolveRef(q, ref).value.chosen == s
    {
      ReferenceResolvesAsSpecified(q, ref);
    }
    hide Resolutions;
    hide ResolveRef;
    hide ResolvesTo;
    if s in Chosen(q) {
      var k :| 0 <= k < |rs| && rs[k].chosen == s;
      assert refs[k] in refs;
    }
    if ref :| ref in q.refs && ResolvesTo(q, ref, s) {
      assert ref in refs;
      var k :| 0 <= k < |refs| && refs[k] == ref;
      assert rs[k] in rs;
    }
  }

  // ----- The ranking -----

  /** Some reference of the ask may mean this section. */
  ghost predicate Referenced(q: Query, s: SectionId) {
    exists ref :: ref in q.refs && q.matches(s, ref)
  }

  /** `a` is the stronger heading match. */
  ghost predicate Stronger(a: HeadingMatch, b: HeadingMatch) {
    match (a, b)
    case (Exact, _) => b != Exact
    case (Strong, _) => b != Exact && b != Strong
    case (Partial, _) => b == NoMatch
    case (NoMatch, _) => false
  }

  /**
   * Section `a` ranks before section `b`: identity first (a reference, then the heading), then what
   * the references resolved to, then body volume, then document order.
   */
  ghost predicate RanksBefore(q: Query, a: SectionId, b: SectionId) {
    if Referenced(q, a) != Referenced(q, b) then Referenced(q, a)
    else if Referenced(q, a) && Resolved(q, a) != Resolved(q, b) then Resolved(q, a)
    else if !Referenced(q, a) && q.heading(a) != q.heading(b) then Stronger(q.heading(a), q.heading(b))
    else if q.body(a) != q.body(b) then q.body(a) > q.body(b)
    else a < b
  }

  /** Something in the ask speaks for this section. */
  ghost predicate SpeaksFor(q: Query, s: SectionId) {
    s < |q.startLines| && (Referenced(q, s) || q.heading(s) != NoMatch || q.body(s) > 0)
  }

  ghost function AheadOf(q: Query, s: SectionId): set<SectionId> {
    set t: SectionId | t < |q.startLines| && SpeaksFor(q, t) && RanksBefore(q, t, s)
  }

  ghost predicate EarlierSection(a: Score, b: Score) {
    a.section < b.section
  }

  /** The comparator with document order on ties is the specified ranking. */
  lemma ScoresRankAsSpecified(q: Query, a: SectionId, b: SectionId)
    requires a != b
    ensures var (x, y) := (ScoreOf(q, a), ScoreOf(q, b));
      RanksBefore(q, a, b) <==> RanksAtLeast(x, y) && (RanksAtLeast(y, x) ==> EarlierSection(x, y))
    ensures RanksBefore(q, a, b) <==> !RanksBefore(q, b, a)
  {
    ChosenAreResolved(q, a);
    ChosenAreResolved(q, b);
    hide Resolved;
    hide Chosen;
    assert Referenced(q, a) == IsRef(q, a) && Referenced(q, b) == IsRef(q, b);
    hide Referenced;
    hide IsRef;
  }

  lemma RelevantSpeaks(q: Query, s: SectionId)
    requires s < |q.startLines|
    ensures Relevant(ScoreOf(q, s)) <==> SpeaksFor(q, s)
  {
    hide Chosen;
    assert Referenced(q, s) == IsRef(q, s);
    hide Referenced;
    hide IsRef;
  }

  lemma RankedStably(q: Query)
    ensures Sorting.StablySorted(Ranked(q), RanksAtLeast, EarlierSection)
  {
    hide ScoreOf;
    hide RanksAtLeast;
    var relevant := Filter(Scores(q), Relevant);
    ScoresAscend(q);
    FilterAscends(Scores(q), Relevant);
    RankingIsTotal();
    Sorting.SortKeepsTiesInOrder(relevant, RanksAtLeast, EarlierSection);
  }

  lemma RankingIsTotal()
    ensures Sorting.TotalPreorder(RanksAtLeast)
  {
  }

  ghost predicate SectionsAscend(scores: seq<Score>) {
    forall i, j :: 0 <= i < j < |scores| ==> EarlierSection(scores[i], scores[j])
  }

  lemma ScoresAscend(q: Query)
    ensures SectionsAscend(Scores(q))
  {
  }

  lemma {:induction false} FilterAscends(scores: seq<Score>, p: Score -> bool)
    requires SectionsAscend(scores)
    ensures SectionsAscend(Filter(scores, p))
  {
    if scores != [] {
      FilterAscends(scores[1..], p);
      var rest := Filter(scores[1..], p);
      forall k | 0 <= k < |rest| ensures EarlierSection(scores[0], rest[k]) {
        assert rest[k] in rest;
        var i :| 0 <= i < |scores[1..]| && scores[1..][i] == rest[k];
      }
    }
  }

  /** The ranked list holds each section the ask speaks for once, in the specified order. */
  lemma RankedAsSpecified(q: Query)
    ensures forall x :: x in Ranked(q) ==> x == ScoreOf(q, x.section) && SpeaksFor(q, x.section)
    ensures forall s: SectionId :: SpeaksFor(q, s) ==> ScoreOf(q, s) in Ranked(q)
    ensures forall i, j :: 0 <= i < j < |Ranked(q)| ==>
      Ranked(q)[i].section != Ranked(q)[j].section && RanksBefore(q, Ranked(q)[i].section, Ranked(q)[j].section)
  {
    RankedIsSorted(q);
    ScoresDistinct(q);
    RankedStably(q);
    var ranked := Ranked(q);
    forall s: SectionId | s < |q.startLines| ensures Relevant(ScoreOf(q, s)) <==> SpeaksFor(q, s) {
      RelevantSpeaks(q, s);
    }
    ScoreSections(q);
    hide Ranked;
    hide Scores;
    hide ScoreOf;
    hide RanksAtLeast;
    hide Relevant;
    hide SpeaksFor;
    hide RanksBefore;
    forall x | x in ranked ensures x == ScoreOf(q, x.section) && SpeaksFor(q, x.section) {
      assert x in Scores(q);
    }
    forall s: SectionId | SpeaksFor(q, s) ensures ScoreOf(q, s) in ranked {
      assert ScoreOf(q, s) in Scores(q);
    }
    forall i, j | 0 <= i < j < |ranked|
      ensures ranked[i].section != ranked[j].section && RanksBefore(q, ranked[i].section, ranked[j].section)
    {
      assert ranked[i] in ranked && ranked[j] in ranked;
      ScoresRankAsSpecified(q, ranked[i].section, ranked[j].section);
    }
  }

  lemma ScoreSections(q: Query)
    ensures forall s: SectionId :: ScoreOf(q, s).section == s
    ensures forall s: SectionId :: SpeaksFor(q, s) ==> s < |q.startLines|
  {
  }

  ghost predicate Selects(q: Query, asked: bool, maxSections: int, s: SectionId) {
    exists x :: x in MatchedDocSections(q, asked, maxSections) && x.section == s
  }

  /**
   * A section is selected if and only if the ask has text and speaks for it, and fewer than
   * `maxSections` sections it speaks for rank before it.
   */
  lemma SelectedExactly(q: Query, asked: bool, maxSections: int, s: SectionId)
    ensures Selects(q, asked, maxSections, s) <==> asked && SpeaksFor(q, s) && |AheadOf(q, s)| < maxSections
  {
    if asked {
      SelectionIsACut(q, asked, maxSections);
      RankedAsSpecified(q);
      ScoreSections(q);
      var ranked := Ranked(q);
      CutPrefix(ranked, maxSections);
      hide *;
      if SpeaksFor(q, s) {
        var i :| 0 <= i < |ranked| && ranked[i] == ScoreOf(q, s);
        CountAhead(q, i, s);
        SelectedByPosition(q, maxSections, i, s);
      } else {
        SelectedAreRanked(q, maxSections, s);
      }
    }
  }

  lemma CutPrefix<T>(s: seq<T>, max: int)
    ensures Cut(s, max) <= s && |Cut(s, max)| == if max <= 0 then 0 else if |s| <= max then |s| else max
  {
  }

  lemma SelectedAreRanked(q: Query, maxSections: int, s: SectionId)
    ensures Selects(q, true, maxSections, s) ==> SpeaksFor(q, s)
  {
    SelectionIsACut(q, true, maxSections);
    RankedAsSpecified(q);
    CutPrefix(Ranked(q), maxSections);
    hide *;
    UnfoldSelects(q, true, maxSections, s);
  }

  lemma UnfoldSelects(q: Query, asked: bool, maxSections: int, s: SectionId)
    ensures Selects(q, asked, maxSections, s) <==> exists x :: x in MatchedDocSections(q, asked, maxSections) && x.section == s
  {
  }

  lemma SelectedByPosition(q: Query, maxSections: int, i: nat, s: SectionId)
    requires i < |Ranked(q)| && Ranked(q)[i].section == s
    ensures Selects(q, true, maxSections, s) <==> i < maxSections
  {
    SelectionIsACut(q, true, maxSections);
    RankedAsSpecified(q);
    CutPrefix(Ranked(q), maxSections);
    UnfoldSelects(q, true, maxSections, s);
    hide *;
    var ranked, cut := Ranked(q), Cut(Ranked(q), maxSections);
    if i < maxSections {
      assert cut[i] == ranked[i];
      assert cut[i] in MatchedDocSections(q, true, maxSections);
    }
    if x :| x in MatchedDocSections(q, true, maxSections) && x.section == s {
      assert x in cut;
      var j :| 0 <= j < |cut| && cut[j] == x;
      assert ranked[j].section == s;
      assert i == j;
    }
  }

  lemma CountAhead(q: Query, i: nat, s: SectionId)
    requires i < |Ranked(q)| && Ranked(q)[i].section == s
    ensures |AheadOf(q, s)| == i
  {
    RankedAsSpecified(q);
    ScoreSections(q);
    var ranked := Ranked(q);
    hide Ranked;
    hide ScoreOf;
    hide SpeaksFor;
    var ahead := seq(i, k requires 0 <= k < i => ranked[k].section);
    forall t: SectionId ensures t in AheadOf(q, s) <==> t in Elements(ahead) {
      AheadByPosition(q, i, s, t);
      assert forall k :: 0 <= k < i ==> ahead[k] == ranked[k].section;
      assert t in Elements(ahead) <==> exists k :: 0 <= k < i && ahead[k] == t;
    }
    assert AheadOf(q, s) == Elements(ahead);
    DistinctLength(ahead);
  }

  lemma AheadByPosition(q: Query, i: nat, s: SectionId, t: SectionId)
    requires i < |Ranked(q)| && Ranked(q)[i].section == s
    ensures t in AheadOf(q, s) <==> exists k :: 0 <= k < i && Ranked(q)[k].section == t
  {
    RankedAsSpecified(q);
    ScoreSections(q);
    var ranked := Ranked(q);
    hide Ranked;
    hide ScoreOf;
    hide SpeaksFor;
    if SpeaksFor(q, t) {
      var k :| 0 <= k < |ranked| && ranked[k] == ScoreOf(q, t);
      assert ranked[k].section == t;
      if k > i {
        ScoresRankAsSpecified(q, s, t);
      } else if k == i {
        assert !RanksBefore(q, t, s);
      }
      hide RanksBefore;
    }
    if k :| 0 <= k < i && ranked[k].section == t {
      assert ranked[k] in ranked;
      hide RanksBefore;
    }
  }
}
