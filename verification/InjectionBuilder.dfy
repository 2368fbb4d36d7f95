/** `buildInjection` itself: the loops of packages/sidecar/src/codex.ts over mutable section lists. */
module InjectionBuilder {
  import opened Common
  import opened Injection
  import Sorting

  // ----- The learned sub-budget -----

  datatype LearnedEntry = LearnedEntry(candidate: string, confidence: real)

  predicate MoreConfident(a: LearnedEntry, b: LearnedEntry) {
    a.confidence >= b.confidence
  }

  function ByConfidence(entries: seq<LearnedEntry>): seq<LearnedEntry> {
    Sorting.Sort(entries, MoreConfident)
  }

  function Reversed<T>(s: seq<T>): (r: seq<T>)
    ensures |r| == |s|
  {
    if s == [] then [] else Reversed(s[1..]) + [s[0]]
  }

  function Candidates(entries: seq<LearnedEntry>): seq<string> {
    seq(|entries|, i requires 0 <= i < |entries| => entries[i].candidate)
  }

  lemma SameLength(learned: seq<LearnedEntry>)
    ensures |ByConfidence(learned)| == |learned|
  {
  }

  /** Pops the least confident entry until the section fits: the longest fitting prefix is kept. */
  method TrimLearned(learned: seq<LearnedEntry>, sectionTokens: seq<LearnedEntry> -> nat, budget: nat)
    returns (kept: seq<LearnedEntry>, excluded: seq<LearnedEntry>)
    ensures ByConfidence(learned) == kept + Reversed(excluded)
    ensures kept == [] || sectionTokens(kept) <= budget
    ensures forall n :: |kept| < n <= |learned| ==> sectionTokens(ByConfidence(learned)[..n]) > budget
    ensures forall a, b :: a in kept && b in excluded ==> a.confidence >= b.confidence
  {
    hide ByConfidence;
    var sorted := ByConfidence(learned);
    kept, excluded := sorted, [];
    SameLength(learned);
    while kept != [] && sectionTokens(kept) > budget
      invariant kept <= sorted && sorted == kept + Reversed(excluded)
      invariant forall n :: |kept| < n <= |sorted| ==> sectionTokens(sorted[..n]) > budget
      decreases |kept|
    {
      var popped := kept[|kept| - 1];
      assert sorted[..|kept|] == kept;
      excluded := excluded + [popped];
      kept := kept[..|kept| - 1];
      ReversedSnoc(excluded[..|excluded| - 1], popped);
    }
    KeptOutrankExcluded(learned, kept, excluded);
  }

  lemma KeptOutrankExcluded(learned: seq<LearnedEntry>, kept: seq<LearnedEntry>, excluded: seq<LearnedEntry>)
    requires ByConfidence(learned) == kept + Reversed(excluded)
    ensures forall a, b :: a in kept && b in excluded ==> a.confidence >= b.confidence
  {
    var sorted := ByConfidence(learned);
    Sorting.SortSorted(learned, MoreConfident);
    ReversedMembers(excluded);
    hide Reversed;
    hide Sorting.Sort;
    forall a, b | a in kept && b in excluded ensures a.confidence >= b.confidence {
      var i :| 0 <= i < |kept| && kept[i] == a;
      var j :| 0 <= j < |excluded| && Reversed(excluded)[j] == b;
      assert sorted[i] == a && sorted[|kept| + j] == b;
      assert MoreConfident(sorted[i], sorted[|kept| + j]);
    }
  }

  lemma {:induction false} ReversedSnoc<T>(s: seq<T>, x: T)
    ensures Reversed(s + [x]) == [x] + Reversed(s)
  {
    if s != [] {
      assert (s + [x])[1..] == s[1..] + [x];
      ReversedSnoc(s[1..], x);
    }
  }

  lemma {:induction false} ReversedMembers<T>(s: seq<T>)
    ensures forall x :: x in s <==> x in Reversed(s)
  {
    if s != [] {
      ReversedMembers(s[1..]);
      assert s == [s[0]] + s[1..];
    }
  }

  // ----- The list of dropped sections -----

  ghost predicate RanksAscend(s: seq<Section>) {
    forall i, j :: 0 <= i < j < |s| ==> Rank(s[i]) < Rank(s[j])
  }

  lemma OrderedAscending(d: set<Section>)
    ensures RanksAscend(Ordered(d))
  {
    PrefixAscending(d, |DEGRADE_ORDER|);
    assert DEGRADE_ORDER[..|DEGRADE_ORDER|] == DEGRADE_ORDER;
  }

  lemma {:induction false} PrefixAscending(d: set<Section>, n: nat)
    requires n <= |DEGRADE_ORDER|
    ensures RanksAscend(Filter(DEGRADE_ORDER[..n], s => s in d))
    ensures forall s :: s in Filter(DEGRADE_ORDER[..n], s => s in d) ==> Rank(s) < n
  {
    if n != 0 {
      PrefixAscending(d, n - 1);
      RankAt(n - 1);
      assert DEGRADE_ORDER[..n] == DEGRADE_ORDER[..n - 1] + [DEGRADE_ORDER[n - 1]];
      FilterAppend(DEGRADE_ORDER[..n - 1], [DEGRADE_ORDER[n - 1]], s => s in d);
    }
  }

  lemma LastIsNew(a: seq<Section>)
    requires a != [] && RanksAscend(a)
    ensures forall s :: s in a[..|a| - 1] <==> s in a && s != a[|a| - 1]
  {
    var init := a[..|a| - 1];
    assert a == init + [a[|a| - 1]];
    forall s | s in init ensures s != a[|a| - 1] {
      var i :| 0 <= i < |init| && init[i] == s;
      assert Rank(a[i]) < Rank(a[|a| - 1]);
    }
  }

  /** An ascending list is determined by its members. */
  lemma {:induction false} AscendingUnique(a: seq<Section>, b: seq<Section>)
    requires RanksAscend(a) && RanksAscend(b)
    requires forall s :: s in a <==> s in b
    ensures a == b
  {
    assert a != [] ==> a[0] in b;
    assert b != [] ==> b[0] in a;
    if a != [] && b != [] {
      var x, y := a[|a| - 1], b[|b| - 1];
      assert x in b && y in a;
      assert x == y by {
        assert Rank(x) <= Rank(y) && Rank(y) <= Rank(x);
        assert DEGRADE_ORDER[Rank(x)] == DEGRADE_ORDER[Rank(y)];
      }
      var initA, initB := a[..|a| - 1], b[..|b| - 1];
      LastIsNew(a);
      LastIsNew(b);
      forall s: Section ensures s in initA <==> s in initB {
        assert s in a <==> s in b;
      }
      AscendingUnique(initA, initB);
      assert a == initA + [x] && b == initB + [y];
    }
  }

  lemma OrderedPush(d: set<Section>, s: Section)
    requires forall t :: t in d ==> Rank(t) < Rank(s)
    ensures Ordered(d + {s}) == Ordered(d) + [s]
  {
    hide Ordered;
    OrderedAscending(d);
    OrderedAscending(d + {s});
    AscendingUnique(Ordered(d + {s}), Ordered(d) + [s]);
  }

  lemma OrderedRemove(d: set<Section>, k: nat)
    requires k < |Ordered(d)|
    ensures Ordered(d - {Ordered(d)[k]}) == Ordered(d)[..k] + Ordered(d)[k + 1..]
  {
    hide Ordered;
    OrderedAscending(d);
    OrderedAscending(d - {Ordered(d)[k]});
    var o := Ordered(d);
    forall t ensures t in o[..k] + o[k + 1..] <==> t in d && t != o[k] {
      if t in d && t != o[k] {
        var i :| 0 <= i < |o| && o[i] == t;
        assert t == if i < k then o[..k][i] else o[k + 1..][i - k - 1];
      }
    }
    AscendingUnique(Ordered(d - {o[k]}), o[..k] + o[k + 1..]);
  }

  predicate InOrder(a: Section, b: Section) {
    Rank(a) <= Rank(b)
  }

  lemma SortRestoresOrder(dropped: seq<Section>, d: set<Section>)
    requires NoDuplicates(dropped) && forall s :: s in dropped <==> s in d
    ensures Sorting.Sort(dropped, InOrder) == Ordered(d)
  {
    hide Ordered;
    OrderedAscending(d);
    var sorted := Sorting.Sort(dropped, InOrder);
    Sorting.SortSorted(dropped, InOrder);
    Sorting.SameMembers(sorted, dropped);
    forall i, j | 0 <= i < j < |sorted| ensures Rank(sorted[i]) < Rank(sorted[j]) {
      assert InOrder(sorted[i], sorted[j]);
      if sorted[i] == sorted[j] {
        DuplicateFree(dropped, sorted);
      } else {
        assert DEGRADE_ORDER[Rank(sorted[i])] != DEGRADE_ORDER[Rank(sorted[j])];
      }
    }
    AscendingUnique(sorted, Ordered(d));
  }

  // ----- The drop and restore loops -----

  /** Drops one section: its body is saved, the map keeps its entries without their symbols. */
  function DropSection<Body>(slim: Slim<Body>, s: Section, strip: Body -> Body): Slim<Body>
    requires s in slim
  {
    if s == KeySymbols then slim[s := strip(slim[s])] else slim - {s}
  }

  lemma DropOne<Body>(base: Slim<Body>, d: set<Section>, s: Section, strip: Body -> Body)
    requires s in base && s !in d
    ensures DropSection(Dropped(base, d, strip), s, strip) == Dropped(base, d + {s}, strip)
    ensures Dropped(base, d + {s}, strip)[s := base[s]] == Dropped(base, d, strip)
    ensures Dropped(base, d, strip)[s] == base[s]
  {
  }

  /** The loop variables stand for the set `d` of dropped sections. */
  ghost predicate Represents<Body>(
    base: Slim<Body>, strip: Body -> Body, d: set<Section>,
    slim: Slim<Body>, dropped: seq<Section>, saved: map<Section, Body>)
  {
    && d <= base.Keys
    && slim == Dropped(base, d, strip)
    && dropped == Ordered(d)
    && (forall s :: s in d ==> s in saved && saved[s] == base[s])
  }

  method DropLoop<Body(!new)>(r: Renderer<Body>, base: Slim<Body>)
    returns (slim: Slim<Body>, dropped: seq<Section>, saved: map<Section, Body>)
    ensures Represents(base, r.strip, DropPhase(r, base, 0, {}), slim, dropped, saved)
  {
    hide *;
    saved := map[];
    slim, dropped := base, [];
    NothingDropped(base, r.strip);
    var i := 0;
    while i < |DEGRADE_ORDER| && r.tokens(slim, dropped) > r.maxTokens
      invariant 0 <= i <= |DEGRADE_ORDER|
      invariant DropPhase(r, base, 0, {}) == DropPhase(r, base, i, Below(base.Keys, i))
      invariant Represents(base, r.strip, Below(base.Keys, i), slim, dropped, saved)
    {
      RepresentedCost(r, base, Below(base.Keys, i), slim, dropped, saved);
      DropPhaseNext(r, base, i);
      slim, dropped, saved := DropIfPresent(r, base, i, slim, dropped, saved);
      i := i + 1;
    }
    RepresentedCost(r, base, Below(base.Keys, i), slim, dropped, saved);
    DropPhaseEnds(r, base, i);
  }

  lemma RepresentedCost<Body>(
    r: Renderer<Body>, base: Slim<Body>, d: set<Section>, slim: Slim<Body>, dropped: seq<Section>, saved: map<Section, Body>)
    requires Represents(base, r.strip, d, slim, dropped, saved)
    ensures r.tokens(slim, dropped) <= r.maxTokens <==> Fits(r, base, d)
  {
  }

  lemma DropPhaseNext<Body>(r: Renderer<Body>, base: Slim<Body>, i: nat)
    requires i < |DEGRADE_ORDER| && !Fits(r, base, Below(base.Keys, i))
    ensures DropPhase(r, base, i, Below(base.Keys, i)) == DropPhase(r, base, i + 1, Below(base.Keys, i + 1))
  {
    hide Fits;
    hide Below;
    BelowNext(base.Keys, i);
  }

  lemma DropPhaseEnds<Body>(r: Renderer<Body>, base: Slim<Body>, i: nat)
    requires i <= |DEGRADE_ORDER| && (i == |DEGRADE_ORDER| || Fits(r, base, Below(base.Keys, i)))
    ensures DropPhase(r, base, i, Below(base.Keys, i)) == Below(base.Keys, i)
  {
  }

  lemma NothingDropped<Body>(base: Slim<Body>, strip: Body -> Body)
    ensures Represents(base, strip, {}, base, [], map[])
    ensures Below(base.Keys, 0) == {}
  {
    assert Dropped(base, {}, strip) == base;
    NothingOrdered(DEGRADE_ORDER);
  }

  lemma {:induction false} NothingOrdered(order: seq<Section>)
    ensures Filter(order, s => s in {}) == []
  {
    if order != [] {
      NothingOrdered(order[1..]);
    }
  }

  method DropIfPresent<Body(!new)>(
    r: Renderer<Body>, ghost base: Slim<Body>, i: nat,
    slim0: Slim<Body>, dropped0: seq<Section>, saved0: map<Section, Body>)
    returns (slim: Slim<Body>, dropped: seq<Section>, saved: map<Section, Body>)
    requires i < |DEGRADE_ORDER|
    requires Represents(base, r.strip, Below(base.Keys, i), slim0, dropped0, saved0)
    ensures Represents(base, r.strip, Below(base.Keys, i + 1), slim, dropped, saved)
  {
    var section := DEGRADE_ORDER[i];
    slim, dropped, saved := slim0, dropped0, saved0;
    PresentMeansUndropped(base, r.strip, i, slim, dropped, saved);
    if section in slim {
      DroppedNext(base, r.strip, i, slim, dropped, saved);
    }
    hide *;
    if section in slim {
      saved := saved[section := slim[section]];
      slim := DropSection(slim, section, r.strip);
      dropped := dropped + [section];
    }
  }

  /** Up to rank `i` everything is decided; the section of rank `i` is in the document as it was or not at all. */
  lemma PresentMeansUndropped<Body>(
    base: Slim<Body>, strip: Body -> Body, i: nat, slim: Slim<Body>, dropped: seq<Section>, saved: map<Section, Body>)
    requires i < |DEGRADE_ORDER| && Represents(base, strip, Below(base.Keys, i), slim, dropped, saved)
    ensures DEGRADE_ORDER[i] in slim <==> DEGRADE_ORDER[i] in base
    ensures DEGRADE_ORDER[i] !in slim ==> Represents(base, strip, Below(base.Keys, i + 1), slim, dropped, saved)
  {
    hide Ordered;
    RankAt(i);
    BelowNext(base.Keys, i);
  }

  lemma DroppedNext<Body>(
    base: Slim<Body>, strip: Body -> Body, i: nat, slim: Slim<Body>, dropped: seq<Section>, saved: map<Section, Body>)
    requires i < |DEGRADE_ORDER| && DEGRADE_ORDER[i] in slim && DEGRADE_ORDER[i] in base
    requires Represents(base, strip, Below(base.Keys, i), slim, dropped, saved)
    ensures var section := DEGRADE_ORDER[i];
      Represents(base, strip, Below(base.Keys, i + 1), DropSection(slim, section, strip), dropped + [section],
                 saved[section := slim[section]])
  {
    hide Ordered;
    hide Dropped;
    hide DropSection;
    var d, section := Below(base.Keys, i), DEGRADE_ORDER[i];
    RankAt(i);
    BelowNext(base.Keys, i);
    DropOne(base, d, section, strip);
    OrderedPush(d, section);
  }

  /** Tentatively restores one dropped section; over budget, it is dropped again in degrade order. */
  method TryRestore<Body(!new)>(
    r: Renderer<Body>, ghost base: Slim<Body>, ghost d: set<Section>, section: Section,
    slim0: Slim<Body>, dropped0: seq<Section>, saved: map<Section, Body>)
    returns (slim: Slim<Body>, dropped: seq<Section>)
    requires Represents(base, r.strip, d, slim0, dropped0, saved)
    requires section in dropped0
    ensures Represents(base, r.strip, if Fits(r, base, d - {section}) then d - {section} else d, slim, dropped, saved)
  {
    var at :| 0 <= at < |dropped0| && dropped0[at] == section;
    slim := slim0[section := saved[section]];
    dropped := dropped0[..at] + dropped0[at + 1..];
    Restored(base, r.strip, d, section, slim0, dropped0, saved, at);
    Redropped(base, r.strip, d, section, slim, dropped, saved);
    hide *;
    RepresentedCost(r, base, d - {section}, slim, dropped, saved);
    if r.tokens(slim, dropped) > r.maxTokens {
      slim := DropSection(slim, section, r.strip);
      dropped := Sorting.Sort(dropped + [section], InOrder);
    }
  }

  /** The tentative restore of one section. */
  lemma Restored<Body>(
    base: Slim<Body>, strip: Body -> Body, d: set<Section>, section: Section,
    slim: Slim<Body>, dropped: seq<Section>, saved: map<Section, Body>, at: nat)
    requires Represents(base, strip, d, slim, dropped, saved)
    requires at < |dropped| && dropped[at] == section
    ensures section in d && section in base && section in saved
    ensures Represents(base, strip, d - {section}, slim[section := saved[section]], dropped[..at] + dropped[at + 1..], saved)
  {
    hide Ordered;
    DropOne(base, d - {section}, section, strip);
    assert d - {section} + {section} == d;
    OrderedRemove(d, at);
    assert section in dropped;
    hide Dropped;
  }

  /** Its undoing: the section goes back among the dropped ones, in degrade order. */
  lemma Redropped<Body>(
    base: Slim<Body>, strip: Body -> Body, d: set<Section>, section: Section,
    slim: Slim<Body>, rest: seq<Section>, saved: map<Section, Body>)
    requires Represents(base, strip, d - {section}, slim, rest, saved)
    requires section in d && section in base && section in saved && saved[section] == base[section]
    ensures section in slim
    ensures Represents(base, strip, d, DropSection(slim, section, strip), Sorting.Sort(rest + [section], InOrder), saved)
  {
    hide Ordered;
    SortedBack(d, section, rest);
    DroppedHas(base, d - {section}, section, strip);
    DropOne(base, d - {section}, section, strip);
    assert d - {section} + {section} == d;
    hide Dropped;
    hide DropSection;
    hide Sorting.Sort;
  }

  lemma SortedBack(d: set<Section>, section: Section, rest: seq<Section>)
    requires section in d && rest == Ordered(d - {section})
    ensures Sorting.Sort(rest + [section], InOrder) == Ordered(d)
  {
    OrderedAscending(d - {section});
    hide *;
    AscendingNoDuplicates(rest, section);
    SortRestoresOrder(rest + [section], d);
  }

  lemma DroppedHas<Body>(base: Slim<Body>, d: set<Section>, s: Section, strip: Body -> Body)
    requires s in base && s !in d
    ensures s in Dropped(base, d, strip)
  {
  }

  lemma AscendingNoDuplicates(rest: seq<Section>, section: Section)
    requires RanksAscend(rest) && section !in rest
    ensures NoDuplicates(rest + [section])
  {
  }

  method DropAndRestore<Body(!new)>(r: Renderer<Body>, base: Slim<Body>)
    returns (slim: Slim<Body>, dropped: seq<Section>)
    ensures dropped == Ordered(FinallyDropped(r, base))
    ensures slim == Dropped(base, FinallyDropped(r, base), r.strip)
  {
    hide *;
    var saved;
    slim, dropped, saved := DropLoop(r, base);
    ghost var d := DropPhase(r, base, 0, {});
    RestorePhaseEnds(r, base, d);
    var i := |DEGRADE_ORDER|;
    while i > 0
      invariant 0 <= i <= |DEGRADE_ORDER|
      invariant FinallyDropped(r, base) == RestorePhase(r, base, i, d)
      invariant Represents(base, r.strip, d, slim, dropped, saved)
    {
      var section := DEGRADE_ORDER[i - 1];
      RestorePhaseNext(r, base, i, d);
      RepresentedMembers(base, r.strip, d, slim, dropped, saved);
      if section in dropped {
        slim, dropped := TryRestore(r, base, d, section, slim, dropped, saved);
        d := if Fits(r, base, d - {section}) then d - {section} else d;
      }
      i := i - 1;
    }
    RestorePhaseEnds(r, base, d);
    RepresentedMembers(base, r.strip, d, slim, dropped, saved);
  }

  lemma RepresentedMembers<Body>(
    base: Slim<Body>, strip: Body -> Body, d: set<Section>, slim: Slim<Body>, dropped: seq<Section>, saved: map<Section, Body>)
    requires Represents(base, strip, d, slim, dropped, saved)
    ensures forall s :: s in dropped <==> s in d
    ensures slim == Dropped(base, d, strip) && dropped == Ordered(d)
  {
  }

  lemma RestorePhaseNext<Body>(r: Renderer<Body>, base: Slim<Body>, i: nat, d: set<Section>)
    requires 0 < i <= |DEGRADE_ORDER|
    ensures var s := DEGRADE_ORDER[i - 1];
      RestorePhase(r, base, i, d)
      == RestorePhase(r, base, i - 1, if s in d && Fits(r, base, d - {s}) then d - {s} else d)
  {
    hide Fits;
  }

  lemma RestorePhaseEnds<Body>(r: Renderer<Body>, base: Slim<Body>, d: set<Section>)
    ensures RestorePhase(r, base, 0, d) == d
    ensures FinallyDropped(r, base) == RestorePhase(r, base, |DEGRADE_ORDER|, DropPhase(r, base, 0, {}))
  {
  }

  // ----- The whole builder -----

  /** What the renderer closes over: it also sees how many learned entries were excluded. */
  datatype Rendering<!Body> = Rendering(
    strip: Body -> Body,
    learnedBody: seq<LearnedEntry> -> Body,
    sectionTokens: seq<LearnedEntry> -> nat,
    tokens: (nat, Slim<Body>, seq<Section>) -> nat
  )

  function RendererFor<Body>(render: Rendering<Body>, excluded: nat, maxTokens: nat): Renderer<Body> {
    Renderer(render.strip, (slim, dropped) => render.tokens(excluded, slim, dropped), maxTokens)
  }

  /** The document once its learned section is cut to its own budget; an empty one is left alone. */
  function WithLearned<Body>(render: Rendering<Body>, base: Slim<Body>, learned: seq<LearnedEntry>, kept: seq<LearnedEntry>): Slim<Body> {
    if learned == [] then base else base[Learned := render.learnedBody(kept)]
  }

  /**
   * What an injection is: the longest learned prefix within its budget, the sections dropped as the
   * two phases drop them, in budget unless every droppable section is gone and still does not fit.
   */
  ghost predicate IsInjection<Body(!new)>(
    render: Rendering<Body>, base: Slim<Body>, learned: seq<LearnedEntry>, learnedBudget: nat, maxTokens: nat,
    kept: seq<LearnedEntry>, excluded: seq<LearnedEntry>, slim: Slim<Body>, dropped: seq<Section>)
  {
    && ByConfidence(learned) == kept + Reversed(excluded)
    && (kept == [] || render.sectionTokens(kept) <= learnedBudget)
    && (forall n :: |kept| < n <= |learned| ==> render.sectionTokens(ByConfidence(learned)[..n]) > learnedBudget)
    && var r := RendererFor(render, |excluded|, maxTokens);
       var full := WithLearned(render, base, learned, kept);
       && dropped == Ordered(FinallyDropped(r, full))
       && slim == Dropped(full, FinallyDropped(r, full), render.strip)
       && (render.tokens(|excluded|, slim, dropped) <= maxTokens || forall s :: s in full ==> s in dropped)
  }

  /** The order in which sections are given up, the least protected first. */
  ghost predicate GivenUpBefore(a: Section, b: Section) {
    match a
    case Glossary => b != Glossary
    case Conventions => b != Glossary && b != Conventions
    case ImportGraph => b == Learned || b == Interfaces || b == KeySymbols
    case Learned => b == Interfaces || b == KeySymbols
    case Interfaces => b == KeySymbols
    case KeySymbols => false
  }

  lemma RankIsThatOrder(a: Section, b: Section)
    ensures Rank(a) < Rank(b) <==> GivenUpBefore(a, b)
  {
  }

  /** The learned entries split in two: the kept ones most confident first, the excluded ones least confident first. */
  ghost predicate LearnedSplit(learned: seq<LearnedEntry>, kept: seq<LearnedEntry>, excluded: seq<LearnedEntry>) {
    && multiset(kept) + multiset(excluded) == multiset(learned)
    && (forall i, j :: 0 <= i < j < |kept| ==> kept[i].confidence >= kept[j].confidence)
    && (forall i, j :: 0 <= i < j < |excluded| ==> excluded[i].confidence <= excluded[j].confidence)
    && (forall a, b :: a in kept && b in excluded ==> a.confidence >= b.confidence)
  }

  /**
   * What the injected document holds: under `learned` the kept entries alone, under every other key
   * what the codex has there, except that dropped sections are gone and a dropped map is stripped.
   */
  ghost predicate HoldsSections<Body>(
    render: Rendering<Body>, base: Slim<Body>, learned: seq<LearnedEntry>, kept: seq<LearnedEntry>,
    slim: Slim<Body>, dropped: seq<Section>)
  {
    && (learned != [] ==>
         if Learned in dropped then Learned !in slim
         else Learned in slim && slim[Learned] == render.learnedBody(kept))
    && (forall s: Section :: s != Learned || learned == [] ==>
         && (s in slim <==> s in base && (s !in dropped || s == KeySymbols))
         && (s in slim ==> slim[s] == if s in dropped then render.strip(base[s]) else base[s]))
  }

  /** The candidate references of these entries, in order. */
  ghost predicate RefersTo(refs: seq<string>, entries: seq<LearnedEntry>) {
    |refs| == |entries| && forall i :: 0 <= i < |refs| ==> refs[i] == entries[i].candidate
  }

  /** `base` is the codex without its file index, as the posture slims it. */
  method BuildInjection<Body(!new)>(
    render: Rendering<Body>, base: Slim<Body>, learned: seq<LearnedEntry>, learnedBudget: nat, maxTokens: nat)
    returns (slim: Slim<Body>, dropped: seq<Section>, injectedLearned: seq<string>, excludedLearned: seq<string>)
    ensures exists kept, excluded ::
      && IsInjection(render, base, learned, learnedBudget, maxTokens, kept, excluded, slim, dropped)
      && LearnedSplit(learned, kept, excluded)
      && HoldsSections(render, base, learned, kept, slim, dropped)
      && RefersTo(injectedLearned, if Learned in dropped then [] else kept)
      && RefersTo(excludedLearned, excluded)
    ensures forall i, j :: 0 <= i < j < |dropped| ==> GivenUpBefore(dropped[i], dropped[j])
  {
    hide *;
    var kept, excluded := TrimLearned(learned, render.sectionTokens, learnedBudget);
    var r := RendererFor(render, |excluded|, maxTokens);
    var full := WithLearned(render, base, learned, kept);
    RendererForUses(render, |excluded|, maxTokens);
    slim, dropped := DropAndRestore(r, full);
    InjectionIsBuilt(render, base, learned, learnedBudget, maxTokens, kept, excluded, slim, dropped);
    SplitByConfidence(learned, kept, excluded);
    DroppedInOrder(FinallyDropped(r, full));
    SectionsAreHeld(render, base, learned, kept, slim, dropped, FinallyDropped(r, full));
    injectedLearned := if Learned in dropped then [] else Candidates(kept);
    excludedLearned := Candidates(excluded);
    CandidatesRefer(if Learned in dropped then [] else kept);
    CandidatesRefer(excluded);
  }

  lemma DroppedInOrder(d: set<Section>)
    ensures forall i, j :: 0 <= i < j < |Ordered(d)| ==> GivenUpBefore(Ordered(d)[i], Ordered(d)[j])
  {
    OrderedAscending(d);
    hide Ordered;
    hide Rank;
    forall i, j | 0 <= i < j < |Ordered(d)| ensures GivenUpBefore(Ordered(d)[i], Ordered(d)[j]) {
      RankIsThatOrder(Ordered(d)[i], Ordered(d)[j]);
    }
  }

  lemma CandidatesRefer(entries: seq<LearnedEntry>)
    ensures RefersTo(Candidates(entries), entries)
    ensures entries == [] ==> Candidates(entries) == []
  {
  }

  lemma {:induction false} ReversedAt<T>(s: seq<T>)
    ensures multiset(Reversed(s)) == multiset(s)
    ensures forall i :: 0 <= i < |s| ==> Reversed(s)[|s| - 1 - i] == s[i]
  {
    if s != [] {
      ReversedAt(s[1..]);
      assert s == [s[0]] + s[1..];
      forall i | 0 < i < |s| ensures Reversed(s)[|s| - 1 - i] == s[i] {
        assert Reversed(s)[|s| - 1 - i] == Reversed(s[1..])[|s[1..]| - 1 - (i - 1)];
      }
    }
  }

  lemma SplitByConfidence(learned: seq<LearnedEntry>, kept: seq<LearnedEntry>, excluded: seq<LearnedEntry>)
    requires ByConfidence(learned) == kept + Reversed(excluded)
    ensures LearnedSplit(learned, kept, excluded)
  {
    KeptOutrankExcluded(learned, kept, excluded);
    ReversedAt(excluded);
    Sorting.SortSorted(learned, MoreConfident);
    var sorted := ByConfidence(learned);
    hide Sorting.Sort;
    hide Reversed;
    forall i, j | 0 <= i < j < |kept| ensures kept[i].confidence >= kept[j].confidence {
      assert MoreConfident(sorted[i], sorted[j]);
    }
    var n := |excluded|;
    forall i, j | 0 <= i < j < n ensures excluded[i].confidence <= excluded[j].confidence {
      var a, b := |kept| + (n - 1 - j), |kept| + (n - 1 - i);
      assert sorted[a] == excluded[j] && sorted[b] == excluded[i];
      assert MoreConfident(sorted[a], sorted[b]);
    }
  }

  lemma SectionsAreHeld<Body>(
    render: Rendering<Body>, base: Slim<Body>, learned: seq<LearnedEntry>, kept: seq<LearnedEntry>,
    slim: Slim<Body>, dropped: seq<Section>, d: set<Section>)
    requires dropped == Ordered(d) && slim == Dropped(WithLearned(render, base, learned, kept), d, render.strip)
    ensures HoldsSections(render, base, learned, kept, slim, dropped)
  {
    hide Ordered;
  }

  lemma RendererForUses<Body>(render: Rendering<Body>, excluded: nat, maxTokens: nat)
    ensures RendererFor(render, excluded, maxTokens).strip == render.strip
  {
  }

  lemma InjectionIsBuilt<Body(!new)>(
    render: Rendering<Body>, base: Slim<Body>, learned: seq<LearnedEntry>, learnedBudget: nat, maxTokens: nat,
    kept: seq<LearnedEntry>, excluded: seq<LearnedEntry>, slim: Slim<Body>, dropped: seq<Section>)
    requires ByConfidence(learned) == kept + Reversed(excluded)
    requires kept == [] || render.sectionTokens(kept) <= learnedBudget
    requires forall n :: |kept| < n <= |learned| ==> render.sectionTokens(ByConfidence(learned)[..n]) > learnedBudget
    requires var r := RendererFor(render, |excluded|, maxTokens);
             var full := WithLearned(render, base, learned, kept);
             dropped == Ordered(FinallyDropped(r, full)) && slim == Dropped(full, FinallyDropped(r, full), render.strip)
    ensures IsInjection(render, base, learned, learnedBudget, maxTokens, kept, excluded, slim, dropped)
  {
    var r := RendererFor(render, |excluded|, maxTokens);
    var full := WithLearned(render, base, learned, kept);
    SameLength(learned);
    hide Reversed;
    hide ByConfidence;
    hide FinallyDropped;
    hide Ordered;
    hide Dropped;
    hide WithLearned;
    InBudgetUnlessNothingHelps(r, full);
  }
}
