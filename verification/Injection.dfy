/**
 * The budgeted codex injection of packages/sidecar/src/codex.ts (`buildInjection`).
 *
 * Sections are dropped in DEGRADE_ORDER until the rendering fits, then restored most
 * protected first. The renderer is abstract: it sees the slim document and the list of
 * dropped sections, exactly the two things the source's `render` closes over.
 */
module Injection {
  import opened Common

  datatype Section = Glossary | Conventions | ImportGraph | Learned | Interfaces | KeySymbols

  const DEGRADE_ORDER: seq<Section> := [Glossary, Conventions, ImportGraph, Learned, Interfaces, KeySymbols]

  /** Position in DEGRADE_ORDER: the higher, the better protected. */
  function Rank(s: Section): (r: nat)
    ensures r < |DEGRADE_ORDER| && DEGRADE_ORDER[r] == s
  {
    match s
    case Glossary => 0
    case Conventions => 1
    case ImportGraph => 2
    case Learned => 3
    case Interfaces => 4
    case KeySymbols => 5
  }

  lemma RankAt(i: nat)
    requires i < |DEGRADE_ORDER|
    ensures Rank(DEGRADE_ORDER[i]) == i
  {
    assert i in {0, 1, 2, 3, 4, 5};
  }

  /**
   * The slim document: the body held under each droppable key. KeySymbols stands for
   * the `map` key, whose entries lose their symbols instead of disappearing.
   */
  type Slim<!Body> = map<Section, Body>

  datatype Renderer<!Body> = Renderer(
    strip: Body -> Body,
    tokens: (Slim<Body>, seq<Section>) -> nat,
    maxTokens: nat
  )

  // ----- The document and its cost once a set of sections is dropped -----

  function Dropped<Body>(slim: Slim<Body>, dropped: set<Section>, strip: Body -> Body): Slim<Body> {
    map s | s in slim && (s !in dropped || s == KeySymbols) :: if s in dropped then strip(slim[s]) else slim[s]
  }

  /** The sections of `dropped` in degrade order. */
  function Ordered(dropped: set<Section>): (r: seq<Section>)
    ensures forall s :: s in r <==> s in dropped
  {
    assert forall s :: s in dropped ==> DEGRADE_ORDER[Rank(s)] == s;
    Filter(DEGRADE_ORDER, s => s in dropped)
  }

  function Cost<Body>(r: Renderer<Body>, slim: Slim<Body>, dropped: set<Section>): nat {
    r.tokens(Dropped(slim, dropped, r.strip), Ordered(dropped))
  }

  predicate Fits<Body>(r: Renderer<Body>, slim: Slim<Body>, dropped: set<Section>) {
    Cost(r, slim, dropped) <= r.maxTokens
  }

  /**
   * Once something is dropped, dropping every present section below some rank as well never
   * makes the rendering dearer. (From nothing dropped it may: the drop note itself costs.)
   */
  ghost predicate DroppingBelowHelps<Body(!new)>(r: Renderer<Body>, slim: Slim<Body>) {
    forall d: set<Section>, i: nat :: d <= slim.Keys && d != {} && i < |DEGRADE_ORDER| ==>
      Cost(r, slim, d + Below(slim.Keys, i)) <= Cost(r, slim, d)
  }

  // ----- The two phases, as functions of the dropped set -----

  function DropPhase<Body>(r: Renderer<Body>, slim: Slim<Body>, i: nat, dropped: set<Section>): set<Section>
    requires i <= |DEGRADE_ORDER|
    decreases |DEGRADE_ORDER| - i
  {
    if i == |DEGRADE_ORDER| || Fits(r, slim, dropped) then dropped
    else if DEGRADE_ORDER[i] !in slim then DropPhase(r, slim, i + 1, dropped)
    else DropPhase(r, slim, i + 1, dropped + {DEGRADE_ORDER[i]})
  }

  /** Tries to restore the sections of rank below `i`, the best protected first. */
  function RestorePhase<Body>(r: Renderer<Body>, slim: Slim<Body>, i: nat, dropped: set<Section>): set<Section>
    requires i <= |DEGRADE_ORDER|
  {
    if i == 0 then dropped
    else
      var s := DEGRADE_ORDER[i - 1];
      RestorePhase(r, slim, i - 1, if s in dropped && Fits(r, slim, dropped - {s}) then dropped - {s} else dropped)
  }

  function FinallyDropped<Body>(r: Renderer<Body>, slim: Slim<Body>): set<Section> {
    RestorePhase(r, slim, |DEGRADE_ORDER|, DropPhase(r, slim, 0, {}))
  }

  /** One greedy pass: start from everything dropped and restore what fits. */
  function GreedyFromAllDropped<Body>(r: Renderer<Body>, slim: Slim<Body>): set<Section> {
    RestorePhase(r, slim, |DEGRADE_ORDER|, slim.Keys)
  }

  // ----- What the drop phase leaves -----

  /** All present sections of rank below `i`. */
  function Below(keys: set<Section>, i: nat): set<Section> {
    set s | s in keys && Rank(s) < i
  }

  lemma BelowNext(keys: set<Section>, i: nat)
    requires i < |DEGRADE_ORDER|
    ensures Below(keys, i + 1) == if DEGRADE_ORDER[i] in keys then Below(keys, i) + {DEGRADE_ORDER[i]} else Below(keys, i)
  {
    RankAt(i);
    forall t | t in keys ensures Rank(t) < i + 1 <==> Rank(t) < i || t == DEGRADE_ORDER[i] {
      assert DEGRADE_ORDER[Rank(t)] == t;
    }
  }

  /** The drop phase stops at a prefix of the degrade order, in budget or with nothing left to drop. */
  lemma {:induction false} DropPhaseIsPrefix<Body>(r: Renderer<Body>, slim: Slim<Body>, i: nat) returns (k: nat)
    requires i <= |DEGRADE_ORDER|
    ensures i <= k <= |DEGRADE_ORDER|
    ensures DropPhase(r, slim, i, Below(slim.Keys, i)) == Below(slim.Keys, k)
    ensures Fits(r, slim, Below(slim.Keys, k)) || k == |DEGRADE_ORDER|
    decreases |DEGRADE_ORDER| - i
  {
    hide Fits;
    hide Below;
    if i == |DEGRADE_ORDER| || Fits(r, slim, Below(slim.Keys, i)) {
      k := i;
    } else {
      BelowNext(slim.Keys, i);
      k := DropPhaseIsPrefix(r, slim, i + 1);
    }
  }

  // ----- In budget, whatever the renderer -----

  /** Restoring only removes from the dropped set, and only into the budget. */
  lemma {:induction false} RestoreStaysInBudget<Body>(r: Renderer<Body>, slim: Slim<Body>, i: nat, dropped: set<Section>)
    requires i <= |DEGRADE_ORDER|
    ensures var out := RestorePhase(r, slim, i, dropped);
            out <= dropped && (out == dropped || Fits(r, slim, out))
  {
    if i != 0 {
      var s := DEGRADE_ORDER[i - 1];
      RestoreStaysInBudget(r, slim, i - 1, if s in dropped && Fits(r, slim, dropped - {s}) then dropped - {s} else dropped);
    }
  }

  /**
   * With no assumption on the renderer: only present sections are dropped, and the result
   * is over budget only when dropping everything still was and nothing could be restored.
   */
  lemma InBudgetUnlessNothingHelps<Body>(r: Renderer<Body>, slim: Slim<Body>)
    ensures FinallyDropped(r, slim) <= slim.Keys
    ensures Fits(r, slim, DropPhase(r, slim, 0, {})) ==> Fits(r, slim, FinallyDropped(r, slim))
    ensures Fits(r, slim, FinallyDropped(r, slim)) || FinallyDropped(r, slim) == slim.Keys
  {
    assert Below(slim.Keys, 0) == {};
    var k := DropPhaseIsPrefix(r, slim, 0);
    RestoreStaysInBudget(r, slim, |DEGRADE_ORDER|, DropPhase(r, slim, 0, {}));
    assert Below(slim.Keys, |DEGRADE_ORDER|) == slim.Keys;
  }

  // ----- Optimality -----

  /** `d` and `e` agree on every section of rank at least `i`. */
  ghost predicate AgreeFrom(d: set<Section>, e: set<Section>, i: nat) {
    forall s: Section :: Rank(s) >= i ==> (s in d <==> s in e)
  }

  /** Dropping `d` protects more than dropping `e`: at the best-protected difference, `d` keeps. */
  ghost predicate ProtectsMore(d: set<Section>, e: set<Section>, i: nat) {
    exists s: Section :: Rank(s) >= i && s !in d && s in e && AgreeFrom(d, e, Rank(s) + 1)
  }

  lemma ProtectsMoreIsAsymmetric(d: set<Section>, e: set<Section>)
    requires ProtectsMore(d, e, 0)
    ensures !ProtectsMore(e, d, 0)
  {
    var s :| s !in d && s in e && AgreeFrom(d, e, Rank(s) + 1);
    forall t | t !in e && t in d ensures !AgreeFrom(e, d, Rank(t) + 1) {
      assert DEGRADE_ORDER[Rank(s)] != DEGRADE_ORDER[Rank(t)];
    }
  }

  ghost predicate AtLeastAsProtective(d: set<Section>, e: set<Section>, i: nat) {
    AgreeFrom(d, e, i) || ProtectsMore(d, e, i)
  }

  /** Deciding rank `i` one more way keeps an earlier lead, and never loses one by keeping a section. */
  lemma DecideOneRank(d: set<Section>, next: set<Section>, e: set<Section>, s: Section)
    requires AtLeastAsProtective(d, e, Rank(s) + 1)
    requires next == d || next == d - {s}
    requires AgreeFrom(d, e, Rank(s) + 1) && s in next ==> s in e
    ensures AtLeastAsProtective(next, e, Rank(s))
  {
    assert forall t: Section :: DEGRADE_ORDER[Rank(t)] == t;
    assert AgreeFrom(d, next, Rank(s) + 1);
    if ProtectsMore(d, e, Rank(s) + 1) {
      var t :| Rank(t) >= Rank(s) + 1 && t !in d && t in e && AgreeFrom(d, e, Rank(t) + 1);
      assert t !in next && AgreeFrom(next, e, Rank(t) + 1);
    } else if s !in next && s in e {
      assert AgreeFrom(next, e, Rank(s) + 1);
    } else {
      assert AgreeFrom(next, e, Rank(s));
    }
  }

  /**
   * What holds before the restore pass decides rank `i - 1`: the sections dropped so far come
   * from a prefix of the order, everything below rank `i` in it is still dropped, and the
   * decisions made are at least as protective as any selection `e` in budget.
   */
  ghost predicate RestoreInvariant<Body>(slim: Slim<Body>, k: nat, i: nat, dropped: set<Section>, e: set<Section>) {
    && i <= |DEGRADE_ORDER|
    && dropped <= Below(slim.Keys, k)
    && (forall s :: s in Below(slim.Keys, k) && Rank(s) < i ==> s in dropped)
    && e <= slim.Keys
    && AtLeastAsProtective(dropped, e, i)
  }

  /** Everything below the section of rank `i - 1` is dropped, so restoring it costs no more than `e`. */
  lemma RestorableIfOutsideE<Body(!new)>(
    r: Renderer<Body>, slim: Slim<Body>, k: nat, i: nat, dropped: set<Section>, e: set<Section>)
    requires DroppingBelowHelps(r, slim)
    requires i > 0 && RestoreInvariant(slim, k, i, dropped, e) && Fits(r, slim, e) && e != {}
    requires AgreeFrom(dropped, e, i) && DEGRADE_ORDER[i - 1] in dropped && DEGRADE_ORDER[i - 1] !in e
    ensures Fits(r, slim, dropped - {DEGRADE_ORDER[i - 1]})
  {
    OneLessIsJustBelow(slim, k, i, dropped, e);
    hide Cost;
    hide Below;
  }

  lemma OneLessIsJustBelow<Body>(slim: Slim<Body>, k: nat, i: nat, dropped: set<Section>, e: set<Section>)
    requires i > 0 && RestoreInvariant(slim, k, i, dropped, e)
    requires AgreeFrom(dropped, e, i) && DEGRADE_ORDER[i - 1] in dropped && DEGRADE_ORDER[i - 1] !in e
    ensures dropped - {DEGRADE_ORDER[i - 1]} == e + Below(slim.Keys, i - 1)
  {
    var s := DEGRADE_ORDER[i - 1];
    RankAt(i - 1);
    forall t ensures t in dropped - {s} <==> t in e + Below(slim.Keys, i - 1) {
      assert Rank(t) == i - 1 ==> t == s by {
        assert DEGRADE_ORDER[Rank(t)] == t;
      }
    }
  }

  lemma RestoreStepKeepsInvariant<Body(!new)>(
    r: Renderer<Body>, slim: Slim<Body>, k: nat, i: nat, dropped: set<Section>, next: set<Section>, e: set<Section>)
    requires DroppingBelowHelps(r, slim)
    requires i > 0 && RestoreInvariant(slim, k, i, dropped, e) && Fits(r, slim, e) && e != {}
    requires var s := DEGRADE_ORDER[i - 1];
             next == if s in dropped && Fits(r, slim, dropped - {s}) then dropped - {s} else dropped
    ensures RestoreInvariant(slim, k, i - 1, next, e)
  {
    var s := DEGRADE_ORDER[i - 1];
    RankAt(i - 1);
    if AgreeFrom(dropped, e, i) && s in dropped && s !in e {
      RestorableIfOutsideE(r, slim, k, i, dropped, e);
    }
    DecideOneRank(dropped, next, e, s);
  }

  lemma AllDecided<Body>(slim: Slim<Body>, k: nat, dropped: set<Section>, e: set<Section>)
    requires RestoreInvariant(slim, k, 0, dropped, e)
    ensures dropped == e || ProtectsMore(dropped, e, 0)
  {
    if AgreeFrom(dropped, e, 0) {
      forall s: Section ensures s in dropped <==> s in e {
        assert Rank(s) >= 0;
      }
    }
  }

  lemma {:induction false} RestoreIsOptimal<Body(!new)>(
    r: Renderer<Body>, slim: Slim<Body>, k: nat, i: nat, dropped: set<Section>, e: set<Section>)
    requires DroppingBelowHelps(r, slim)
    requires RestoreInvariant(slim, k, i, dropped, e) && Fits(r, slim, e) && e != {}
    ensures var out := RestorePhase(r, slim, i, dropped);
            out == e || ProtectsMore(out, e, 0)
  {
    if i == 0 {
      AllDecided(slim, k, dropped, e);
    } else {
      hide Fits;
      hide DroppingBelowHelps;
      assert i <= |DEGRADE_ORDER|;
      hide RestoreInvariant;
      hide ProtectsMore;
      var s := DEGRADE_ORDER[i - 1];
      var next := if s in dropped && Fits(r, slim, dropped - {s}) then dropped - {s} else dropped;
      RestoreStepKeepsInvariant(r, slim, k, i, dropped, next, e);
      RestoreIsOptimal(r, slim, k, i - 1, next, e);
    }
  }

  lemma {:induction false} KeepingAllProtectsMost(e: set<Section>, i: nat)
    requires i <= |DEGRADE_ORDER| && AgreeFrom({}, e, i)
    ensures e == {} || ProtectsMore({}, e, 0)
  {
    if i == 0 {
      forall s: Section ensures s !in e {
        assert Rank(s) >= 0;
      }
    } else if DEGRADE_ORDER[i - 1] in e {
      RankAt(i - 1);
      assert ProtectsMore({}, e, 0);
    } else {
      RankAt(i - 1);
      forall s: Section | Rank(s) >= i - 1 ensures s !in e {
        assert DEGRADE_ORDER[Rank(s)] == s;
      }
      KeepingAllProtectsMost(e, i - 1);
    }
  }

  /**
   * Main result: the kept sections are the lexicographically greatest selection in budget, in
   * order of protection: no selection `e` in budget keeps a better-protected set.
   */
  lemma KeepsTheMostProtected<Body(!new)>(r: Renderer<Body>, slim: Slim<Body>, e: set<Section>)
    requires DroppingBelowHelps(r, slim)
    requires e <= slim.Keys && Fits(r, slim, e)
    ensures Fits(r, slim, FinallyDropped(r, slim))
    ensures FinallyDropped(r, slim) == e || ProtectsMore(FinallyDropped(r, slim), e, 0)
  {
    InBudgetUnlessNothingHelps(r, slim);
    var out := FinallyDropped(r, slim);
    if Fits(r, slim, {}) {
      NothingDroppedStays(r, slim);
      hide *;
      KeepingAllIsBest(e);
    } else {
      DropPhaseEndsOptimally(r, slim, e);
      hide *;
      if !Fits(r, slim, out) {
        OnlyEverythingProtectsLess(slim, out, e);
      }
    }
  }

  lemma KeepingAllIsBest(e: set<Section>)
    ensures e == {} || ProtectsMore({}, e, 0)
  {
    KeepingAllProtectsMost(e, |DEGRADE_ORDER|);
  }

  /** Nothing protects less than dropping every section there is. */
  lemma OnlyEverythingProtectsLess<Body>(slim: Slim<Body>, out: set<Section>, e: set<Section>)
    requires out == slim.Keys && e <= slim.Keys && (out == e || ProtectsMore(out, e, 0))
    ensures out == e
  {
  }

  lemma StartsUndecided<Body>(slim: Slim<Body>, k: nat, e: set<Section>)
    requires e <= slim.Keys
    ensures RestoreInvariant(slim, k, |DEGRADE_ORDER|, Below(slim.Keys, k), e)
  {
  }

  lemma DropPhaseEndsOptimally<Body(!new)>(r: Renderer<Body>, slim: Slim<Body>, e: set<Section>)
    requires DroppingBelowHelps(r, slim) && e <= slim.Keys && Fits(r, slim, e) && e != {}
    ensures FinallyDropped(r, slim) == e || ProtectsMore(FinallyDropped(r, slim), e, 0)
  {
    hide Fits;
    hide DroppingBelowHelps;
    hide DropPhase;
    hide RestorePhase;
    hide RestoreInvariant;
    hide ProtectsMore;
    assert Below(slim.Keys, 0) == {};
    var k := DropPhaseIsPrefix(r, slim, 0);
    StartsUndecided(slim, k, e);
    RestoreIsOptimal(r, slim, k, |DEGRADE_ORDER|, Below(slim.Keys, k), e);
  }

  lemma NothingDroppedStays<Body>(r: Renderer<Body>, slim: Slim<Body>)
    requires Fits(r, slim, {})
    ensures FinallyDropped(r, slim) == {}
  {
    RestoreStaysInBudget(r, slim, |DEGRADE_ORDER|, {});
  }

  /** Over budget as a whole, the document ends where one greedy pass from everything dropped ends. */
  lemma OverBudgetPhasesAreGreedy<Body(!new)>(r: Renderer<Body>, slim: Slim<Body>)
    requires DroppingBelowHelps(r, slim)
    requires !Fits(r, slim, {})
    ensures FinallyDropped(r, slim) == GreedyFromAllDropped(r, slim)
  {
    var a, b := FinallyDropped(r, slim), GreedyFromAllDropped(r, slim);
    GreedyIsARestore(r, slim);
    InBudgetUnlessNothingHelps(r, slim);
    hide *;
    if Fits(r, slim, a) && a != b {
      GreedyIsOptimal(r, slim, a);
      if b == slim.Keys && !Fits(r, slim, b) {
        OnlyEverythingProtectsLess(slim, b, a);
      }
      KeepsTheMostProtected(r, slim, b);
      ProtectsMoreIsAsymmetric(a, b);
    } else if Fits(r, slim, b) {
      KeepsTheMostProtected(r, slim, b);
    }
  }

  lemma GreedyIsARestore<Body>(r: Renderer<Body>, slim: Slim<Body>)
    ensures var b := GreedyFromAllDropped(r, slim);
            b <= slim.Keys && (b == slim.Keys || Fits(r, slim, b))
  {
    hide Fits;
    RestoreStaysInBudget(r, slim, |DEGRADE_ORDER|, slim.Keys);
  }

  lemma GreedyIsOptimal<Body(!new)>(r: Renderer<Body>, slim: Slim<Body>, e: set<Section>)
    requires DroppingBelowHelps(r, slim) && e <= slim.Keys && Fits(r, slim, e) && e != {}
    ensures GreedyFromAllDropped(r, slim) == e || ProtectsMore(GreedyFromAllDropped(r, slim), e, 0)
  {
    assert Below(slim.Keys, |DEGRADE_ORDER|) == slim.Keys;
    hide Fits;
    hide DroppingBelowHelps;
    hide RestorePhase;
    hide RestoreInvariant;
    hide ProtectsMore;
    StartsUndecided(slim, |DEGRADE_ORDER|, e);
    RestoreIsOptimal(r, slim, |DEGRADE_ORDER|, |DEGRADE_ORDER|, slim.Keys, e);
  }

  /** Every cut of the degrade order short of a present section is in budget. */
  ghost predicate EveryCutFits<Body>(r: Renderer<Body>, slim: Slim<Body>, n: nat)
    requires n <= |DEGRADE_ORDER|
  {
    forall i :: 0 <= i < n && DEGRADE_ORDER[i] in slim ==> Fits(r, slim, Below(slim.Keys, i))
  }

  /** Restoring touches only the sections of rank below `i`. */
  lemma {:induction false} RestoreKeepsAbove<Body>(r: Renderer<Body>, slim: Slim<Body>, i: nat, dropped: set<Section>, s: Section)
    requires i <= Rank(s) && s in dropped
    ensures s in RestorePhase(r, slim, i, dropped)
  {
    hide Fits;
    if i != 0 {
      RankAt(i - 1);
      var t := DEGRADE_ORDER[i - 1];
      RestoreKeepsAbove(r, slim, i - 1, if t in dropped && Fits(r, slim, dropped - {t}) then dropped - {t} else dropped, s);
    }
  }

  /** The greedy pass restores everything exactly when every cut it passes through fits. */
  lemma {:induction false} GreedyRestoresAllExactly<Body>(r: Renderer<Body>, slim: Slim<Body>, i: nat)
    requires i <= |DEGRADE_ORDER|
    ensures RestorePhase(r, slim, i, Below(slim.Keys, i)) == {} <==> EveryCutFits(r, slim, i)
  {
    hide Fits;
    if i == 0 {
      assert Below(slim.Keys, 0) == {};
    } else {
      var s, d := DEGRADE_ORDER[i - 1], Below(slim.Keys, i);
      RankAt(i - 1);
      BelowNext(slim.Keys, i - 1);
      GreedyRestoresAllExactly(r, slim, i - 1);
      if s in slim {
        assert d - {s} == Below(slim.Keys, i - 1);
        if !Fits(r, slim, d - {s}) {
          RestoreKeepsAbove(r, slim, i - 1, d, s);
        }
      }
    }
  }

  /**
   * The two phases equal one greedy pass from everything dropped exactly when the whole document is
   * over budget, or every cut of the degrade order is within it. (A document that fits is kept
   * whole; the greedy pass can strand on a cut whose drop note makes it dearer than the whole.)
   */
  lemma TwoPhasesAreOneGreedyPass<Body(!new)>(r: Renderer<Body>, slim: Slim<Body>)
    requires DroppingBelowHelps(r, slim)
    ensures FinallyDropped(r, slim) == GreedyFromAllDropped(r, slim)
       <==> !Fits(r, slim, {}) || EveryCutFits(r, slim, |DEGRADE_ORDER|)
  {
    if Fits(r, slim, {}) {
      NothingDroppedStays(r, slim);
      assert Below(slim.Keys, |DEGRADE_ORDER|) == slim.Keys;
      GreedyRestoresAllExactly(r, slim, |DEGRADE_ORDER|);
    } else {
      OverBudgetPhasesAreGreedy(r, slim);
    }
  }
}
