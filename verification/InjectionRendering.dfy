/**
 * The size of a rendered injection, from the lengths of its YAML blocks and the real drop note
 * (packages/sidecar/src/codex.ts, the closure `render`), and what follows for the selection.
 */
module InjectionRendering {
  import opened Injection
  import opened InjectionBuilder

  function Name(s: Section): string {
    match s
    case Glossary => "glossary"
    case Conventions => "conventions"
    case ImportGraph => "importGraph"
    case Learned => "learned"
    case Interfaces => "interfaces"
    case KeySymbols => "keySymbols"
  }

  const NOTE_OPEN := "\n[codex sections dropped to fit the budget: "
  const NOTE_CLOSE := "]"

  /** `dropped.join(', ')` */
  function JoinNames(dropped: seq<Section>): string {
    if dropped == [] then ""
    else if |dropped| == 1 then Name(dropped[0])
    else Name(dropped[0]) + ", " + JoinNames(dropped[1..])
  }

  function DropNote(dropped: seq<Section>): string {
    if dropped == [] then "" else NOTE_OPEN + JoinNames(dropped) + NOTE_CLOSE
  }

  /** The note of a document that gave up everything: every name, in degrade order. */
  lemma WholeNote()
    ensures DEGRADE_ORDER == [Glossary, Conventions, ImportGraph, Learned, Interfaces, KeySymbols]
    ensures DropNote(DEGRADE_ORDER) == "\n[codex sections dropped to fit the budget: "
         + ("glossary" + ", " + ("conventions" + ", " + ("importGraph" + ", " + ("learned" + ", " + ("interfaces" + ", " + "keySymbols")))))
         + "]"
    ensures DropNote([]) == ""
  {
    hide Name;
    NamesFrom(0);
    NamesFrom(1);
    NamesFrom(2);
    NamesFrom(3);
    NamesFrom(4);
    assert DEGRADE_ORDER[5..] == [KeySymbols] && DEGRADE_ORDER[0..] == DEGRADE_ORDER;
    Named();
  }

  lemma NamesFrom(i: nat)
    requires i + 1 < |DEGRADE_ORDER|
    ensures JoinNames(DEGRADE_ORDER[i..]) == Name(DEGRADE_ORDER[i]) + ", " + JoinNames(DEGRADE_ORDER[i + 1..])
  {
    assert DEGRADE_ORDER[i..][1..] == DEGRADE_ORDER[i + 1..];
  }

  lemma Named()
    ensures Name(Glossary) == "glossary" && Name(Conventions) == "conventions" && Name(ImportGraph) == "importGraph"
    ensures Name(Learned) == "learned" && Name(Interfaces) == "interfaces" && Name(KeySymbols) == "keySymbols"
  {
  }

  /** Lengths in characters: a body is the length of its block, `stub` of the map without symbols. */
  datatype Layout = Layout(preamble: nat, stub: nat, learnedNote: nat)

  function Block(slim: Slim<nat>, s: Section): nat {
    if s in slim then slim[s] else 0
  }

  function Blocks(slim: Slim<nat>): nat {
    Block(slim, Glossary) + Block(slim, Conventions) + Block(slim, ImportGraph)
    + Block(slim, Learned) + Block(slim, Interfaces) + Block(slim, KeySymbols)
  }

  function Length(l: Layout, slim: Slim<nat>, dropped: seq<Section>): nat {
    l.preamble + Blocks(slim) + (if Learned in dropped then 0 else l.learnedNote) + |DropNote(dropped)|
  }

  /** `estimateTokens`: four characters to a token, rounded up. */
  function EstimateTokens(length: nat): (r: nat)
    ensures 4 * r >= length && 4 * r < length + 4
  {
    (length + 3) / 4
  }

  function LayoutRenderer(l: Layout, maxTokens: nat): Renderer<nat> {
    Renderer(b => l.stub, (slim, dropped) => EstimateTokens(Length(l, slim, dropped)), maxTokens)
  }

  /** Characters saved in the body when `s` is dropped. */
  function Saving(l: Layout, slim: Slim<nat>, s: Section): int
    requires s in slim
  {
    slim[s] - (if s == KeySymbols then l.stub else 0) + (if s == Learned then l.learnedNote else 0)
  }

  // ----- One more section dropped -----

  function NameTotal(dropped: seq<Section>): nat {
    if dropped == [] then 0 else |Name(dropped[0])| + 2 + NameTotal(dropped[1..])
  }

  lemma {:induction false} JoinLength(dropped: seq<Section>)
    requires dropped != []
    ensures |JoinNames(dropped)| + 2 == NameTotal(dropped)
  {
    if |dropped| == 1 {
      assert dropped[1..] == [];
    } else {
      JoinLength(dropped[1..]);
    }
  }

  lemma {:induction false} NameTotalAppend(a: seq<Section>, b: seq<Section>)
    ensures NameTotal(a + b) == NameTotal(a) + NameTotal(b)
  {
    if a == [] {
      assert a + b == b;
    } else {
      assert (a + b)[1..] == a[1..] + b;
      NameTotalAppend(a[1..], b);
    }
  }

  lemma NoteLength(dropped: seq<Section>)
    requires dropped != []
    ensures |DropNote(dropped)| == |NOTE_OPEN| + |NOTE_CLOSE| + NameTotal(dropped) - 2
  {
    JoinLength(dropped);
  }

  lemma NameTotalGrowth(d: set<Section>, s: Section)
    requires s !in d
    ensures NameTotal(Ordered(d + {s})) == NameTotal(Ordered(d)) + |Name(s)| + 2
  {
    hide Ordered;
    var o := Ordered(d + {s});
    assert s in o;
    var k :| 0 <= k < |o| && o[k] == s;
    OrderedRemove(d + {s}, k);
    assert d + {s} - {s} == d;
    var front, back := o[..k], o[k + 1..];
    assert o == front + ([s] + back);
    NameTotalAppend(front, [s] + back);
    NameTotalAppend(front, back);
    assert ([s] + back)[1..] == back;
  }

  /** What naming one more section costs in the note: its separator, or the note itself for the first. */
  function NoteCost(d: set<Section>, s: Section): nat {
    |Name(s)| + (if d == {} then |NOTE_OPEN| + |NOTE_CLOSE| else 2)
  }

  lemma NoteGrowth(d: set<Section>, s: Section)
    requires s !in d
    ensures |DropNote(Ordered(d + {s}))| == |DropNote(Ordered(d))| + NoteCost(d, s)
  {
    NameTotalGrowth(d, s);
    hide Ordered;
    hide Name;
    assert s in Ordered(d + {s});
    NoteLength(Ordered(d + {s}));
    if d == {} {
      assert Ordered(d) == [];
    } else {
      var x :| x in d;
      assert x in Ordered(d);
      NoteLength(Ordered(d));
    }
  }

  lemma BlocksAfterDrop(slim: Slim<nat>, d: set<Section>, s: Section, strip: nat -> nat)
    requires s in slim && s !in d
    ensures Blocks(Dropped(slim, d + {s}, strip))
         == Blocks(Dropped(slim, d, strip)) - slim[s] + (if s == KeySymbols then strip(slim[s]) else 0)
  {
    var a, b := Dropped(slim, d, strip), Dropped(slim, d + {s}, strip);
    forall t: Section | t != s ensures Block(a, t) == Block(b, t) {
    }
    assert Block(a, s) == slim[s];
    assert Block(b, s) == if s == KeySymbols then strip(slim[s]) else 0;
    match s
    case Glossary =>
    case Conventions =>
    case ImportGraph =>
    case Learned =>
    case Interfaces =>
    case KeySymbols =>
  }

  function LengthOf(l: Layout, slim: Slim<nat>, d: set<Section>): nat {
    Length(l, Dropped(slim, d, LayoutRenderer(l, 0).strip), Ordered(d))
  }

  /** Dropping one more section changes the length by its cost in the note minus what it saves. */
  lemma LengthAfterDrop(l: Layout, slim: Slim<nat>, d: set<Section>, s: Section)
    requires d <= slim.Keys && s in slim && s !in d
    ensures LengthOf(l, slim, d + {s}) == LengthOf(l, slim, d) + NoteCost(d, s) - Saving(l, slim, s)
  {
    hide Ordered;
    hide Dropped;
    hide Blocks;
    hide DropNote;
    hide NoteCost;
    NoteGrowth(d, s);
    BlocksAfterDrop(slim, d, s, LayoutRenderer(l, 0).strip);
  }

  // ----- When restoring shortens the text -----

  /** Restoring `s`, the others of `d` staying dropped, leaves a shorter text than dropping it did. */
  ghost predicate RestoringShortens(l: Layout, slim: Slim<nat>, d: set<Section>, s: Section) {
    LengthOf(l, slim, d) < LengthOf(l, slim, d + {s})
  }

  /** Exactly when what the section saves is less than its name costs in the note. */
  lemma RestoringShortensExactly(l: Layout, slim: Slim<nat>, d: set<Section>, s: Section)
    requires d <= slim.Keys && s in slim && s !in d
    ensures RestoringShortens(l, slim, d, s) <==> Saving(l, slim, s) < NoteCost(d, s)
  {
    LengthAfterDrop(l, slim, d, s);
    hide LengthOf;
  }

  /** A document no restore of which shortens the text, whatever else is dropped. */
  ghost predicate RestoringNeverShortens(l: Layout, slim: Slim<nat>) {
    forall d: set<Section>, s: Section :: d <= slim.Keys && s in slim && s !in d ==> !RestoringShortens(l, slim, d, s)
  }

  /** Exactly when every section saves at least a whole drop note naming it alone. */
  lemma RestoringNeverShortensExactly(l: Layout, slim: Slim<nat>)
    ensures RestoringNeverShortens(l, slim) <==> forall s :: s in slim ==> Saving(l, slim, s) >= NoteCost({}, s)
  {
    hide RestoringShortens;
    hide Saving;
    forall d: set<Section>, s: Section | d <= slim.Keys && s in slim && s !in d
      ensures RestoringShortens(l, slim, d, s) <==> Saving(l, slim, s) < NoteCost(d, s)
    {
      RestoringShortensExactly(l, slim, d, s);
    }
    assert forall d: set<Section>, s: Section :: NoteCost(d, s) <= NoteCost({}, s);
    forall s | s in slim ensures !RestoringShortens(l, slim, {}, s) <==> Saving(l, slim, s) >= NoteCost({}, s) {
    }
  }

  // ----- Every real block pays for its name in the note -----

  /**
   * A YAML block is at least `name: []` and a newline, so dropping it saves more than its
   * name and separator cost in the note. Nothing is asked of KeySymbols.
   */
  ghost predicate BlocksOutweighNames(slim: Slim<nat>) {
    forall s :: s in slim && s != KeySymbols ==> slim[s] >= |Name(s)| + 2
  }

  lemma {:induction false} DroppingMoreIsShorter(l: Layout, slim: Slim<nat>, d: set<Section>, more: set<Section>)
    requires BlocksOutweighNames(slim)
    requires d <= slim.Keys && d != {} && more <= slim.Keys && KeySymbols !in more
    ensures LengthOf(l, slim, d + more) <= LengthOf(l, slim, d)
    decreases more
  {
    hide LengthOf;
    hide BlocksOutweighNames;
    if more <= d {
      assert d + more == d;
    } else {
      var s :| s in more && s !in d;
      OneMoreIsShorter(l, slim, d, s);
      DroppingMoreIsShorter(l, slim, d + {s}, more - {s});
      assert d + {s} + (more - {s}) == d + more;
    }
  }

  lemma OneMoreIsShorter(l: Layout, slim: Slim<nat>, d: set<Section>, s: Section)
    requires BlocksOutweighNames(slim)
    requires d <= slim.Keys && d != {} && s in slim && s !in d && s != KeySymbols
    ensures LengthOf(l, slim, d + {s}) <= LengthOf(l, slim, d)
  {
    LengthAfterDrop(l, slim, d, s);
  }

  lemma RealBlocksMakeDroppingHelp(l: Layout, maxTokens: nat, slim: Slim<nat>)
    requires BlocksOutweighNames(slim)
    ensures DroppingBelowHelps(LayoutRenderer(l, maxTokens), slim)
  {
    var r := LayoutRenderer(l, maxTokens);
    forall d: set<Section>, i: nat | d <= slim.Keys && d != {} && i < |DEGRADE_ORDER|
      ensures Cost(r, slim, d + Below(slim.Keys, i)) <= Cost(r, slim, d)
    {
      assert KeySymbols !in Below(slim.Keys, i);
      DroppingMoreIsShorter(l, slim, d, Below(slim.Keys, i));
      CostIsLength(l, maxTokens, slim, d);
      CostIsLength(l, maxTokens, slim, d + Below(slim.Keys, i));
    }
  }

  lemma CostIsLength(l: Layout, maxTokens: nat, slim: Slim<nat>, d: set<Section>)
    ensures Cost(LayoutRenderer(l, maxTokens), slim, d) == EstimateTokens(LengthOf(l, slim, d))
  {
    assert LayoutRenderer(l, maxTokens).strip == LayoutRenderer(l, 0).strip;
  }

  /**
   * For the real note and blocks, with no assumption on the budget: the injection keeps the
   * most protected selection in budget.
   */
  lemma RealInjectionKeepsTheMostProtected(l: Layout, maxTokens: nat, slim: Slim<nat>, e: set<Section>)
    requires BlocksOutweighNames(slim)
    requires e <= slim.Keys && EstimateTokens(LengthOf(l, slim, e)) <= maxTokens
    ensures var out := FinallyDropped(LayoutRenderer(l, maxTokens), slim);
            && EstimateTokens(LengthOf(l, slim, out)) <= maxTokens
            && (out == e || ProtectsMore(out, e, 0))
  {
    var r := LayoutRenderer(l, maxTokens);
    RealBlocksMakeDroppingHelp(l, maxTokens, slim);
    CostIsLength(l, maxTokens, slim, e);
    CostIsLength(l, maxTokens, slim, FinallyDropped(r, slim));
    KeepsTheMostProtected(r, slim, e);
  }

  // ----- Where one greedy pass would do worse -----

  /** The blocks of a codex nothing has been written into, from `glossary: []` to `map: []`. */
  function EmptyCodex(): Slim<nat> {
    map[Glossary := 13, Conventions := 16, ImportGraph := 16, Learned := 12, Interfaces := 15, KeySymbols := 8]
  }

  /** Its map has no symbols to lose, so the stub is the block itself. */
  function EmptyLayout(preamble: nat): Layout {
    Layout(preamble, 8, 0)
  }

  lemma WholeEmptyCodex(preamble: nat)
    ensures LengthOf(EmptyLayout(preamble), EmptyCodex(), {}) == preamble + 80
  {
    var slim := EmptyCodex();
    assert Dropped(slim, {}, LayoutRenderer(EmptyLayout(preamble), 0).strip) == slim;
    assert Ordered({}) == [];
    hide Ordered;
  }

  lemma EmptyCodexCut(preamble: nat)
    ensures LengthOf(EmptyLayout(preamble), EmptyCodex(), {Glossary}) >= preamble + 84
  {
    GlossarySaves(preamble);
    hide *;
    WholeEmptyCodex(preamble);
    LengthAfterDrop(EmptyLayout(preamble), EmptyCodex(), {}, Glossary);
    assert {} + {Glossary} == {Glossary};
  }

  lemma GlossarySaves(preamble: nat)
    ensures Glossary in EmptyCodex() && Saving(EmptyLayout(preamble), EmptyCodex(), Glossary) == 13
    ensures NoteCost({}, Glossary) >= 17
  {
    assert |NOTE_OPEN| >= 20;
  }

  /** Dropping the symbols of an empty map only lengthens the text, so restoring them always shortens it. */
  lemma RestoringAnEmptyMapShortens(preamble: nat, d: set<Section>)
    requires KeySymbols !in d
    ensures RestoringShortens(EmptyLayout(preamble), EmptyCodex(), d, KeySymbols)
  {
    assert forall s :: s in EmptyCodex() by {
      forall s: Section ensures s in EmptyCodex() {
        match s
        case Glossary =>
        case Conventions =>
        case ImportGraph =>
        case Learned =>
        case Interfaces =>
        case KeySymbols =>
      }
    }
    RestoringShortensExactly(EmptyLayout(preamble), EmptyCodex(), d, KeySymbols);
    hide RestoringShortens;
  }

  /**
   * A document that fits but strands the greedy pass: cutting its empty glossary costs a drop note
   * longer than the glossary. The two phases keep the document whole; the greedy pass does not.
   */
  lemma GreedyPassStrandsAnEmptyCodex(preamble: nat)
    ensures BlocksOutweighNames(EmptyCodex())
    ensures var r := LayoutRenderer(EmptyLayout(preamble), EstimateTokens(preamble + 80));
            FinallyDropped(r, EmptyCodex()) == {} && GreedyFromAllDropped(r, EmptyCodex()) != {}
  {
    var l, slim, budget := EmptyLayout(preamble), EmptyCodex(), EstimateTokens(preamble + 80);
    var r := LayoutRenderer(l, budget);
    EmptyCodexFits(preamble);
    CutStrands(r, slim);
    hide LayoutRenderer;
    hide BlocksOutweighNames;
    RealBlocksMakeDroppingHelp(l, budget, slim);
    hide *;
    NothingDroppedStays(r, slim);
    TwoPhasesAreOneGreedyPass(r, slim);
  }

  lemma EmptyCodexFits(preamble: nat)
    ensures BlocksOutweighNames(EmptyCodex()) && Conventions in EmptyCodex() && Glossary in EmptyCodex()
    ensures var r := LayoutRenderer(EmptyLayout(preamble), EstimateTokens(preamble + 80));
            Fits(r, EmptyCodex(), {}) && !Fits(r, EmptyCodex(), {Glossary})
  {
    EmptyCodexOutweighsNames();
    EstimateGrows(preamble + 80, LengthOf(EmptyLayout(preamble), EmptyCodex(), {Glossary}));
    hide *;
    var l, budget := EmptyLayout(preamble), EstimateTokens(preamble + 80);
    WholeEmptyCodex(preamble);
    EmptyCodexCut(preamble);
    FitsIsLength(l, budget, EmptyCodex(), {});
    FitsIsLength(l, budget, EmptyCodex(), {Glossary});
  }

  lemma EmptyCodexOutweighsNames()
    ensures BlocksOutweighNames(EmptyCodex()) && Conventions in EmptyCodex() && Glossary in EmptyCodex()
  {
  }

  lemma EstimateGrows(a: nat, b: nat)
    ensures b >= a + 4 ==> EstimateTokens(b) > EstimateTokens(a)
  {
  }

  lemma FitsIsLength(l: Layout, budget: nat, slim: Slim<nat>, d: set<Section>)
    ensures Fits(LayoutRenderer(l, budget), slim, d) <==> EstimateTokens(LengthOf(l, slim, d)) <= budget
  {
    CostIsLength(l, budget, slim, d);
    hide LengthOf;
    hide Cost;
  }

  /** Without its first section alone the document is over budget, so a later section strands the pass. */
  lemma CutStrands(r: Renderer<nat>, slim: Slim<nat>)
    requires Glossary in slim && Conventions in slim && !Fits(r, slim, {Glossary})
    ensures !EveryCutFits(r, slim, |DEGRADE_ORDER|)
  {
    hide Fits;
    assert DEGRADE_ORDER[1] == Conventions;
    assert Below(slim.Keys, 1) == {Glossary};
  }
}
