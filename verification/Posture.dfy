/**
 * The session posture (packages/shared/src/posture.ts) and the bounded walk behind it
 * (packages/sidecar/src/posture.ts).
 */
module Posture {
  import opened Common

  datatype SessionPosture = FullPosture | LightPosture | IdlePosture

  datatype Assessment = Assessment(files: nat, sourceBytes: nat, learnedEntries: nat, pitfallEntries: nat)

  const IDLE_MAX_FILES := 25
  const IDLE_MAX_SOURCE_BYTES := 262_144
  const LIGHT_MAX_FILES := 120
  const LIGHT_MAX_SOURCE_BYTES := 2_097_152
  const WALK_DIR_CAP := 2_000
  const MAX_SOURCE_SIZE := 1_000_000

  function DecidePosture(a: Assessment): SessionPosture {
    if a.files > LIGHT_MAX_FILES || a.sourceBytes > LIGHT_MAX_SOURCE_BYTES then FullPosture
    else if a.learnedEntries + a.pitfallEntries == 0 && a.files <= IDLE_MAX_FILES && a.sourceBytes <= IDLE_MAX_SOURCE_BYTES
    then IdlePosture
    else LightPosture
  }

  // ----- Directory trees -----

  /**
   * A directory entry in the order it is read. `Ignored` is whatever the walk passes over: skipped
   * names, other extensions, entries that refuse a stat. A directory may refuse to be listed.
   */
  datatype Node =
    | SourceFile(size: nat)
    | Ignored
    | Directory(listed: bool, children: seq<Node>)

  predicate Counts(n: Node) {
    n.SourceFile? && n.size < MAX_SOURCE_SIZE
  }

  datatype Totals = Totals(files: nat, sourceBytes: nat, dirs: nat)

  const NOTHING := Totals(0, 0, 0)

  function Add(a: Totals, b: Totals): Totals {
    Totals(a.files + b.files, a.sourceBytes + b.sourceBytes, a.dirs + b.dirs)
  }

  /** The complete walk: every counted file and every directory visited. */
  function CompleteNode(n: Node): Totals {
    match n
    case SourceFile(size) => if Counts(n) then Totals(1, size, 0) else NOTHING
    case Ignored => NOTHING
    case Directory(listed, children) => Add(Totals(0, 0, 1), if listed then CompleteAll(children) else NOTHING)
  }

  function CompleteAll(nodes: seq<Node>): Totals {
    if nodes == [] then NOTHING else Add(CompleteNode(nodes[0]), CompleteAll(nodes[1..]))
  }

  // ----- The bounded walk -----

  datatype Walk = Walk(totals: Totals, capped: bool)

  predicate OverThreshold(t: Totals) {
    t.files > LIGHT_MAX_FILES || t.sourceBytes > LIGHT_MAX_SOURCE_BYTES
  }

  function WalkNode(w: Walk, n: Node): Walk
    decreases n, 1
  {
    match n
    case SourceFile(size) =>
      if Counts(n) then
        var t := Add(w.totals, Totals(1, size, 0));
        Walk(t, w.capped || OverThreshold(t))
      else w
    case Ignored => w
    case Directory(listed, children) => WalkDir(w, n)
  }

  function WalkDir(w: Walk, dir: Node): Walk
    requires dir.Directory?
    decreases dir, 0
  {
    if w.capped then w
    else
      var entered := Add(w.totals, Totals(0, 0, 1));
      if entered.dirs > WALK_DIR_CAP then Walk(entered, true)
      else if !dir.listed then Walk(entered, false)
      else WalkAll(Walk(entered, false), dir.children)
  }

  function WalkAll(w: Walk, nodes: seq<Node>): Walk
    decreases nodes
  {
    if nodes == [] || w.capped then w else WalkAll(WalkNode(w, nodes[0]), nodes[1..])
  }

  class Walker {
    var files: nat
    var sourceBytes: nat
    var dirs: nat
    var capped: bool

    constructor ()
      ensures State() == Walk(NOTHING, false)
    {
      files, sourceBytes, dirs, capped := 0, 0, 0, false;
    }

    function State(): Walk
      reads this
    {
      Walk(Totals(files, sourceBytes, dirs), capped)
    }

    method Visit(dir: Node)
      requires dir.Directory?
      modifies this
      ensures State() == WalkDir(old(State()), dir)
      decreases dir
    {
      if capped {
        return;
      }
      dirs := dirs + 1;
      if dirs > WALK_DIR_CAP {
        capped := true;
        return;
      }
      if !dir.listed {
        return;
      }
      var i := 0;
      while i < |dir.children|
        invariant 0 <= i <= |dir.children|
        invariant WalkDir(old(State()), dir) == WalkAll(State(), dir.children[i..])
      {
        if capped {
          return;
        }
        var node := dir.children[i];
        assert dir.children[i..][0] == node && dir.children[i..][1..] == dir.children[i + 1..];
        match node {
          case SourceFile(size) =>
            if size < MAX_SOURCE_SIZE {
              files := files + 1;
              sourceBytes := sourceBytes + size;
              if files > LIGHT_MAX_FILES || sourceBytes > LIGHT_MAX_SOURCE_BYTES {
                capped := true;
              }
            }
          case Ignored =>
          case Directory(_, _) => Visit(node);
        }
        i := i + 1;
      }
    }
  }

  /** What `boundedWalk` returns: the walk of the root from nothing counted. */
  function BoundedTotals(root: Node): Totals
    requires root.Directory?
  {
    WalkDir(Walk(NOTHING, false), root).totals
  }

  method BoundedWalk(root: Node) returns (t: Totals)
    requires root.Directory?
    ensures t == BoundedTotals(root)
  {
    hide WalkDir;
    var walker := new Walker();
    walker.Visit(root);
    t := walker.State().totals;
  }

  datatype Codex = Codex(files: nat, learned: nat, pitfalls: nat)

  datatype Decision = Decision(posture: SessionPosture, assessment: Assessment, pinned: bool)

  /** The assessment from walked totals; an absent or unreadable codex contributes nothing. */
  function Assess(codex: Option<Codex>, t: Totals): Assessment {
    match codex
    case None => Assessment(t.files, t.sourceBytes, 0, 0)
    case Some(c) => Assessment(Max(c.files, t.files), t.sourceBytes, c.learned, c.pitfalls)
  }

  /** The assessment reports what the codex and the walk say, the larger file count of the two. */
  ghost predicate Reports(a: Assessment, codex: Option<Codex>, t: Totals) {
    && a.files == (if codex.Some? && codex.value.files > t.files then codex.value.files else t.files)
    && a.sourceBytes == t.sourceBytes
    && a.learnedEntries == (if codex.Some? then codex.value.learned else 0)
    && a.pitfallEntries == (if codex.Some? then codex.value.pitfalls else 0)
  }

  lemma AssessmentReports(codex: Option<Codex>, t: Totals)
    ensures Reports(Assess(codex, t), codex, t)
  {
  }

  /** At most one file, of less than a megabyte, or one directory past a threshold. */
  ghost predicate WithinBounds(t: Totals) {
    t.files <= 121 && t.sourceBytes < 3_097_152 && t.dirs <= 2_001
  }

  method AssessSessionPosture(root: Node, codex: Option<Codex>, pin: Option<SessionPosture>) returns (d: Decision)
    requires root.Directory?
    ensures pin.Some? ==> d == Decision(pin.value, Assessment(0, 0, 0, 0), true)
    ensures pin.None? ==>
      var t := BoundedTotals(root);
      && !d.pinned && Reports(d.assessment, codex, t)
      && d.posture == (if t.dirs > WALK_DIR_CAP then FullPosture else DecidePosture(d.assessment))
    ensures pin.None? ==> d.posture == CompletePosture(root, codex)
    ensures pin.None? ==> WithinBounds(BoundedTotals(root))
  {
    hide *;
    if pin.Some? {
      return Decision(pin.value, Assessment(0, 0, 0, 0), true);
    }
    var t := BoundedWalk(root);
    EarlyStoppingDecidesTheSame(root, codex);
    var a := Assess(codex, t);
    AssessmentReports(codex, t);
    d := Decision(if t.dirs > WALK_DIR_CAP then FullPosture else DecidePosture(a), a, false);
  }

  // ----- Early stopping changes nothing -----

  /** What a complete walk would decide; past the directory ceiling the session is fully governed. */
  function CompletePosture(root: Node, codex: Option<Codex>): SessionPosture {
    var t := CompleteNode(root);
    if t.dirs > WALK_DIR_CAP then FullPosture else DecidePosture(Assess(codex, t))
  }

  ghost predicate AtMost(a: Totals, b: Totals) {
    a.files <= b.files && a.sourceBytes <= b.sourceBytes && a.dirs <= b.dirs
  }

  /**
   * Started below every threshold, a walk either completes, counting everything, or stops just past
   * the first threshold it crosses, having counted no more than there is.
   */
  ghost predicate Faithful(start: Totals, end: Walk, complete: Totals) {
    && end.totals.files <= LIGHT_MAX_FILES + 1
    && end.totals.sourceBytes < LIGHT_MAX_SOURCE_BYTES + MAX_SOURCE_SIZE
    && end.totals.dirs <= WALK_DIR_CAP + 1
    && AtMost(end.totals, Add(start, complete))
    && (if end.capped then OverThreshold(end.totals) || end.totals.dirs > WALK_DIR_CAP
        else end.totals == Add(start, complete) && !OverThreshold(end.totals) && end.totals.dirs <= WALK_DIR_CAP)
  }

  ghost predicate Open(w: Walk) {
    !w.capped && !OverThreshold(w.totals) && w.totals.dirs <= WALK_DIR_CAP
  }

  lemma {:induction false} WalkNodeFaithful(w: Walk, n: Node)
    requires Open(w)
    ensures Faithful(w.totals, WalkNode(w, n), CompleteNode(n))
    decreases n, 1
  {
    match n
    case SourceFile(_) =>
    case Ignored =>
    case Directory(_, _) => WalkDirFaithful(w, n);
  }

  lemma {:induction false} WalkDirFaithful(w: Walk, dir: Node)
    requires Open(w) && dir.Directory?
    ensures Faithful(w.totals, WalkDir(w, dir), CompleteNode(dir))
    decreases dir, 0
  {
    hide WalkDir;
    hide WalkAll;
    hide Faithful;
    var entered := Walk(Add(w.totals, Totals(0, 0, 1)), false);
    if entered.totals.dirs <= WALK_DIR_CAP && dir.listed {
      WalkAllFaithful(entered, dir.children);
    }
    FaithfulFromChildren(w, dir);
  }

  lemma FaithfulFromChildren(w: Walk, dir: Node)
    requires Open(w) && dir.Directory?
    requires var entered := Walk(Add(w.totals, Totals(0, 0, 1)), false);
      entered.totals.dirs <= WALK_DIR_CAP && dir.listed ==>
        Faithful(entered.totals, WalkAll(entered, dir.children), CompleteAll(dir.children))
    ensures Faithful(w.totals, WalkDir(w, dir), CompleteNode(dir))
  {
    hide Faithful;
    var entered := Add(w.totals, Totals(0, 0, 1));
    var rest := if dir.listed then CompleteAll(dir.children) else NOTHING;
    UnfoldDirectory(w, dir, rest);
    hide WalkDir;
    hide CompleteNode;
    if entered.dirs > WALK_DIR_CAP {
      GivingUp(w.totals, CompleteNode(dir));
    } else {
      SameThreshold(w.totals, entered);
      if !dir.listed {
        StandingStill(entered);
      }
      EnteredFaithful(w.totals, WalkDir(w, dir), rest);
    }
  }

  lemma UnfoldDirectory(w: Walk, dir: Node, rest: Totals)
    requires Open(w) && dir.Directory? && rest == if dir.listed then CompleteAll(dir.children) else NOTHING
    ensures CompleteNode(dir) == Add(Totals(0, 0, 1), rest)
    ensures var entered := Add(w.totals, Totals(0, 0, 1));
      WalkDir(w, dir) ==
        if entered.dirs > WALK_DIR_CAP then Walk(entered, true)
        else if !dir.listed then Walk(entered, false)
        else WalkAll(Walk(entered, false), dir.children)
  {
    hide WalkAll;
    hide CompleteAll;
  }

  lemma SameThreshold(a: Totals, b: Totals)
    requires a.files == b.files && a.sourceBytes == b.sourceBytes
    ensures OverThreshold(a) == OverThreshold(b)
  {
  }

  lemma StandingStill(t: Totals)
    requires !OverThreshold(t) && t.dirs <= WALK_DIR_CAP
    ensures Faithful(t, Walk(t, false), NOTHING)
  {
  }

  lemma GivingUp(start: Totals, complete: Totals)
    requires !OverThreshold(start) && start.dirs == WALK_DIR_CAP && complete.dirs >= 1
    ensures Faithful(start, Walk(Add(start, Totals(0, 0, 1)), true), complete)
  {
  }

  lemma EnteredFaithful(start: Totals, end: Walk, rest: Totals)
    requires Faithful(Add(start, Totals(0, 0, 1)), end, rest)
    ensures Faithful(start, end, Add(Totals(0, 0, 1), rest))
  {
  }

  lemma {:induction false} WalkAllFaithful(w: Walk, nodes: seq<Node>)
    requires Open(w)
    ensures Faithful(w.totals, WalkAll(w, nodes), CompleteAll(nodes))
    decreases nodes, 0
  {
    if nodes != [] {
      var next := WalkNode(w, nodes[0]);
      WalkNodeFaithful(w, nodes[0]);
      if next.capped {
        assert WalkAll(next, nodes[1..]) == next;
      } else {
        WalkAllFaithful(next, nodes[1..]);
      }
    }
  }

  /**
   * For every tree: the early-stopping walk decides what the complete walk decides, `full` beyond
   * the directory ceiling, and never goes more than one file or directory past a threshold.
   */
  lemma EarlyStoppingDecidesTheSame(root: Node, codex: Option<Codex>)
    requires root.Directory?
    ensures var t := BoundedTotals(root);
      && (if t.dirs > WALK_DIR_CAP then FullPosture else DecidePosture(Assess(codex, t))) == CompletePosture(root, codex)
      && WithinBounds(t)
  {
    hide WalkDir;
    hide CompleteNode;
    WalkDirFaithful(Walk(NOTHING, false), root);
    FaithfulDecides(WalkDir(Walk(NOTHING, false), root), CompleteNode(root), codex);
  }

  lemma FaithfulDecides(w: Walk, complete: Totals, codex: Option<Codex>)
    requires Faithful(NOTHING, w, complete)
    ensures (if w.totals.dirs > WALK_DIR_CAP then FullPosture else DecidePosture(Assess(codex, w.totals)))
         == (if complete.dirs > WALK_DIR_CAP then FullPosture else DecidePosture(Assess(codex, complete)))
  {
  }

  // ----- What a complete walk counts, and what it decides -----

  /** Every entry a complete walk comes to: the root, and whatever listed directories hold. */
  ghost function Reached(n: Node): seq<Node> {
    [n] + if n.Directory? && n.listed then ReachedAll(n.children) else []
  }

  ghost function ReachedAll(nodes: seq<Node>): seq<Node> {
    if nodes == [] then [] else Reached(nodes[0]) + ReachedAll(nodes[1..])
  }

  ghost predicate SmallSource(n: Node) {
    n.SourceFile? && n.size < 1_000_000
  }

  ghost function SmallSources(nodes: seq<Node>): seq<Node> {
    Filter(nodes, n => SmallSource(n))
  }

  ghost function Directories(nodes: seq<Node>): seq<Node> {
    Filter(nodes, (n: Node) => n.Directory?)
  }

  ghost function SizeOf(nodes: seq<Node>): nat {
    if nodes == [] then 0 else (if nodes[0].SourceFile? then nodes[0].size else 0) + SizeOf(nodes[1..])
  }

  ghost predicate Counted(t: Totals, nodes: seq<Node>) {
    && t.files == |SmallSources(nodes)|
    && t.sourceBytes == SizeOf(SmallSources(nodes))
    && t.dirs == |Directories(nodes)|
  }

  lemma {:induction false} SizeAppend(a: seq<Node>, b: seq<Node>)
    ensures SizeOf(a + b) == SizeOf(a) + SizeOf(b)
  {
    if a == [] {
      assert a + b == b;
    } else {
      assert (a + b)[1..] == a[1..] + b;
      SizeAppend(a[1..], b);
    }
  }

  lemma CountedAppend(s: Totals, t: Totals, a: seq<Node>, b: seq<Node>)
    requires Counted(s, a) && Counted(t, b)
    ensures Counted(Add(s, t), a + b)
  {
    FilterAppend(a, b, n => SmallSource(n));
    FilterAppend(a, b, (n: Node) => n.Directory?);
    SizeAppend(SmallSources(a), SmallSources(b));
  }

  lemma CountedOne(n: Node)
    ensures Counted(if n.Directory? then Totals(0, 0, 1) else CompleteNode(n), [n])
    ensures Counted(NOTHING, [])
  {
    if SmallSource(n) {
      assert SmallSources([n]) == [n];
    }
  }

  /** A complete walk counts the small source files it reaches, their sizes, and the directories. */
  lemma {:induction false} CompleteWalkCounts(n: Node)
    ensures Counted(CompleteNode(n), Reached(n))
  {
    CountedOne(n);
    if n.Directory? {
      var inside := if n.listed then ReachedAll(n.children) else [];
      var t := if n.listed then CompleteAll(n.children) else NOTHING;
      if n.listed {
        CompleteWalkCountsAll(n.children);
      }
      CountedAppend(Totals(0, 0, 1), t, [n], inside);
    } else {
      assert Reached(n) == [n];
    }
  }

  lemma {:induction false} CompleteWalkCountsAll(nodes: seq<Node>)
    ensures Counted(CompleteAll(nodes), ReachedAll(nodes))
  {
    if nodes == [] {
      CountedOne(Ignored);
    } else {
      CompleteWalkCounts(nodes[0]);
      CompleteWalkCountsAll(nodes[1..]);
      CountedAppend(CompleteNode(nodes[0]), CompleteAll(nodes[1..]), Reached(nodes[0]), ReachedAll(nodes[1..]));
    }
  }

  /**
   * The posture of a tree: full past 2000 directories, 120 files or two megabytes of source; idle
   * when the codex taught nothing and there are at most 25 files and a quarter megabyte; else light.
   * An indexed count above the walked one stands for the files.
   */
  lemma PostureExactly(root: Node, codex: Option<Codex>)
    requires root.Directory?
    ensures var nodes := Reached(root);
      var walked, bytes, dirs := |SmallSources(nodes)|, SizeOf(SmallSources(nodes)), |Directories(nodes)|;
      var files := if codex.Some? && codex.value.files > walked then codex.value.files else walked;
      var full := dirs > 2_000 || files > 120 || bytes > 2_097_152;
      var quiet := codex.None? || (codex.value.learned == 0 && codex.value.pitfalls == 0);
      && (CompletePosture(root, codex) == FullPosture <==> full)
      && (CompletePosture(root, codex) == IdlePosture <==> !full && quiet && files <= 25 && bytes <= 262_144)
  {
    CompleteWalkCounts(root);
    hide CompleteNode;
    hide Reached;
  }
}
