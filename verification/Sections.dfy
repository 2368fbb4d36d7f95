/**
 * Section maps: the landmark sections of an HTML page (packages/sidecar/src/html.ts) and the
 * heading sections of a prose document (`buildStructureMap`, packages/sidecar/src/docs.ts).
 * Lines are numbered from 1 and ranges are inclusive, as in the source.
 */
module Sections {
  import opened Common
  import opened Strings
  import Sorting

  datatype Range = Range(startLine: nat, endLine: nat)

  /** `lines.slice(start - 1, end)` */
  function Slice(lines: seq<string>, r: Range): seq<string> {
    var from := if r.startLine > 0 then r.startLine - 1 else if lines == [] then 0 else |lines| - 1;
    var to := if r.endLine <= |lines| then r.endLine else |lines|;
    if from <= to then lines[from..to] else []
  }

  function SectionText(text: string, r: Range): string {
    Join(Slice(Split(text), r))
  }

  function SectionTexts(text: string, ranges: seq<Range>): seq<string> {
    seq(|ranges|, i requires 0 <= i < |ranges| => SectionText(text, ranges[i]))
  }

  // ----- Ranges that tile a text -----

  /** Consecutive non-empty ranges from line `from` to line `to`. */
  ghost predicate Tiles(ranges: seq<Range>, from: nat, to: nat) {
    && ranges != []
    && ranges[0].startLine == from
    && ranges[|ranges| - 1].endLine == to
    && (forall i :: 0 <= i < |ranges| ==> 1 <= ranges[i].startLine <= ranges[i].endLine)
    && (forall i :: 0 <= i < |ranges| - 1 ==> ranges[i + 1].startLine == ranges[i].endLine + 1)
  }

  lemma {:induction false} TilesCover(ranges: seq<Range>, from: nat, to: nat)
    requires Tiles(ranges, from, to)
    ensures forall i :: 0 <= i < |ranges| ==> from <= ranges[i].startLine && ranges[i].endLine <= to
  {
    if |ranges| > 1 {
      var init := ranges[..|ranges| - 1];
      TilesCover(init, from, init[|init| - 1].endLine);
    }
  }

  /** Joining the slices of a tiling with newlines gives the text back, byte for byte. */
  lemma {:induction false} TilesRebuild(text: string, ranges: seq<Range>, from: nat, to: nat)
    requires Tiles(ranges, from, to) && to <= |Split(text)|
    ensures 1 <= from <= to
    ensures Join(SectionTexts(text, ranges)) == Join(Split(text)[from - 1..to])
  {
    hide Join;
    hide Split;
    var lines := Split(text);
    var last := ranges[|ranges| - 1];
    TilesCover(ranges, from, to);
    assert Slice(lines, last) == lines[last.startLine - 1..last.endLine];
    if |ranges| == 1 {
      assert SectionTexts(text, ranges) == [SectionText(text, last)];
      JoinOne(SectionText(text, last));
    } else {
      var init := ranges[..|ranges| - 1];
      var cut := init[|init| - 1].endLine;
      assert ranges[|init|].startLine == ranges[|init| - 1].endLine + 1;
      TilesCover(init, from, cut);
      TilesRebuild(text, init, from, cut);
      assert SectionTexts(text, ranges) == SectionTexts(text, init) + [SectionText(text, last)];
      JoinAppend(SectionTexts(text, init), [SectionText(text, last)]);
      JoinOne(SectionText(text, last));
      JoinAppend(lines[from - 1..cut], lines[cut..to]);
      assert lines[from - 1..cut] + lines[cut..to] == lines[from - 1..to];
    }
  }

  lemma JoinOne(s: string)
    ensures Join([s]) == s
  {
  }

  // ----- Landmarks -----

  datatype Kind = Heading | Script | Style | Sectioning | Identified

  function KindRank(k: Kind): nat {
    match k
    case Heading => 4
    case Script => 3
    case Style => 3
    case Sectioning => 2
    case Identified => 1
  }

  datatype Landmark = Landmark(line: nat, kind: Kind, level: nat, title: string, elementId: Option<string>)

  /** The winner keeps its own title; without an id it inherits the one it displaces. */
  function Winner(landmark: Landmark, held: Option<Landmark>): Landmark {
    if landmark.elementId.None? && held.Some? then landmark.(elementId := held.value.elementId) else landmark
  }

  predicate Displaces(landmark: Landmark, held: Option<Landmark>) {
    held.None? || KindRank(landmark.kind) > KindRank(held.value.kind)
  }

  /** The landmark speaking for a line after the first `n`. */
  function HeldOn(landmarks: seq<Landmark>, line: nat): (r: Option<Landmark>)
    ensures r.Some? ==> r.value.line == line
  {
    if landmarks == [] then None
    else
      var held := HeldOn(landmarks[..|landmarks| - 1], line);
      var last := landmarks[|landmarks| - 1];
      if last.line == line && Displaces(last, held) then Some(Winner(last, held)) else held
  }

  predicate ByLine(a: Landmark, b: Landmark) {
    a.line <= b.line
  }

  ghost predicate Increasing(landmarks: seq<Landmark>) {
    forall i, j :: 0 <= i < j < |landmarks| ==> landmarks[i].line < landmarks[j].line
  }

  /** One landmark per line, in line order, exactly for the lines that have one. */
  ghost predicate IsBestPerLine(landmarks: seq<Landmark>, best: seq<Landmark>) {
    && Increasing(best)
    && (forall b :: b in best ==> HeldOn(landmarks, b.line) == Some(b))
    && (forall l :: l in landmarks ==> exists b :: b in best && b.line == l.line)
  }

  /** The map a prefix of the landmarks leaves behind, with its keys in insertion order. */
  ghost predicate HoldsPerLine(landmarks: seq<Landmark>, byLine: map<nat, Landmark>, order: seq<nat>) {
    && NoDuplicates(order)
    && (forall line :: line in order <==> line in byLine)
    && (forall line :: line in byLine <==> HeldOn(landmarks, line).Some?)
    && (forall line :: line in byLine ==> HeldOn(landmarks, line) == Some(byLine[line]))
  }

  lemma HeldSnoc(landmarks: seq<Landmark>, last: Landmark, line: nat)
    ensures HeldOn(landmarks + [last], line)
         == if last.line == line && Displaces(last, HeldOn(landmarks, line)) then Some(Winner(last, HeldOn(landmarks, line)))
            else HeldOn(landmarks, line)
  {
    assert (landmarks + [last])[..|landmarks|] == landmarks;
  }

  /** `byLine.get` and the conditional `byLine.set`. */
  method HoldBest(landmark: Landmark, byLine0: map<nat, Landmark>, order0: seq<nat>, ghost before: seq<Landmark>)
    returns (byLine: map<nat, Landmark>, order: seq<nat>)
    requires HoldsPerLine(before, byLine0, order0)
    ensures HoldsPerLine(before + [landmark], byLine, order)
  {
    byLine, order := byLine0, order0;
    var held := if landmark.line in byLine then Some(byLine[landmark.line]) else None;
    if held.None? || KindRank(landmark.kind) > KindRank(held.value.kind) {
      if held.None? {
        order := order + [landmark.line];
      }
      byLine := byLine[landmark.line := Winner(landmark, held)];
    }
    forall line
      ensures line in byLine <==> HeldOn(before + [landmark], line).Some?
      ensures line in byLine ==> HeldOn(before + [landmark], line) == Some(byLine[line])
    {
      HeldSnoc(before, landmark, line);
    }
  }

  method BestPerLine(landmarks: seq<Landmark>) returns (best: seq<Landmark>)
    ensures IsBestPerLine(landmarks, best)
  {
    var byLine: map<nat, Landmark> := map[];
    var order: seq<nat> := [];
    for n := 0 to |landmarks|
      invariant HoldsPerLine(landmarks[..n], byLine, order)
    {
      assert landmarks[..n + 1] == landmarks[..n] + [landmarks[n]];
      byLine, order := HoldBest(landmarks[n], byLine, order, landmarks[..n]);
    }
    assert landmarks[..|landmarks|] == landmarks;
    var values := seq(|order|, i requires 0 <= i < |order| =>
      assert order[i] in order;
      byLine[order[i]]);
    best := Sorting.Sort(values, ByLine);
    SortedValuesAreBest(landmarks, byLine, order, values);
  }

  lemma SortedValuesAreBest(landmarks: seq<Landmark>, byLine: map<nat, Landmark>, order: seq<nat>, values: seq<Landmark>)
    requires HoldsPerLine(landmarks, byLine, order) && |values| == |order|
    requires forall i :: 0 <= i < |order| ==> order[i] in byLine && values[i] == byLine[order[i]]
    ensures IsBestPerLine(landmarks, Sorting.Sort(values, ByLine))
  {
    hide Sorting.Sort;
    hide HeldOn;
    Sorting.SameMembers(Sorting.Sort(values, ByLine), values);
    ValuesAreHeld(landmarks, byLine, order, values);
    SortedDistinctLines(values, order);
  }

  lemma ValuesAreHeld(landmarks: seq<Landmark>, byLine: map<nat, Landmark>, order: seq<nat>, values: seq<Landmark>)
    requires HoldsPerLine(landmarks, byLine, order) && |values| == |order|
    requires forall i :: 0 <= i < |order| ==> order[i] in byLine && values[i] == byLine[order[i]]
    ensures forall i :: 0 <= i < |order| ==> values[i].line == order[i]
    ensures forall b :: b in values ==> HeldOn(landmarks, b.line) == Some(b)
    ensures forall l :: l in landmarks ==> exists b :: b in values && b.line == l.line
  {
    forall i | 0 <= i < |order| ensures HeldOn(landmarks, order[i]) == Some(values[i]) && values[i].line == order[i] {
    }
    forall l | l in landmarks ensures exists b :: b in values && b.line == l.line {
      EveryLineIsHeld(landmarks, byLine, order, l);
      var i :| 0 <= i < |order| && order[i] == l.line;
      assert values[i] in values && values[i].line == l.line;
    }
  }

  lemma EveryLineIsHeld(landmarks: seq<Landmark>, byLine: map<nat, Landmark>, order: seq<nat>, l: Landmark)
    requires HoldsPerLine(landmarks, byLine, order) && l in landmarks
    ensures l.line in order
  {
    var k :| 0 <= k < |landmarks| && landmarks[k] == l;
    HeldIsMostInformative(landmarks, l.line, k);
  }

  lemma SortedDistinctLines(values: seq<Landmark>, order: seq<nat>)
    requires |values| == |order| && NoDuplicates(order)
    requires forall i :: 0 <= i < |order| ==> values[i].line == order[i]
    ensures Increasing(Sorting.Sort(values, ByLine))
  {
    hide Sorting.Sort;
    var best := Sorting.Sort(values, ByLine);
    Sorting.SortSorted(values, ByLine);
    DuplicateFree(values, best);
    Sorting.SameMembers(best, values);
    DistinctLines(values, order, best);
  }

  lemma DistinctLines(values: seq<Landmark>, order: seq<nat>, best: seq<Landmark>)
    requires |values| == |order| && NoDuplicates(order) && NoDuplicates(best)
    requires forall i :: 0 <= i < |order| ==> values[i].line == order[i]
    requires forall b :: b in best ==> b in values
    requires Sorting.Sorted(best, ByLine)
    ensures Increasing(best)
  {
    forall i, j | 0 <= i < j < |best| ensures best[i].line < best[j].line {
      assert ByLine(best[i], best[j]) && best[i] != best[j];
      assert best[i] in best && best[j] in best;
      var p :| 0 <= p < |values| && values[p] == best[i];
      var q :| 0 <= q < |values| && values[q] == best[j];
      assert order[p] != order[q];
    }
  }

  /** `i` is the first landmark of the highest rank among those on its line, and `held` speaks with its voice. */
  ghost predicate SpeaksFor(landmarks: seq<Landmark>, i: nat, held: Landmark) {
    && i < |landmarks| && landmarks[i].line == held.line
    && landmarks[i].title == held.title && landmarks[i].kind == held.kind
    && forall j :: 0 <= j < i && landmarks[j].line == held.line ==> KindRank(landmarks[j].kind) < KindRank(held.kind)
  }

  /** The landmark that speaks for a line is the first of the most informative kind on it. */
  lemma {:induction false} HeldIsMostInformative(landmarks: seq<Landmark>, line: nat, k: nat)
    requires k < |landmarks| && landmarks[k].line == line
    ensures HeldOn(landmarks, line).Some?
    ensures KindRank(landmarks[k].kind) <= KindRank(HeldOn(landmarks, line).value.kind)
    ensures exists i: nat :: SpeaksFor(landmarks, i, HeldOn(landmarks, line).value)
    decreases |landmarks|
  {
    var init, last := landmarks[..|landmarks| - 1], landmarks[|landmarks| - 1];
    var before := HeldOn(init, line);
    forall j | 0 <= j < |init| && init[j].line == line
      ensures before.Some? && KindRank(init[j].kind) <= KindRank(before.value.kind)
      ensures exists i: nat :: SpeaksFor(init, i, before.value)
    {
      HeldIsMostInformative(init, line, j);
    }
    if before.None? {
      assert last.line == line;
      assert SpeaksFor(landmarks, |init|, HeldOn(landmarks, line).value);
    } else {
      HeldCameFromSomewhere(init, line);
      if last.line == line && Displaces(last, before) {
        assert SpeaksFor(landmarks, |init|, HeldOn(landmarks, line).value);
      } else {
        var i: nat :| SpeaksFor(init, i, before.value);
        assert SpeaksFor(landmarks, i, before.value);
      }
    }
  }

  lemma {:induction false} HeldCameFromSomewhere(landmarks: seq<Landmark>, line: nat)
    requires HeldOn(landmarks, line).Some?
    ensures exists j :: 0 <= j < |landmarks| && landmarks[j].line == line
  {
    var init, last := landmarks[..|landmarks| - 1], landmarks[|landmarks| - 1];
    if last.line == line {
      assert landmarks[|init|].line == line;
    } else {
      HeldCameFromSomewhere(init, line);
      var j :| 0 <= j < |init| && init[j].line == line;
      assert landmarks[j].line == line;
    }
  }

  // ----- The landmark of a line, exactly -----

  /** Headings tell most, then scripts and styles, then sectioning elements, then bare ids. */
  ghost predicate TellsMore(a: Kind, b: Kind) {
    match a
    case Heading => b != Heading
    case Script => b == Sectioning || b == Identified
    case Style => b == Sectioning || b == Identified
    case Sectioning => b == Identified
    case Identified => false
  }

  lemma TellsMoreIsRank(a: Kind, b: Kind)
    ensures TellsMore(a, b) <==> KindRank(a) > KindRank(b)
  {
  }

  /** The landmark at `i` tells more than every earlier one on its line. */
  ghost predicate Leads(landmarks: seq<Landmark>, i: nat) {
    i < |landmarks| && forall j :: 0 <= j < i && landmarks[j].line == landmarks[i].line ==>
      TellsMore(landmarks[i].kind, landmarks[j].kind)
  }

  ghost predicate LeadsOn(landmarks: seq<Landmark>, i: nat, line: nat) {
    Leads(landmarks, i) && landmarks[i].line == line
  }

  /** The last landmark of the line to lead. */
  ghost predicate LastLeader(landmarks: seq<Landmark>, i: nat, line: nat) {
    LeadsOn(landmarks, i, line) && forall k :: i < k < |landmarks| ==> !LeadsOn(landmarks, k, line)
  }

  /** The id of the last leader that has one. */
  ghost predicate LeadingId(landmarks: seq<Landmark>, line: nat, id: Option<string>) {
    if id.None? then forall k: nat :: LeadsOn(landmarks, k, line) ==> landmarks[k].elementId.None?
    else exists j: nat :: LeadsOn(landmarks, j, line) && landmarks[j].elementId == id
                     && forall k :: j < k < |landmarks| && LeadsOn(landmarks, k, line) ==> landmarks[k].elementId.None?
  }

  ghost predicate SpeaksForLine(landmarks: seq<Landmark>, line: nat, held: Landmark) {
    && held.line == line && LeadingId(landmarks, line, held.elementId)
    && exists i: nat :: LastLeader(landmarks, i, line)
         && held.kind == landmarks[i].kind && held.level == landmarks[i].level && held.title == landmarks[i].title
  }

  lemma LeadsInPrefix(landmarks: seq<Landmark>, last: Landmark, i: nat, line: nat)
    requires i < |landmarks|
    ensures LeadsOn(landmarks + [last], i, line) <==> LeadsOn(landmarks, i, line)
  {
    var all := landmarks + [last];
    assert forall j :: 0 <= j <= i ==> all[j] == landmarks[j];
  }

  /** No landmark of the line speaks, or the last leader speaks for it, with the id of the last leader that has one. */
  lemma {:induction false} HeldExactly(landmarks: seq<Landmark>, line: nat)
    ensures HeldOn(landmarks, line).None? <==> forall i :: 0 <= i < |landmarks| ==> landmarks[i].line != line
    ensures HeldOn(landmarks, line).Some? ==> SpeaksForLine(landmarks, line, HeldOn(landmarks, line).value)
  {
    if landmarks != [] {
      var n := |landmarks| - 1;
      var init, last := landmarks[..n], landmarks[n];
      HeldExactly(init, line);
      assert landmarks == init + [last];
      HeldSnoc(init, last, line);
      forall i: nat | i < n ensures LeadsOn(landmarks, i, line) <==> LeadsOn(init, i, line) {
        LeadsInPrefix(init, last, i, line);
      }
      LastLeads(init, last, line, HeldOn(init, line));
      hide HeldOn;
      HeldNext(init, last, line, HeldOn(init, line));
    }
  }

  /** The last landmark leads exactly when it displaces what is held. */
  lemma LastLeads(init: seq<Landmark>, last: Landmark, line: nat, held: Option<Landmark>)
    requires held.None? <==> forall i :: 0 <= i < |init| ==> init[i].line != line
    requires held == HeldOn(init, line)
    ensures LeadsOn(init + [last], |init|, line) <==> last.line == line && Displaces(last, held)
  {
    var all := init + [last];
    assert forall j :: 0 <= j < |init| ==> all[j] == init[j];
    if last.line == line && held.Some? {
      forall j | 0 <= j < |init| && init[j].line == line
        ensures KindRank(init[j].kind) <= KindRank(held.value.kind)
        ensures exists i: nat :: SpeaksFor(init, i, held.value)
      {
        HeldIsMostInformative(init, line, j);
      }
      hide HeldOn;
      HeldCameFromSomewhere(init, line);
      forall a, b ensures TellsMore(a, b) <==> KindRank(a) > KindRank(b) {
        TellsMoreIsRank(a, b);
      }
      var i: nat :| SpeaksFor(init, i, held.value);
      assert init[i].line == line && init[i].kind == held.value.kind;
      hide KindRank;
    }
  }

  lemma HeldNext(init: seq<Landmark>, last: Landmark, line: nat, held: Option<Landmark>)
    requires held.None? <==> forall i :: 0 <= i < |init| ==> init[i].line != line
    requires held.Some? ==> SpeaksForLine(init, line, held.value)
    requires forall i: nat :: i < |init| ==> (LeadsOn(init + [last], i, line) <==> LeadsOn(init, i, line))
    requires LeadsOn(init + [last], |init|, line) <==> last.line == line && Displaces(last, held)
    ensures last.line == line && Displaces(last, held) ==> SpeaksForLine(init + [last], line, Winner(last, held))
    ensures !(last.line == line && Displaces(last, held)) && held.Some? ==> SpeaksForLine(init + [last], line, held.value)
  {
    var all := init + [last];
    assert forall j :: 0 <= j < |init| ==> all[j] == init[j];
    hide Displaces;
    if last.line == line && Displaces(last, held) {
      assert LastLeader(all, |init|, line);
      if last.elementId.Some? {
        assert LeadingId(all, line, last.elementId);
      } else if held.Some? {
        LeadingIdStays(init, last, line, held.value.elementId);
      } else {
        forall k: nat | LeadsOn(all, k, line) ensures k == |init| {
        }
      }
    } else if held.Some? {
      var i: nat :| LastLeader(init, i, line)
               && held.value.kind == init[i].kind && held.value.level == init[i].level && held.value.title == init[i].title;
      assert LastLeader(all, i, line);
      LeadingIdStays(init, last, line, held.value.elementId);
    }
  }

  lemma LeadingIdStays(init: seq<Landmark>, last: Landmark, line: nat, id: Option<string>)
    requires LeadingId(init, line, id)
    requires forall i: nat :: i < |init| ==> (LeadsOn(init + [last], i, line) <==> LeadsOn(init, i, line))
    requires last.elementId.None? || !LeadsOn(init + [last], |init|, line)
    ensures LeadingId(init + [last], line, id)
  {
    var all := init + [last];
    assert forall j :: 0 <= j < |init| ==> all[j] == init[j];
    if id.Some? {
      var j: nat :| LeadsOn(init, j, line) && init[j].elementId == id
               && forall k :: j < k < |init| && LeadsOn(init, k, line) ==> init[k].elementId.None?;
      assert LeadsOn(all, j, line);
    }
  }
}
