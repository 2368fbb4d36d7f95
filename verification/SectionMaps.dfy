/**
 * The section loops: `buildHtmlSkeleton` (packages/sidecar/src/html.ts) and `buildStructureMap`
 * (packages/sidecar/src/docs.ts), and what their ranges cover.
 */
module SectionMaps {
  import opened Common
  import opened Strings
  import opened Sections

  // ----- HTML pages -----

  /** One section per landmark, up to the line before the next, after an optional preamble. */
  method HtmlSections(source: string, landmarks: seq<Landmark>) returns (ranges: seq<Range>)
    requires Increasing(landmarks)
    requires forall l :: l in landmarks ==> 1 <= l.line <= |Split(source)|
    ensures landmarks == [] ==> ranges == []
    ensures landmarks != [] ==> Tiles(ranges, 1, |Split(source)|)
    ensures landmarks != [] ==> |ranges| == |landmarks| + (if landmarks[0].line > 1 then 1 else 0)
    ensures forall i :: 0 <= i < |landmarks| ==> ranges[|ranges| - |landmarks| + i].startLine == landmarks[i].line
  {
    var total := |Split(source)|;
    ranges := [];
    if landmarks == [] {
      return;
    }
    assert landmarks[0] in landmarks;
    if landmarks[0].line > 1 {
      ranges := [Range(1, landmarks[0].line - 1)];
    }
    var preamble := |ranges|;
    for i := 0 to |landmarks|
      invariant |ranges| == preamble + i
      invariant i > 0 ==> Tiles(ranges, 1, if i < |landmarks| then landmarks[i].line - 1 else total)
      invariant i == 0 && preamble == 1 ==> Tiles(ranges, 1, landmarks[0].line - 1)
      invariant forall j :: 0 <= j < i ==> ranges[preamble + j].startLine == landmarks[j].line
    {
      assert landmarks[i] in landmarks;
      if i + 1 < |landmarks| {
        assert landmarks[i + 1] in landmarks;
      }
      var end := (if i + 1 < |landmarks| then landmarks[i + 1].line else total + 1) - 1;
      ranges := ranges + [Range(landmarks[i].line, end)];
    }
  }

  /** Joining the section texts of a page with newlines gives the page back byte for byte, CRLF included. */
  lemma HtmlSectionsRebuildTheSource(source: string, ranges: seq<Range>)
    requires Tiles(ranges, 1, |Split(source)|)
    ensures Join(SectionTexts(source, ranges)) == source
  {
    TilesRebuild(source, ranges, 1, |Split(source)|);
    assert Split(source)[0..|Split(source)|] == Split(source);
    JoinSplit(source);
  }

  /** End to end, from the collected landmarks of a page to its section texts. */
  method HtmlSkeleton(source: string, collected: seq<Landmark>) returns (ranges: seq<Range>, landmarks: seq<Landmark>)
    requires forall l :: l in collected ==> 1 <= l.line <= |Split(source)|
    ensures IsBestPerLine(collected, landmarks)
    ensures collected == [] <==> ranges == []
    ensures collected != [] ==> Join(SectionTexts(source, ranges)) == source
    ensures forall i :: 0 <= i < |landmarks| ==>
      |landmarks| <= |ranges| && ranges[|ranges| - |landmarks| + i].startLine == landmarks[i].line
  {
    landmarks := BestPerLine(collected);
    forall l | l in landmarks ensures 1 <= l.line <= |Split(source)| {
      HeldIsCollected(collected, l.line);
    }
    assert collected != [] ==> collected[0] in collected;
    assert landmarks != [] ==> landmarks[0] in landmarks;
    ranges := HtmlSections(source, landmarks);
    if landmarks != [] {
      HtmlSectionsRebuildTheSource(source, ranges);
    }
  }

  lemma HeldIsCollected(collected: seq<Landmark>, line: nat)
    requires HeldOn(collected, line).Some?
    ensures exists l :: l in collected && l.line == line
  {
    HeldCameFromSomewhere(collected, line);
    var j :| 0 <= j < |collected| && collected[j].line == line;
    assert collected[j] in collected;
  }

  // ----- Prose documents -----

  datatype DocHeading = DocHeading(line: nat, level: nat, title: string)

  predicate Blank(line: string) {
    Trim(line) == ""
  }

  predicate BlankAt(lines: seq<string>, line: nat)
    requires 1 <= line <= |lines|
  {
    Blank(lines[line - 1])
  }

  ghost predicate HeadingsInOrder(headings: seq<DocHeading>, total: nat) {
    && (forall i :: 0 <= i < |headings| ==> 1 <= headings[i].line <= total)
    && (forall i, j :: 0 <= i < j < |headings| ==> headings[i].line < headings[j].line)
  }

  /** One heading at most per line, as the detector finds them. */
  function DetectHeadings(lines: seq<string>, classify: string -> Option<(nat, string)>): seq<DocHeading> {
    if lines == [] then []
    else
      var n := |lines| - 1;
      var found := if Blank(lines[n]) then None else classify(lines[n]);
      DetectHeadings(lines[..n], classify)
      + (if found.Some? then [DocHeading(n + 1, found.value.0, found.value.1)] else [])
  }

  /** The headings are exactly the lines with ink that classify as one, in order. */
  lemma {:induction false} DetectedHeadingsAreInOrder(lines: seq<string>, classify: string -> Option<(nat, string)>)
    ensures HeadingsInOrder(DetectHeadings(lines, classify), |lines|)
    ensures forall h :: h in DetectHeadings(lines, classify) <==> IsHeading(lines, classify, h)
  {
    if lines != [] {
      var n := |lines| - 1;
      DetectedHeadingsAreInOrder(lines[..n], classify);
      BlankTrims(lines[n]);
      var found := if Blank(lines[n]) then None else classify(lines[n]);
      assert Blank(lines[n]) <==> AllSpace(lines[n]);
      hide Trim;
      hide AllSpace;
      hide Blank;
      OneMoreHeading(lines, classify, DetectHeadings(lines[..n], classify), found);
    }
  }

  ghost predicate IsHeading(lines: seq<string>, classify: string -> Option<(nat, string)>, h: DocHeading) {
    1 <= h.line <= |lines| && !AllSpace(lines[h.line - 1]) && classify(lines[h.line - 1]) == Some((h.level, h.title))
  }

  lemma OneMoreHeading(
    lines: seq<string>, classify: string -> Option<(nat, string)>, before: seq<DocHeading>, found: Option<(nat, string)>)
    requires lines != [] && HeadingsInOrder(before, |lines| - 1)
    requires forall h :: h in before <==> IsHeading(lines[..|lines| - 1], classify, h)
    requires found == if AllSpace(lines[|lines| - 1]) then None else classify(lines[|lines| - 1])
    ensures var after := before + (if found.Some? then [DocHeading(|lines|, found.value.0, found.value.1)] else []);
      HeadingsInOrder(after, |lines|) && forall h :: h in after <==> IsHeading(lines, classify, h)
  {
    hide AllSpace;
    var n := |lines| - 1;
    var after := before + (if found.Some? then [DocHeading(n + 1, found.value.0, found.value.1)] else []);
    forall h ensures h in after <==> IsHeading(lines, classify, h) {
      if h.line != n + 1 {
        assert IsHeading(lines, classify, h) <==> IsHeading(lines[..n], classify, h);
      } else {
        assert h !in before;
      }
    }
  }

  /** Ordered, disjoint, within the text. */
  ghost predicate OrderedSections(ranges: seq<Range>, total: nat) {
    && (forall i :: 0 <= i < |ranges| ==> 1 <= ranges[i].startLine <= ranges[i].endLine <= total)
    && (forall i, j :: 0 <= i < j < |ranges| ==> ranges[i].endLine < ranges[j].startLine)
  }

  ghost predicate Within(r: Range, line: nat) {
    r.startLine <= line <= r.endLine
  }

  /** Every non-blank line from 1 to `upTo` lies in some section. */
  ghost predicate CoversText(ranges: seq<Range>, lines: seq<string>, upTo: nat)
    requires upTo <= |lines|
  {
    forall line :: 1 <= line <= upTo && !BlankAt(lines, line) ==>
      exists k :: 0 <= k < |ranges| && Within(ranges[k], line)
  }

  /** Cuts trailing blank lines off a bound, never past its first line. */
  method TrimBound(lines: seq<string>, bound: Range) returns (end: nat)
    requires 1 <= bound.startLine <= bound.endLine <= |lines|
    ensures bound.startLine <= end <= bound.endLine
    ensures forall line :: end < line <= bound.endLine ==> BlankAt(lines, line)
    ensures end == bound.startLine || !BlankAt(lines, end)
  {
    end := bound.endLine;
    while end > bound.startLine && BlankAt(lines, end)
      invariant bound.startLine <= end <= bound.endLine
      invariant forall line :: end < line <= bound.endLine ==> BlankAt(lines, line)
    {
      end := end - 1;
    }
  }

  method DocBounds(lines: seq<string>, headings: seq<DocHeading>) returns (bounds: seq<Range>)
    requires HeadingsInOrder(headings, |lines|)
    ensures OrderedSections(bounds, |lines|) && CoversText(bounds, lines, |lines|)
    ensures |headings| <= |bounds| <= |headings| + 1
    ensures forall i :: 0 <= i < |headings| ==> bounds[|bounds| - |headings| + i].startLine == headings[i].line
  {
    var firstHeadingLine := if headings == [] then |lines| + 1 else headings[0].line;
    bounds := [];
    if exists l | l in lines[..firstHeadingLine - 1] :: !Blank(l) {
      bounds := [Range(1, firstHeadingLine - 1)];
    }
    PreambleCovers(lines, firstHeadingLine - 1, bounds);
    var preamble := |bounds|;
    for i := 0 to |headings|
      invariant |bounds| == preamble + i
      invariant OrderedSections(bounds, |lines|)
      invariant LineBefore(headings, i, |lines|) <= |lines|
      invariant CoversText(bounds, lines, LineBefore(headings, i, |lines|))
      invariant forall k :: 0 <= k < |bounds| ==> bounds[k].endLine <= LineBefore(headings, i, |lines|)
      invariant forall j :: 0 <= j < i ==> bounds[preamble + j].startLine == headings[j].line
    {
      var end := (if i + 1 < |headings| then headings[i + 1].line else |lines| + 1) - 1;
      OneMoreSection(bounds, lines, headings[i].line, end);
      bounds := bounds + [Range(headings[i].line, end)];
    }
  }

  /** The last line before heading `i`, or of the text when there is none. */
  function LineBefore(headings: seq<DocHeading>, i: nat, total: nat): nat
    requires HeadingsInOrder(headings, total)
  {
    (if i < |headings| then headings[i].line else total + 1) - 1
  }

  lemma PreambleCovers(lines: seq<string>, upTo: nat, bounds: seq<Range>)
    requires upTo <= |lines|
    requires bounds == [Range(1, upTo)] || (bounds == [] && forall l :: l in lines[..upTo] ==> Blank(l))
    ensures CoversText(bounds, lines, upTo)
  {
    forall line | 1 <= line <= upTo && !BlankAt(lines, line)
      ensures exists k :: 0 <= k < |bounds| && Within(bounds[k], line)
    {
      assert lines[line - 1] in lines[..upTo];
      assert Within(bounds[0], line);
    }
  }

  lemma OneMoreSection(bounds: seq<Range>, lines: seq<string>, start: nat, end: nat)
    requires 1 <= start <= end <= |lines|
    requires OrderedSections(bounds, |lines|) && CoversText(bounds, lines, start - 1)
    requires forall k :: 0 <= k < |bounds| ==> bounds[k].endLine <= start - 1
    ensures OrderedSections(bounds + [Range(start, end)], |lines|)
    ensures CoversText(bounds + [Range(start, end)], lines, end)
  {
    var after := bounds + [Range(start, end)];
    forall line | 1 <= line <= end && !BlankAt(lines, line)
      ensures exists k :: 0 <= k < |after| && Within(after[k], line)
    {
      if line < start {
        var k :| 0 <= k < |bounds| && Within(bounds[k], line);
        assert after[k] == bounds[k];
      } else {
        assert Within(after[|bounds|], line);
      }
    }
  }

  /** The section ranges of a document: bounds between headings, trailing blank lines cut. */
  method DocSections(lines: seq<string>, headings: seq<DocHeading>) returns (sections: seq<Range>)
    requires HeadingsInOrder(headings, |lines|)
    ensures OrderedSections(sections, |lines|) && CoversText(sections, lines, |lines|)
    ensures |headings| <= |sections| <= |headings| + 1
    ensures forall i :: 0 <= i < |headings| ==> sections[|sections| - |headings| + i].startLine == headings[i].line
  {
    var bounds := DocBounds(lines, headings);
    sections := [];
    for n := 0 to |bounds|
      invariant |sections| == n
      invariant forall k :: 0 <= k < n ==>
        sections[k].startLine == bounds[k].startLine && sections[k].startLine <= sections[k].endLine <= bounds[k].endLine
        && forall line :: sections[k].endLine < line <= bounds[k].endLine ==> BlankAt(lines, line)
    {
      var end := TrimBound(lines, bounds[n]);
      sections := sections + [Range(bounds[n].startLine, end)];
    }
    forall line | 1 <= line <= |lines| && !BlankAt(lines, line)
      ensures exists k :: 0 <= k < |sections| && Within(sections[k], line)
    {
      var k :| 0 <= k < |bounds| && Within(bounds[k], line);
      assert Within(sections[k], line);
    }
  }

  ghost predicate InExactlyOne(sections: seq<Range>, line: nat) {
    exists k :: 0 <= k < |sections| && Within(sections[k], line)
                && forall j :: 0 <= j < |sections| && j != k ==> !Within(sections[j], line)
  }

  /** Ordered covering sections hold every line with ink exactly once. */
  lemma EveryLineInExactlyOneSection(sections: seq<Range>, lines: seq<string>, line: nat)
    requires OrderedSections(sections, |lines|) && CoversText(sections, lines, |lines|)
    requires 1 <= line <= |lines| && !AllSpace(lines[line - 1])
    ensures InExactlyOne(sections, line)
  {
    BlankTrims(lines[line - 1]);
    assert !BlankAt(lines, line);
    var k :| 0 <= k < |sections| && Within(sections[k], line);
    forall j | 0 <= j < |sections| && j != k ensures !Within(sections[j], line) {
      if j < k {
        assert sections[j].endLine < sections[k].startLine;
      } else {
        assert sections[k].endLine < sections[j].startLine;
      }
    }
  }

  /** With detected headings nothing is assumed of the text. */
  method DetectedDocSections(lines: seq<string>, classify: string -> Option<(nat, string)>) returns (sections: seq<Range>)
    ensures OrderedSections(sections, |lines|) && CoversText(sections, lines, |lines|)
    ensures forall line :: 1 <= line <= |lines| && !AllSpace(lines[line - 1]) ==> InExactlyOne(sections, line)
    ensures forall h :: h in DetectHeadings(lines, classify) ==> exists k :: 0 <= k < |sections| && sections[k].startLine == h.line
  {
    var headings := DetectHeadings(lines, classify);
    DetectedHeadingsAreInOrder(lines, classify);
    sections := DocSections(lines, headings);
    forall line | 1 <= line <= |lines| && !AllSpace(lines[line - 1]) ensures InExactlyOne(sections, line) {
      EveryLineInExactlyOneSection(sections, lines, line);
    }
    hide InExactlyOne;
    hide AllSpace;
    forall h | h in headings ensures exists k :: 0 <= k < |sections| && sections[k].startLine == h.line {
      var i :| 0 <= i < |headings| && headings[i] == h;
      assert sections[|sections| - |headings| + i].startLine == h.line;
    }
  }
}
