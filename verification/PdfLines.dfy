/** Where the lines of a PDF text stream end, read off the operators (`pdfStreamLines`, packages/sidecar/src/docs.ts). */
module PdfLines {
  import opened Common
  import opened PdfPen
  import opened PdfText
  import opened Subsequences

  // ----- Where lines start -----

  /** Operator `n` starts a new line. */
  ghost predicate StartsLine(ops: seq<Op>, n: nat)
    requires n < |ops|
  {
    match ops[n]
    case NextLine => true
    case ShowOnNextLine(_) => true
    case MoveText(_, ty) => ty.Finite? && (ty.value > 0.6 || ty.value < -0.6)
    case TextMatrix(_, d, _, y) =>
      var pen := PenAfter(ops[..n]);
      pen.baseline.Some? && pen.baseline.value.Finite? && y.Finite? &&
      exists scale :: RescaledBy(d, pen.scale, scale)
        && (y.value - pen.baseline.value.value > 0.6 * scale || pen.baseline.value.value - y.value > 0.6 * scale)
    case _ => false
  }

  lemma StartsLineIsBreak(ops: seq<Op>, n: nat)
    requires n < |ops|
    ensures StartsLine(ops, n) <==> Breaks(PenAfter(ops[..n]), ops[n])
  {
    hide PenAfter;
    if ops[n].TextMatrix? {
      var scale := Rescale(PenAfter(ops[..n]).scale, ops[n].d);
      assert RescaledBy(ops[n].d, PenAfter(ops[..n]).scale, scale);
      assert forall other :: RescaledBy(ops[n].d, PenAfter(ops[..n]).scale, other) ==> other == scale;
    }
  }

  /** The shown text, cut before every operator that starts a line. */
  ghost function Segments(ops: seq<Op>): (r: seq<string>)
    ensures r != []
  {
    if ops == [] then [""]
    else
      var n := |ops| - 1;
      var before := Segments(ops[..n]);
      if StartsLine(ops, n) then before + [TextOf(ops[n])]
      else before[..|before| - 1] + [before[|before| - 1] + TextOf(ops[n])]
  }

  ghost function NonEmpty(lines: seq<string>): seq<string> {
    Filter(lines, line => line != "")
  }

  /** What is kept of every segment. */
  ghost function Kept(ops: seq<Op>): (r: seq<string>)
    ensures r != [] && r[|r| - 1] == TextAfter(ops).current
  {
    if ops == [] then [""]
    else
      var n := |ops| - 1;
      var before := Kept(ops[..n]);
      (if StartsLine(ops, n) then before else before[..|before| - 1]) + [TextAfter(ops).current]
  }

  /** One step works on the last line alone: it goes on, or it is put away and a new one begun. */
  lemma StepOnLastLine(t: Text, p: Pen, op: Op, segment: string)
    requires Subsequence(t.current, segment)
    ensures var after := StepText(t, p, op);
      if Breaks(p, op) then after.lines == t.lines + NonEmpty([t.current]) && Subsequence(after.current, TextOf(op))
      else after.lines == t.lines && Subsequence(after.current, segment + TextOf(op))
  {
    var flushed := if Breaks(p, op) then Flush(t) else t;
    var start := if Breaks(p, op) then "" else segment;
    assert flushed.lines == if Breaks(p, op) then t.lines + NonEmpty([t.current]) else t.lines;
    hide Breaks;
    if IsShow(op) {
      LineKeepsSubsequence(flushed, p, TextOf(op), start);
    } else {
      assert segment + TextOf(op) == segment;
    }
    assert "" + TextOf(op) == TextOf(op);
  }

  lemma LineKeepsSubsequence(t: Text, p: Pen, text: string, segment: string)
    requires Subsequence(t.current, segment)
    ensures var after := ShowText(t, p, text);
            after.lines == t.lines && Subsequence(after.current, segment + text)
  {
    var kept, from := ShowTextShape(t, p, text);
    hide ShowText;
    hide Subsequence;
    SubsequencePrefix(t.current, segment, kept);
    SubsequenceWiden(t.current[..kept], segment, text[..from]);
    SubsequenceAppend(t.current[..kept], segment + text[..from], text[from..]);
    assert segment + text[..from] + text[from..] == segment + text;
  }

  ghost predicate KeptOfEach(kept: seq<string>, segments: seq<string>) {
    |kept| == |segments| && forall i :: 0 <= i < |segments| ==> Subsequence(kept[i], segments[i])
  }

  lemma {:induction false} KeptFollowsSegments(ops: seq<Op>)
    ensures KeptOfEach(Kept(ops), Segments(ops))
    ensures TextAfter(ops).lines == NonEmpty(Kept(ops)[..|Kept(ops)| - 1])
  {
    if ops == [] {
      NothingKept();
    } else {
      var n := |ops| - 1;
      KeptFollowsSegments(ops[..n]);
      UnfoldSegments(ops);
      var t, op := TextAfter(ops[..n]), ops[n];
      var kept, segments := Kept(ops[..n]), Segments(ops[..n]);
      hide *;
      StepOnLastLine(t, PenAfter(ops[..n]), op, segments[|segments| - 1]);
      KeptNext(kept, segments, t, TextAfter(ops), TextOf(op), StartsLine(ops, n));
    }
  }

  lemma UnfoldSegments(ops: seq<Op>)
    requires ops != []
    ensures var n := |ops| - 1;
      var kept, segments := Kept(ops[..n]), Segments(ops[..n]);
      && (StartsLine(ops, n) <==> Breaks(PenAfter(ops[..n]), ops[n]))
      && TextAfter(ops) == StepText(TextAfter(ops[..n]), PenAfter(ops[..n]), ops[n])
      && Kept(ops) == (if StartsLine(ops, n) then kept else kept[..|kept| - 1]) + [TextAfter(ops).current]
      && Segments(ops) == if StartsLine(ops, n) then segments + [TextOf(ops[n])]
                          else segments[..|segments| - 1] + [segments[|segments| - 1] + TextOf(ops[n])]
  {
    StartsLineIsBreak(ops, |ops| - 1);
    hide StartsLine;
    hide Breaks;
    hide StepText;
  }

  /** One more operator: its line is put away and a new one begun, or the last line goes on. */
  lemma KeptNext(kept: seq<string>, segments: seq<string>, t: Text, after: Text, text: string, starts: bool)
    requires kept != [] && KeptOfEach(kept, segments)
    requires kept[|kept| - 1] == t.current && t.lines == NonEmpty(kept[..|kept| - 1])
    requires if starts then after.lines == t.lines + NonEmpty([t.current]) && Subsequence(after.current, text)
             else after.lines == t.lines && Subsequence(after.current, segments[|segments| - 1] + text)
    ensures var kept' := (if starts then kept else kept[..|kept| - 1]) + [after.current];
      var segments' := if starts then segments + [text]
                       else segments[..|segments| - 1] + [segments[|segments| - 1] + text];
      KeptOfEach(kept', segments') && after.lines == NonEmpty(kept'[..|kept'| - 1])
  {
    hide Subsequence;
    hide NonEmpty;
    if starts {
      assert kept == kept[..|kept| - 1] + [t.current];
      NonEmptyAppend(kept[..|kept| - 1], [t.current]);
      assert (kept + [after.current])[..|kept|] == kept;
    } else {
      assert (kept[..|kept| - 1] + [after.current])[..|kept| - 1] == kept[..|kept| - 1];
    }
  }

  lemma NothingKept()
    ensures NonEmpty([]) == [] && Subsequence("", "")
  {
  }

  lemma NonEmptyAppend(a: seq<string>, b: seq<string>)
    ensures NonEmpty(a + b) == NonEmpty(a) + NonEmpty(b)
  {
    FilterAppend(a, b, line => line != "");
  }

  lemma SomethingKeptSomethingSeen(t: Text)
    requires forall line :: line in t.lines ==> line != ""
    ensures t.lines != [] || t.current != "" ==> Output(t) != ""
  {
    if t.lines != [] {
      assert t.lines[0] in t.lines;
      assert Flatten(t.lines) == t.lines[0] + Flatten(t.lines[1..]);
    }
  }

  lemma LinesAreKept(ops: seq<Op>)
    ensures Lines(ops) == NonEmpty(Kept(ops))
  {
    KeptFollowsSegments(ops);
    OutputIsSubsequence(ops);
    hide TextAfter;
    hide Kept;
    hide Output;
    hide NonEmpty;
    var kept, t := Kept(ops), TextAfter(ops);
    assert kept == kept[..|kept| - 1] + [t.current];
    NonEmptyAppend(kept[..|kept| - 1], [t.current]);
    NonEmptyOnly(kept[..|kept| - 1], t.current);
    SomethingKeptSomethingSeen(t);
  }

  lemma NonEmptyOnly(lines: seq<string>, line: string)
    ensures forall l :: l in NonEmpty(lines) ==> l != ""
    ensures NonEmpty([line]) == if line == "" then [] else [line]
  {
  }

  /**
   * For every stream: each line of the output is what is kept of one segment of the shown text, the
   * segments being cut exactly where an operator starts a line. No line runs over a cut.
   */
  lemma LinesFollowTheSegments(ops: seq<Op>)
    ensures exists kept :: KeptOfEach(kept, Segments(ops)) && Lines(ops) == NonEmpty(kept)
  {
    KeptFollowsSegments(ops);
    LinesAreKept(ops);
  }

  // ----- When nothing is lost -----

  lemma {:induction false} LastSegment(ops: seq<Op>)
    ensures LineText(ops) == Segments(ops)[|Segments(ops)| - 1]
  {
    hide StartsLine;
    hide Breaks;
    if ops != [] {
      var n := |ops| - 1;
      LastSegment(ops[..n]);
      StartsLineIsBreak(ops, n);
      assert "" + TextOf(ops[n]) == TextOf(ops[n]);
    }
  }

  lemma LossPersists(ops: seq<Op>)
    requires ops != [] && HasLoss(PlacedShows(ops[..|ops| - 1]))
    ensures HasLoss(PlacedShows(ops))
  {
    var init, op := ops[..|ops| - 1], ops[|ops| - 1];
    assert PlacedShows(ops) == PlacedShows(init) + Placed(PenAfter(init), op, LineBefore(LineText(init), PenAfter(init), op));
    hide Placed;
    hide PlacedShows;
    LossInFront(PlacedShows(init), Placed(PenAfter(init), op, LineBefore(LineText(init), PenAfter(init), op)));
  }

  lemma LossInFront(a: seq<PlacedShow>, b: seq<PlacedShow>)
    requires HasLoss(a)
    ensures HasLoss(a + b)
  {
    hide LosesText;
    var k :| 0 <= k < |a| - 1 && LosesText(a[k], a[k + 1]);
    assert LosesText((a + b)[k], (a + b)[k + 1]);
  }

  lemma {:induction false} NothingLostInAnySegment(ops: seq<Op>)
    requires !HasLoss(PlacedShows(ops))
    ensures Kept(ops) == Segments(ops)
  {
    hide StartsLine;
    hide TextAfter;
    hide PlacedShows;
    hide LineText;
    if ops != [] {
      var n := |ops| - 1;
      if HasLoss(PlacedShows(ops[..n])) {
        LossPersists(ops);
      }
      NothingLostInAnySegment(ops[..n]);
      LosslessInvariant(ops);
      LastSegment(ops);
      assert Kept(ops)[|Kept(ops)| - 1] == Segments(ops)[|Segments(ops)| - 1];
    }
  }

  lemma {:induction false} FlattenNonEmpty(lines: seq<string>)
    ensures Flatten(NonEmpty(lines)) == Flatten(lines)
  {
    if lines != [] {
      FlattenNonEmpty(lines[1..]);
    }
  }

  lemma {:induction false} SegmentsCarryTheText(ops: seq<Op>)
    ensures Flatten(Segments(ops)) == ShownText(ops)
  {
    hide StartsLine;
    hide Flatten;
    if ops == [] {
      FlattenOne("");
    } else {
      var n := |ops| - 1;
      SegmentsCarryTheText(ops[..n]);
      var before := Segments(ops[..n]);
      assert before == before[..|before| - 1] + [before[|before| - 1]];
      FlattenNext(before[..|before| - 1], before[|before| - 1], TextOf(ops[n]));
    }
  }

  lemma FlattenNext(front: seq<string>, last: string, text: string)
    ensures Flatten(front + [last] + [text]) == Flatten(front + [last]) + text
    ensures Flatten(front + [last + text]) == Flatten(front + [last]) + text
  {
    hide Flatten;
    FlattenSnoc(front + [last], text);
    FlattenSnoc(front, last);
    FlattenSnoc(front, last + text);
    Associates(Flatten(front), last, text);
  }

  lemma Associates(a: string, b: string, c: string)
    ensures a + (b + c) == a + b + c
  {
  }

  lemma FlattenSnoc(lines: seq<string>, line: string)
    ensures Flatten(lines + [line]) == Flatten(lines) + line
  {
    FlattenAppend(lines, [line]);
    FlattenOne(line);
  }

  lemma FlattenOne(s: string)
    ensures Flatten([s]) == s
  {
    assert [s][1..] == [];
  }

  /**
   * For every stream: the lines are exactly the non-empty segments of the shown text if and only if
   * no placed show loses text to the one before it.
   */
  lemma LinesAreTheSegmentsExactly(ops: seq<Op>)
    ensures Lines(ops) == NonEmpty(Segments(ops)) <==> !HasLoss(PlacedShows(ops))
  {
    LinesAreKept(ops);
    LosslessExactly(ops);
    SegmentsCarryTheText(ops);
    FlattenNonEmpty(Segments(ops));
    if !HasLoss(PlacedShows(ops)) {
      NothingLostInAnySegment(ops);
    }
  }
}
