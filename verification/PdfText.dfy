/**
 * The PDF text-stream interpreter (`pdfStreamLines`, packages/sidecar/src/docs.ts).
 *
 * Operators are those of section 9.4 of ISO 32000-1 that the source's tokenizer recognises, with
 * show strings already decoded by their font. Numbers the tokenizer accepts but JavaScript cannot
 * parse ("1.2.3") are NaN.
 */
module PdfText {
  import opened Common
  import opened Strings
  import opened Subsequences

  datatype Num = NaN | Finite(value: real)

  datatype Op =
    | Show(text: string)
    | ShowOnNextLine(text: string)
    | TextMatrix(a: Num, d: Num, x: Num, y: Num)
    | MoveText(tx: Num, ty: Num)
    | NextLine
    | SaveState
    | RestoreState
    | ClipPath

  const REPAINT_EPSILON := 0.5

  // ----- Strings -----

  /** `s.slice(0, s.length - n)`: a negative end counts back from the end of the string. */
  function SliceBack(s: string, n: nat): (r: string)
    ensures |r| <= |s| && r == s[..|r|]
  {
    if n <= |s| then s[..|s| - n]
    else if n <= 2 * |s| then s[..2 * |s| - n]
    else ""
  }

  // ----- Numbers -----

  function Abs(x: real): real {
    if x < 0.0 then -x else x
  }

  function Plus(a: Num, b: Num): Num {
    if a.NaN? || b.NaN? then NaN else Finite(a.value + b.value)
  }

  function Times(a: Num, b: real): Num {
    if a.NaN? then NaN else Finite(a.value * b)
  }

  function Advanced(x: real, tx: real, xScale: real): real {
    x + tx * xScale
  }

  /** JavaScript's `===` on an optional number. */
  predicate SameY(a: Option<Num>, b: Option<Num>) {
    (a.None? && b.None?) || (a.Some? && b.Some? && a.value.Finite? && a.value == b.value)
  }

  // ----- The pen: everything that does not depend on the text shown -----

  datatype Pen = Pen(
    baseline: Option<Num>,
    scale: real,
    x: Option<real>,
    xScale: real,
    placed: bool,
    clips: seq<bool>
  )

  const PEN0 := Pen(None, 12.0, None, 12.0, false, [])

  predicate InClip(p: Pen) {
    true in p.clips
  }

  function Rescale(scale: real, n: Num): real {
    if n.Finite? && n.value != 0.0 then Abs(n.value) else scale
  }

  function MovePen(p: Pen, op: Op): Pen {
    match op
    case Show(_) => p.(placed := false)
    case ShowOnNextLine(_) => p.(placed := false)
    case TextMatrix(a, d, x, y) =>
      p.(baseline := Some(y), scale := Rescale(p.scale, d), xScale := Rescale(p.xScale, a),
         x := if x.Finite? then Some(x.value) else None, placed := true)
    case MoveText(tx, ty) =>
      p.(baseline := if p.baseline.Some? then Some(Plus(p.baseline.value, Times(ty, p.scale))) else None,
         x := if p.x.Some? && tx.Finite? then Some(Advanced(p.x.value, tx.value, p.xScale)) else p.x, placed := true)
    case NextLine => p.(x := None, placed := false)
    case SaveState => p.(clips := p.clips + [false])
    case RestoreState => p.(clips := if p.clips == [] then [] else p.clips[..|p.clips| - 1])
    case ClipPath => p.(clips := if p.clips == [] then [] else p.clips[|p.clips| - 1 := true])
  }

  /** Whether the operator ends the current line before anything else. */
  predicate Breaks(p: Pen, op: Op) {
    match op
    case ShowOnNextLine(_) => true
    case TextMatrix(_, d, _, y) =>
      p.baseline.Some? && p.baseline.value.Finite? && y.Finite?
      && Abs(y.value - p.baseline.value.value) > 0.6 * Rescale(p.scale, d)
    case MoveText(_, ty) => ty.Finite? && Abs(ty.value) > 0.6
    case NextLine => true
    case _ => false
  }

  // ----- The text being assembled -----

  datatype Shown = Shown(x: real, y: Option<Num>, text: string)

  datatype Text = Text(
    lines: seq<string>,
    current: string,
    sawText: bool,
    lastShow: Option<Shown>,
    lastShowClipped: bool
  )

  const TEXT0 := Text([], "", false, None, false)

  function Flush(t: Text): Text {
    t.(lines := if t.current != "" then t.lines + [t.current] else t.lines, current := "")
  }

  predicate SameInk(a: string, b: string) {
    Trim(a) != "" && Trim(a) == Trim(b)
  }

  predicate Near(a: real, b: real) {
    Abs(a - b) <= REPAINT_EPSILON
  }

  /** The second show only repaints the ink of the first. */
  predicate Repaints(a: Shown, b: Shown) {
    SameY(a.y, b.y) && SameInk(a.text, b.text) && Near(b.x, a.x)
  }

  /** A clipped glyph repeating the last character of the run that just painted it. */
  predicate RepaintsLastGlyph(clipped: bool, scale: real, a: Shown, b: Shown) {
    && SameY(a.y, b.y) && clipped && |b.text| == 1 && EndsWith(a.text, b.text)
    && a.x < b.x < a.x + |a.text| as real * scale
  }

  /** A run that repaints the clipped glyph drawn just before it. */
  predicate RepaintsFirstGlyph(lastClipped: bool, a: Shown, b: Shown) {
    SameY(a.y, b.y) && lastClipped && |Trim(a.text)| == 1 && Near(b.x, a.x) && StartsWith(b.text, a.text)
  }

  function Append(t: Text, text: string): Text {
    t.(current := t.current + text, sawText := true)
  }

  /** One show string at the pen. */
  function ShowText(t: Text, p: Pen, text: string): Text {
    if !p.placed || p.x.None? then Append(t, text)
    else
      var b := Shown(p.x.value, p.baseline, text);
      if t.lastShow.Some? && Repaints(t.lastShow.value, b) then
        // Trailing whitespace the repaint adds still separates words.
        var extra := if StartsWith(text, t.lastShow.value.text) then text[|t.lastShow.value.text|..] else "";
        if extra != "" && Trim(extra) == ""
        then t.(current := t.current + extra, lastShow := Some(b))
        else t
      else if t.lastShow.Some? && RepaintsLastGlyph(InClip(p), p.scale, t.lastShow.value, b) then t
      else
        var kept := if t.lastShow.Some? && RepaintsFirstGlyph(t.lastShowClipped, t.lastShow.value, b)
                    then t.(current := SliceBack(t.current, |t.lastShow.value.text|)) else t;
        Append(kept.(lastShow := Some(b), lastShowClipped := InClip(p)), text)
  }

  function StepText(t: Text, p: Pen, op: Op): Text {
    var flushed := if Breaks(p, op) then Flush(t) else t;
    match op
    case Show(text) => ShowText(flushed, p, text)
    case ShowOnNextLine(text) => ShowText(flushed, p, text)
    case _ => flushed
  }

  function PenAfter(ops: seq<Op>): Pen {
    if ops == [] then PEN0 else MovePen(PenAfter(ops[..|ops| - 1]), ops[|ops| - 1])
  }

  function TextAfter(ops: seq<Op>): Text {
    if ops == [] then TEXT0
    else StepText(TextAfter(ops[..|ops| - 1]), PenAfter(ops[..|ops| - 1]), ops[|ops| - 1])
  }

  function Lines(ops: seq<Op>): seq<string> {
    var t := Flush(TextAfter(ops));
    if t.sawText then t.lines else []
  }

  // ----- The interpreter -----

  class TextInterpreter {
    var lines: seq<string>
    var current: string
    var sawText: bool
    var lastShow: Option<Shown>
    var lastShowClipped: bool
    var baselineY: Option<Num>
    var scale: real
    var penX: Option<real>
    var xScale: real
    var placed: bool
    var clips: seq<bool>

    function ThePen(): Pen
      reads this
    {
      Pen(baselineY, scale, penX, xScale, placed, clips)
    }

    function TheText(): Text
      reads this
    {
      Text(lines, current, sawText, lastShow, lastShowClipped)
    }

    constructor ()
      ensures ThePen() == PEN0 && TheText() == TEXT0
    {
      lines, current, sawText, lastShow, lastShowClipped := [], "", false, None, false;
      baselineY, scale, penX, xScale, placed, clips := None, 12.0, None, 12.0, false, [];
    }

    method FlushLine()
      modifies this`lines, this`current
      ensures TheText() == Flush(old(TheText()))
    {
      if current != "" {
        lines := lines + [current];
      }
      current := "";
    }

    method ShowString(text: string)
      modifies this`current, this`sawText, this`lastShow, this`lastShowClipped, this`placed
      ensures TheText() == ShowText(old(TheText()), old(ThePen()), text)
      ensures ThePen() == old(ThePen()).(placed := false)
    {
      hide Repaints;
      hide RepaintsLastGlyph;
      hide RepaintsFirstGlyph;
      hide Trim;
      var x := if placed then penX else None;
      placed := false;
      if x.Some? {
        var here := Shown(x.value, baselineY, text);
        if lastShow.Some? {
          var last := lastShow.value;
          if Repaints(last, here) {
            var extra := if StartsWith(text, last.text) then text[|last.text|..] else "";
            if extra != "" && Trim(extra) == "" {
              current := current + extra;
              lastShow := Some(here);
            }
            return;
          }
          if RepaintsLastGlyph(true in clips, scale, last, here) {
            return;
          }
          if RepaintsFirstGlyph(lastShowClipped, last, here) {
            current := SliceBack(current, |last.text|);
          }
        }
        lastShow := Some(here);
        lastShowClipped := true in clips;
      }
      current := current + text;
      sawText := true;
    }

    method Execute(op: Op)
      modifies this
      ensures TheText() == StepText(old(TheText()), old(ThePen()), op)
      ensures ThePen() == MovePen(old(ThePen()), op)
    {
      match op
      case Show(text) => ShowString(text);
      case ShowOnNextLine(text) =>
        FlushLine();
        ShowString(text);
      case TextMatrix(a, d, x, y) =>
        scale := Rescale(scale, d);
        xScale := Rescale(xScale, a);
        if baselineY.Some? && baselineY.value.Finite? && y.Finite?
           && Abs(y.value - baselineY.value.value) > 0.6 * scale {
          FlushLine();
        }
        baselineY := Some(y);
        penX := if x.Finite? then Some(x.value) else None;
        placed := true;
      case MoveText(tx, ty) =>
        if ty.Finite? && Abs(ty.value) > 0.6 {
          FlushLine();
        }
        if baselineY.Some? {
          baselineY := Some(Plus(baselineY.value, Times(ty, scale)));
        }
        if penX.Some? && tx.Finite? {
          penX := Some(Advanced(penX.value, tx.value, xScale));
        }
        placed := true;
      case NextLine =>
        FlushLine();
        penX := None;
        placed := false;
      case SaveState => clips := clips + [false];
      case RestoreState =>
        if clips != [] {
          clips := clips[..|clips| - 1];
        }
      case ClipPath =>
        if clips != [] {
          clips := clips[|clips| - 1 := true];
        }
    }
  }

  method PdfStreamLines(ops: seq<Op>) returns (out: seq<string>)
    ensures out == Lines(ops)
  {
    var interpreter := new TextInterpreter();
    for n := 0 to |ops|
      invariant fresh(interpreter)
      invariant interpreter.ThePen() == PenAfter(ops[..n])
      invariant interpreter.TheText() == TextAfter(ops[..n])
    {
      assert ops[..n + 1][..n] == ops[..n];
      interpreter.Execute(ops[n]);
    }
    assert ops[..|ops|] == ops;
    interpreter.FlushLine();
    out := if interpreter.sawText then interpreter.lines else [];
  }

  // ----- Nothing invented, nothing reordered -----

  function ShownText(ops: seq<Op>): string {
    if ops == [] then ""
    else
      ShownText(ops[..|ops| - 1]) + TextOf(ops[|ops| - 1])
  }

  function TextOf(op: Op): string {
    match op
    case Show(text) => text
    case ShowOnNextLine(text) => text
    case _ => ""
  }

  /** All text assembled so far. */
  function Output(t: Text): string {
    Flatten(t.lines) + t.current
  }

  lemma FlushKeepsOutput(t: Text)
    ensures Output(Flush(t)) == Output(t)
  {
    if t.current != "" {
      FlattenAppend(t.lines, [t.current]);
      assert Flatten([t.current]) == t.current + Flatten<char>([]) == t.current;
    }
  }

  /** What a show leaves on the line: a prefix of it, followed by a suffix of the text shown. */
  lemma ShowTextShape(t: Text, p: Pen, text: string) returns (kept: nat, from: nat)
    ensures kept <= |t.current| && from <= |text|
    ensures ShowText(t, p, text).lines == t.lines
    ensures ShowText(t, p, text).current == t.current[..kept] + text[from..]
  {
    var out := ShowText(t, p, text);
    kept, from := |t.current|, |text|;
    assert t.current[..|t.current|] == t.current && text[|text|..] == "" && text[0..] == text;
    if !p.placed || p.x.None? {
      from := 0;
    } else {
      var b := Shown(p.x.value, p.baseline, text);
      if t.lastShow.Some? && Repaints(t.lastShow.value, b) {
        if out.current != t.current {
          from := |t.lastShow.value.text|;
        }
      } else if t.lastShow.Some? && RepaintsLastGlyph(InClip(p), p.scale, t.lastShow.value, b) {
      } else {
        from := 0;
        if t.lastShow.Some? && RepaintsFirstGlyph(t.lastShowClipped, t.lastShow.value, b) {
          kept := |SliceBack(t.current, |t.lastShow.value.text|)|;
        }
      }
    }
  }

  lemma ShowKeepsSubsequence(t: Text, p: Pen, text: string, shown: string)
    requires Subsequence(Output(t), shown)
    ensures Subsequence(Output(ShowText(t, p, text)), shown + text)
  {
    var kept, from := ShowTextShape(t, p, text);
    hide ShowText;
    hide Subsequence;
    hide Flatten;
    var front := Flatten(t.lines) + t.current[..kept];
    assert front == Output(t)[..|front|];
    SubsequencePrefix(Output(t), shown, |front|);
    SubsequenceWiden(front, shown, text[..from]);
    SubsequenceAppend(front, shown + text[..from], text[from..]);
    assert shown + text[..from] + text[from..] == shown + text;
    assert Output(ShowText(t, p, text)) == front + text[from..];
  }

  lemma {:induction false} OutputIsSubsequence(ops: seq<Op>)
    ensures Subsequence(Output(TextAfter(ops)), ShownText(ops))
    ensures !TextAfter(ops).sawText ==> Output(TextAfter(ops)) == "" && TextAfter(ops).lastShow.None?
  {
    hide StepText;
    hide MovePen;
    hide Output;
    hide Subsequence;
    hide TextOf;
    if ops == [] {
      NothingShown();
    } else {
      var init, op := ops[..|ops| - 1], ops[|ops| - 1];
      OutputIsSubsequence(init);
      StepKeepsSubsequence(TextAfter(init), PenAfter(init), op, ShownText(init));
    }
  }

  lemma NothingShown()
    ensures Output(TEXT0) == "" && Subsequence(Output(TEXT0), "")
  {
  }

  lemma StepKeepsSubsequence(t: Text, p: Pen, op: Op, shown: string)
    requires Subsequence(Output(t), shown)
    requires !t.sawText ==> Output(t) == "" && t.lastShow.None?
    ensures var after := StepText(t, p, op);
      Subsequence(Output(after), shown + TextOf(op))
      && (!after.sawText ==> Output(after) == "" && after.lastShow.None?)
  {
    FlushKeepsOutput(t);
    var flushed := if Breaks(p, op) then Flush(t) else t;
    hide ShowText;
    hide Output;
    hide Subsequence;
    match op
    case Show(text) => ShowKeepsSubsequence(flushed, p, text, shown); ShowSeesText(flushed, p, text);
    case ShowOnNextLine(text) => ShowKeepsSubsequence(flushed, p, text, shown); ShowSeesText(flushed, p, text);
    case _ => assert shown + TextOf(op) == shown;
  }

  lemma ShowSeesText(t: Text, p: Pen, text: string)
    requires !t.sawText ==> t.lastShow.None?
    ensures ShowText(t, p, text).sawText
  {
  }

  lemma LinesAreOutput(ops: seq<Op>)
    ensures Flatten(Lines(ops)) == Output(TextAfter(ops))
  {
    OutputIsSubsequence(ops);
    FlushKeepsOutput(TextAfter(ops));
  }

  /** For every stream: the lines, joined, are a subsequence of the shown strings, joined. */
  lemma NothingInventedOrReordered(ops: seq<Op>)
    ensures Subsequence(Flatten(Lines(ops)), ShownText(ops))
  {
    OutputIsSubsequence(ops);
    LinesAreOutput(ops);
  }

  // ----- When nothing is lost -----

  predicate IsShow(op: Op) {
    op.Show? || op.ShowOnNextLine?
  }

  /** What is left of the line when `op` draws. */
  function LineBefore(line: string, p: Pen, op: Op): string {
    if Breaks(p, op) then "" else line
  }

  /** The text shown since the last operator that broke the line. */
  function LineText(ops: seq<Op>): string {
    if ops == [] then ""
    else
      var init, op := ops[..|ops| - 1], ops[|ops| - 1];
      LineBefore(LineText(init), PenAfter(init), op) + TextOf(op)
  }

  /** A show whose origin an operator placed: what it draws, in a clip region or not, and on a line with text or not. */
  datatype PlacedShow = PlacedShow(ink: Shown, clipped: bool, scale: real, onLine: bool)

  /** The placed shows of a stream, independent of what is kept of them. */
  function PlacedShows(ops: seq<Op>): seq<PlacedShow> {
    if ops == [] then []
    else
      var init, op := ops[..|ops| - 1], ops[|ops| - 1];
      PlacedShows(init) + Placed(PenAfter(init), op, LineBefore(LineText(init), PenAfter(init), op))
  }

  function Placed(p: Pen, op: Op, line: string): seq<PlacedShow> {
    if IsShow(op) && p.placed && p.x.Some?
    then [PlacedShow(Shown(p.x.value, p.baseline, TextOf(op)), InClip(p), p.scale, line != "")] else []
  }

  /**
   * Text is lost between two placed shows in a row: the second repaints the ink of the first, or in
   * a clip region its last glyph, or the first glyph drawn in one, still on the line.
   */
  ghost predicate LosesText(a: PlacedShow, b: PlacedShow) {
    || Repaints(a.ink, b.ink)
    || RepaintsLastGlyph(b.clipped, b.scale, a.ink, b.ink)
    || (RepaintsFirstGlyph(a.clipped, a.ink, b.ink) && b.onLine)
  }

  ghost predicate HasLoss(shows: seq<PlacedShow>) {
    exists k :: 0 <= k < |shows| - 1 && LosesText(shows[k], shows[k + 1])
  }

  /** The interpreter remembers the last placed show. */
  ghost predicate Remembers(t: Text, shows: seq<PlacedShow>) {
    if shows == [] then t.lastShow.None?
    else
      var last := shows[|shows| - 1];
      t.lastShow == Some(last.ink) && t.lastShowClipped == last.clipped
  }

  /** Once text is lost the output stays shorter; until then it is all there. */
  ghost predicate LosslessSoFar(t: Text, shows: seq<PlacedShow>, line: string, shown: string) {
    if HasLoss(shows) then |Output(t)| < |shown|
    else Output(t) == shown && t.current == line && Remembers(t, shows)
  }

  lemma LossAtEnd(shows: seq<PlacedShow>, b: PlacedShow)
    ensures HasLoss(shows + [b]) <==> HasLoss(shows) || (shows != [] && LosesText(shows[|shows| - 1], b))
  {
    hide LosesText;
    var all := shows + [b];
    if HasLoss(shows) {
      var k :| 0 <= k < |shows| - 1 && LosesText(shows[k], shows[k + 1]);
      assert LosesText(all[k], all[k + 1]);
    }
    if shows != [] && LosesText(shows[|shows| - 1], b) {
      assert LosesText(all[|shows| - 1], all[|shows|]);
    }
  }

  /** A show never adds more than its text. */
  lemma ShowAddsAtMostItsText(t: Text, p: Pen, text: string)
    ensures |Output(ShowText(t, p, text))| <= |Output(t)| + |text|
  {
    var kept, from := ShowTextShape(t, p, text);
    hide ShowText;
  }

  /** What is taken back off a line is nothing only when the line is empty. */
  lemma SliceBackShortens(s: string, n: nat)
    requires n > 0
    ensures |SliceBack(s, n)| < |s| <==> s != ""
    ensures s == "" ==> SliceBack(s, n) == ""
  {
  }

  /** A placed show after a remembered one: it loses text exactly in the three ways, and is remembered otherwise. */
  lemma PlacedShowLosesExactly(t: Text, p: Pen, text: string, a: PlacedShow, b: PlacedShow)
    requires p.placed && p.x.Some? && t.lastShow == Some(a.ink) && t.lastShowClipped == a.clipped
    requires b == PlacedShow(Shown(p.x.value, p.baseline, text), InClip(p), p.scale, t.current != "")
    ensures LosesText(a, b) ==> |ShowText(t, p, text).current| < |t.current| + |text|
    ensures !LosesText(a, b) ==>
      var out := ShowText(t, p, text);
      out.current == t.current + text && out.lastShow == Some(b.ink) && out.lastShowClipped == b.clipped
  {
    if Repaints(a.ink, b.ink) {
      RepaintHasInk(a.ink, b.ink);
      hide Repaints;
    } else if RepaintsLastGlyph(b.clipped, b.scale, a.ink, b.ink) {
      assert |text| == 1;
      hide Repaints;
      hide RepaintsLastGlyph;
    } else if RepaintsFirstGlyph(a.clipped, a.ink, b.ink) {
      assert |Trim(a.ink.text)| == 1 && a.ink.text != "";
      hide Repaints;
      hide RepaintsLastGlyph;
      hide RepaintsFirstGlyph;
      SliceBackShortens(t.current, |a.ink.text|);
      hide SliceBack;
    } else {
      hide Repaints;
      hide RepaintsLastGlyph;
      hide RepaintsFirstGlyph;
    }
  }

  lemma RepaintHasInk(a: Shown, b: Shown)
    requires Repaints(a, b)
    ensures a.text != "" && b.text != ""
  {
  }

  lemma ShowLosesExactly(t: Text, p: Pen, op: Op, shows: seq<PlacedShow>, line: string, shown: string)
    requires IsShow(op) && LosslessSoFar(t, shows, line, shown)
    ensures LosslessSoFar(ShowText(t, p, TextOf(op)), shows + Placed(p, op, line), line + TextOf(op), shown + TextOf(op))
  {
    var text := TextOf(op);
    var out := ShowText(t, p, text);
    ShowAddsAtMostItsText(t, p, text);
    OutputAfterShow(t, p, text);
    if p.placed && p.x.Some? {
      var b := PlacedShow(Shown(p.x.value, p.baseline, text), InClip(p), p.scale, line != "");
      assert Placed(p, op, line) == [b];
      LossAtEnd(shows, b);
      if !HasLoss(shows) && shows != [] {
        PlacedShowLosesExactly(t, p, text, shows[|shows| - 1], b);
        hide ShowText;
        hide LosesText;
      } else if !HasLoss(shows) {
        hide LosesText;
      } else {
        hide ShowText;
        hide LosesText;
      }
    } else {
      assert shows + Placed(p, op, line) == shows;
    }
  }

  /** A show works on the current line alone. */
  lemma OutputAfterShow(t: Text, p: Pen, text: string)
    ensures var out := ShowText(t, p, text);
      && |Output(out)| - |out.current| == |Output(t)| - |t.current|
      && (out.current == t.current + text ==> Output(out) == Output(t) + text)
  {
    var kept, from := ShowTextShape(t, p, text);
    hide ShowText;
    assert Flatten(t.lines) + (t.current + text) == Flatten(t.lines) + t.current + text;
  }

  lemma FlushIsLossless(t: Text, shows: seq<PlacedShow>, line: string, shown: string)
    requires LosslessSoFar(t, shows, line, shown)
    ensures LosslessSoFar(Flush(t), shows, "", shown)
  {
    FlushKeepsOutput(t);
    hide Output;
  }

  lemma LosslessStep(t: Text, p: Pen, op: Op, shows: seq<PlacedShow>, line: string, shown: string)
    requires LosslessSoFar(t, shows, line, shown)
    ensures var before := LineBefore(line, p, op);
            LosslessSoFar(StepText(t, p, op), shows + Placed(p, op, before), before + TextOf(op), shown + TextOf(op))
  {
    hide LosslessSoFar;
    FlushIsLossless(t, shows, line, shown);
    var before := LineBefore(line, p, op);
    var flushed := if Breaks(p, op) then Flush(t) else t;
    if IsShow(op) {
      ShowLosesExactly(flushed, p, op, shows, before, shown);
    } else {
      assert shows + Placed(p, op, before) == shows && before + TextOf(op) == before && shown + TextOf(op) == shown;
    }
  }

  lemma {:induction false} LosslessInvariant(ops: seq<Op>)
    ensures LosslessSoFar(TextAfter(ops), PlacedShows(ops), LineText(ops), ShownText(ops))
  {
    hide StepText;
    hide LosslessSoFar;
    hide Placed;
    hide MovePen;
    hide Breaks;
    if ops == [] {
      NothingLost();
    } else {
      var init, op := ops[..|ops| - 1], ops[|ops| - 1];
      LosslessInvariant(init);
      LosslessStep(TextAfter(init), PenAfter(init), op, PlacedShows(init), LineText(init), ShownText(init));
    }
  }

  lemma NothingLost()
    ensures LosslessSoFar(TEXT0, [], "", "")
  {
  }

  /**
   * For every stream: the lines carry exactly the shown text if and only if no placed show loses
   * text to the placed show before it, clip regions included.
   */
  lemma LosslessExactly(ops: seq<Op>)
    ensures Flatten(Lines(ops)) == ShownText(ops) <==> !HasLoss(PlacedShows(ops))
  {
    LosslessInvariant(ops);
    LinesAreOutput(ops);
  }

  // ----- Outside clip regions -----

  /** No show is drawn inside a clip region. */
  ghost predicate ShowsOutsideClips(ops: seq<Op>) {
    forall n :: 0 <= n < |ops| && IsShow(ops[n]) ==> !InClip(PenAfter(ops[..n]))
  }

  /** Two placed shows in a row of the same ink on one baseline, within the repaint epsilon. */
  ghost predicate HasRepaint(shows: seq<PlacedShow>) {
    exists k :: 0 <= k < |shows| - 1 && Repaints(shows[k].ink, shows[k + 1].ink)
  }

  lemma {:induction false} PlacedOutsideClips(ops: seq<Op>)
    requires ShowsOutsideClips(ops)
    ensures forall s :: s in PlacedShows(ops) ==> !s.clipped
  {
    hide MovePen;
    hide LineBefore;
    if ops != [] {
      var n := |ops| - 1;
      var init := ops[..n];
      forall k | 0 <= k < n && IsShow(init[k]) ensures !InClip(PenAfter(init[..k])) {
        assert init[..k] == ops[..k] && init[k] == ops[k];
      }
      PlacedOutsideClips(init);
    }
  }

  /** Outside clip regions only repaints of the same ink lose text. */
  lemma LosslessExactlyWithoutRepaints(ops: seq<Op>)
    requires ShowsOutsideClips(ops)
    ensures Flatten(Lines(ops)) == ShownText(ops) <==> !HasRepaint(PlacedShows(ops))
  {
    LosslessExactly(ops);
    PlacedOutsideClips(ops);
    hide Lines;
    hide ShownText;
    var shows := PlacedShows(ops);
    hide PlacedShows;
    hide Repaints;
    forall k | 0 <= k < |shows| - 1 ensures LosesText(shows[k], shows[k + 1]) <==> Repaints(shows[k].ink, shows[k + 1].ink) {
      assert shows[k] in shows && shows[k + 1] in shows;
    }
  }
}
