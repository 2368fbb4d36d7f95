/** What one show string leaves on the line, shape by shape (`pdfStreamLines`, packages/sidecar/src/docs.ts). */
module PdfShows {
  import opened Common
  import opened PdfText
  import opened Strings

  /** Both unknown, or both the same number. */
  ghost predicate SameBaseline(a: Option<Num>, b: Option<Num>) {
    match (a, b)
    case (None, None) => true
    case (Some(Finite(y)), Some(Finite(z))) => y == z
    case _ => false
  }

  /** No more than half a point apart. */
  ghost predicate Beside(x: real, y: real) {
    -0.5 <= x - y <= 0.5
  }

  /** The same text, but for the white space around it. */
  ghost predicate SameMark(a: string, b: string) {
    exists ink :: ink != "" && TrimsTo(a, ink) && TrimsTo(b, ink)
  }

  ghost predicate PaintsAgain(a: Shown, b: Shown) {
    SameBaseline(a.y, b.y) && SameMark(a.text, b.text) && Beside(a.x, b.x)
  }

  /** In a clip region: one character, the last of the run before it, inside that run's span. */
  ghost predicate LastGlyphAgain(clipped: bool, scale: real, a: Shown, b: Shown) {
    && SameBaseline(a.y, b.y) && clipped && |b.text| == 1
    && a.text != "" && a.text[|a.text| - 1] == b.text[0]
    && a.x < b.x && b.x - a.x < |a.text| as real * scale
  }

  /** After one clipped glyph: a run that starts with it, at the same place. */
  ghost predicate FirstGlyphAgain(lastClipped: bool, a: Shown, b: Shown) {
    && SameBaseline(a.y, b.y) && lastClipped && Beside(a.x, b.x)
    && (exists glyph :: |glyph| == 1 && TrimsTo(a.text, glyph))
    && exists rest :: b.text == a.text + rest
  }

  /** What the second show adds to the text of the first, all of it white space. */
  ghost predicate OnlyMoreSpace(a: string, b: string, extra: string) {
    extra != "" && AllSpace(extra) && b == a + extra
  }

  lemma SameBaselineIsSameY(a: Option<Num>, b: Option<Num>)
    ensures SameBaseline(a, b) <==> SameY(a, b)
  {
  }

  lemma SameMarkIsSameInk(a: string, b: string)
    ensures SameMark(a, b) <==> SameInk(a, b)
  {
    TrimIsTrimmed(a);
    TrimIsTrimmed(b);
    forall ink ensures (TrimsTo(a, ink) <==> ink == Trim(a)) && (TrimsTo(b, ink) <==> ink == Trim(b)) {
      TrimsToExactly(a, ink);
      TrimsToExactly(b, ink);
    }
    hide TrimsTo;
    hide Trim;
  }

  lemma PaintsAgainIsRepaint(a: Shown, b: Shown)
    ensures PaintsAgain(a, b) <==> Repaints(a, b)
  {
    SameBaselineIsSameY(a.y, b.y);
    SameMarkIsSameInk(a.text, b.text);
    hide SameMark;
    hide SameInk;
    hide SameY;
    hide SameBaseline;
  }

  lemma LastGlyphIsRepainted(clipped: bool, scale: real, a: Shown, b: Shown)
    ensures LastGlyphAgain(clipped, scale, a, b) <==> RepaintsLastGlyph(clipped, scale, a, b)
  {
    SameBaselineIsSameY(a.y, b.y);
    hide SameY;
    hide SameBaseline;
    if |b.text| == 1 && a.text != "" {
      assert a.text[|a.text| - 1..] == [a.text[|a.text| - 1]] && b.text == [b.text[0]];
    }
  }

  lemma FirstGlyphIsRepainted(lastClipped: bool, a: Shown, b: Shown)
    ensures FirstGlyphAgain(lastClipped, a, b) <==> RepaintsFirstGlyph(lastClipped, a, b)
  {
    SameBaselineIsSameY(a.y, b.y);
    OneGlyph(a.text);
    hide SameY;
    hide SameBaseline;
    hide TrimsTo;
    hide Trim;
    if StartsWith(b.text, a.text) {
      assert b.text == a.text + b.text[|a.text|..];
    }
  }

  lemma OneGlyph(s: string)
    ensures (exists glyph :: |glyph| == 1 && TrimsTo(s, glyph)) <==> |Trim(s)| == 1
  {
    TrimIsTrimmed(s);
    hide Trim;
    forall glyph ensures TrimsTo(s, glyph) <==> glyph == Trim(s) {
      TrimsToExactly(s, glyph);
    }
  }

  /** Text is lost between two placed shows in a row in these three ways and no other. */
  lemma LosesTextExactly(a: PlacedShow, b: PlacedShow)
    ensures LosesText(a, b) <==>
      || PaintsAgain(a.ink, b.ink)
      || LastGlyphAgain(b.clipped, b.scale, a.ink, b.ink)
      || (FirstGlyphAgain(a.clipped, a.ink, b.ink) && b.onLine)
  {
    PaintsAgainIsRepaint(a.ink, b.ink);
    LastGlyphIsRepainted(b.clipped, b.scale, a.ink, b.ink);
    FirstGlyphIsRepainted(a.clipped, a.ink, b.ink);
    hide *;
    UnfoldLoss(a, b);
  }

  lemma UnfoldLoss(a: PlacedShow, b: PlacedShow)
    ensures LosesText(a, b) <==>
      || Repaints(a.ink, b.ink) || RepaintsLastGlyph(b.clipped, b.scale, a.ink, b.ink)
      || (RepaintsFirstGlyph(a.clipped, a.ink, b.ink) && b.onLine)
  {
  }

  /** `r` is the line without its last `n` characters; asked for more than there are, twice as many short of its length. */
  ghost predicate TakenBack(line: string, n: nat, r: string) {
    r <= line && |r| == if n <= |line| then |line| - n else if n <= 2 * |line| then 2 * |line| - n else 0
  }

  /** The text after a show, given what was remembered of the placed show before it. */
  ghost predicate Shows(t: Text, p: Pen, text: string, after: Text) {
    if !p.placed || p.x.None? then after == t.(current := t.current + text, sawText := true)
    else
      var b := Shown(p.x.value, p.baseline, text);
      var again := t.lastShow.Some? && PaintsAgain(t.lastShow.value, b);
      if again && HasMoreSpace(t.lastShow.value.text, text) then
        exists extra :: OnlyMoreSpace(t.lastShow.value.text, text, extra) && after == t.(current := t.current + extra, lastShow := Some(b))
      else if again || (t.lastShow.Some? && LastGlyphAgain(true in p.clips, p.scale, t.lastShow.value, b)) then after == t
      else if t.lastShow.Some? && FirstGlyphAgain(t.lastShowClipped, t.lastShow.value, b) then
        exists line :: TakenBack(t.current, |t.lastShow.value.text|, line)
          && after == Text(t.lines, line + text, true, Some(b), true in p.clips)
      else after == Text(t.lines, t.current + text, true, Some(b), true in p.clips)
  }

  ghost predicate HasMoreSpace(a: string, b: string) {
    exists extra :: OnlyMoreSpace(a, b, extra)
  }

  lemma ExtraSpace(a: string, b: string)
    ensures HasMoreSpace(a, b) <==> StartsWith(b, a) && b[|a|..] != "" && Trim(b[|a|..]) == ""
    ensures HasMoreSpace(a, b) ==> OnlyMoreSpace(a, b, b[|a|..])
  {
    hide Trim;
    hide AllSpace;
    if StartsWith(b, a) {
      assert b == a + b[|a|..];
      BlankTrims(b[|a|..]);
      if b[|a|..] != "" && Trim(b[|a|..]) == "" {
        assert OnlyMoreSpace(a, b, b[|a|..]);
      }
    }
    if HasMoreSpace(a, b) {
      var extra :| OnlyMoreSpace(a, b, extra);
      assert b[..|a|] == a && b[|a|..] == extra;
      BlankTrims(extra);
    }
  }

  lemma SlicedBack(line: string, n: nat)
    ensures TakenBack(line, n, SliceBack(line, n))
  {
  }

  /** One show, exactly. */
  lemma ShowExactly(t: Text, p: Pen, text: string)
    ensures Shows(t, p, text, ShowText(t, p, text))
  {
    if p.placed && p.x.Some? && t.lastShow.Some? {
      var a, b := t.lastShow.value, Shown(p.x.value, p.baseline, text);
      PaintsAgainIsRepaint(a, b);
      LastGlyphIsRepainted(InClip(p), p.scale, a, b);
      FirstGlyphIsRepainted(t.lastShowClipped, a, b);
      ExtraSpace(a.text, text);
      SlicedBack(t.current, |a.text|);
      hide PaintsAgain;
      hide LastGlyphAgain;
      hide FirstGlyphAgain;
      hide Repaints;
      hide RepaintsLastGlyph;
      hide RepaintsFirstGlyph;
      hide OnlyMoreSpace;
      hide SliceBack;
      hide TakenBack;
      hide Trim;
    }
  }
}
