/** Where the pen of a PDF text stream stands, in closed form (`pdfStreamLines`, packages/sidecar/src/docs.ts). */
module PdfPen {
  import opened Common
  import opened PdfText

  // ----- The text matrix and the moves since -----

  /** The last text matrix is at `m`. */
  ghost predicate LastMatrix(ops: seq<Op>, m: nat) {
    m < |ops| && ops[m].TextMatrix? && forall k :: m < k < |ops| ==> !ops[k].TextMatrix?
  }

  /** The sum of the moves from operator `m` on, the unreadable ones left out. */
  ghost function MovedX(ops: seq<Op>, m: nat): real
    requires m <= |ops|
  {
    if m == |ops| then 0.0
    else
      var n := |ops| - 1;
      MovedX(ops[..n], m) + (if ops[n].MoveText? && ops[n].tx.Finite? then ops[n].tx.value else 0.0)
  }

  ghost function MovedY(ops: seq<Op>, m: nat): real
    requires m <= |ops|
  {
    if m == |ops| then 0.0
    else
      var n := |ops| - 1;
      MovedY(ops[..n], m) + (if ops[n].MoveText? && ops[n].ty.Finite? then ops[n].ty.value else 0.0)
  }

  /** The magnitude of a matrix coefficient, where it is one. */
  ghost predicate Sets(n: Num, scale: real) {
    n.Finite? && n.value != 0.0 && (scale == n.value || scale == -n.value) && scale > 0.0
  }

  /** Unreadable and zero coefficients leave a scale as it was. */
  ghost predicate RescaledBy(n: Num, before: real, after: real) {
    Sets(n, after) || ((n.NaN? || n.value == 0.0) && after == before)
  }

  /** Without a text matrix the pen is nowhere. */
  lemma {:induction false} PenWithoutMatrix(ops: seq<Op>)
    requires forall k :: 0 <= k < |ops| ==> !ops[k].TextMatrix?
    ensures var pen := PenAfter(ops);
            pen.baseline.None? && pen.x.None? && pen.scale == 12.0 && pen.xScale == 12.0
  {
    if ops != [] {
      PenWithoutMatrix(ops[..|ops| - 1]);
    }
  }

  ghost predicate UnreadableMove(ops: seq<Op>, m: nat) {
    exists k :: m < k < |ops| && ops[k].MoveText? && ops[k].ty.NaN?
  }

  lemma UnreadableStep(ops: seq<Op>, m: nat)
    requires m < |ops| - 1
    ensures var n := |ops| - 1;
      UnreadableMove(ops, m) <==> UnreadableMove(ops[..n], m) || (ops[n].MoveText? && ops[n].ty.NaN?)
  {
    var init := ops[..|ops| - 1];
    assert forall k :: 0 <= k < |init| ==> init[k] == ops[k];
  }

  ghost predicate LeftLine(ops: seq<Op>, m: nat) {
    exists k :: m < k < |ops| && ops[k].NextLine?
  }

  lemma LeftLineStep(ops: seq<Op>, m: nat)
    requires m < |ops| - 1
    ensures LeftLine(ops, m) <==> LeftLine(ops[..|ops| - 1], m) || ops[|ops| - 1].NextLine?
  {
    var init := ops[..|ops| - 1];
    assert forall k :: 0 <= k < |init| ==> init[k] == ops[k];
  }

  /** Where a pen that started at `from` stands after moves adding up to `moved`. */
  ghost function Along(from: real, moved: real, scale: real): real {
    from + moved * scale
  }

  lemma Advances(from: real, moved: real, t: real, moved': real, scale: real, step: real)
    requires moved' == moved + t && step == t * scale
    ensures Along(from, moved, scale) + step == Along(from, moved', scale)
  {
    assert moved' * scale == moved * scale + t * scale;
  }

  lemma BaselineOnwards(p: Pen, op: Op, y: Num, moved: real, moved': real, lost: bool)
    requires !op.TextMatrix? && p.baseline == Some(if y.NaN? || lost then NaN else Finite(Along(y.value, moved, p.scale)))
    requires moved' == moved + (if op.MoveText? && op.ty.Finite? then op.ty.value else 0.0)
    ensures var q := MovePen(p, op);
      q.scale == p.scale
      && q.baseline == Some(if y.NaN? || lost || (op.MoveText? && op.ty.NaN?) then NaN else Finite(Along(y.value, moved', q.scale)))
  {
    hide Along;
    if op.MoveText? {
      var q := MovePen(p, op);
      assert q.baseline == Some(Plus(p.baseline.value, Times(op.ty, p.scale)));
      if y.Finite? && !lost && op.ty.Finite? {
        var step := op.ty.value * p.scale;
        Advances(y.value, moved, op.ty.value, moved', p.scale, step);
        assert Times(op.ty, p.scale) == Finite(step);
        assert q.baseline == Some(Finite(Along(y.value, moved, p.scale) + step));
      } else {
        assert q.baseline == Some(NaN);
      }
    } else {
      assert moved' == moved;
    }
  }

  lemma OriginOnwards(p: Pen, op: Op, x: Num, moved: real, moved': real, lost: bool)
    requires !op.TextMatrix? && p.x == if x.NaN? || lost then None else Some(Along(x.value, moved, p.xScale))
    requires moved' == moved + (if op.MoveText? && op.tx.Finite? then op.tx.value else 0.0)
    ensures var q := MovePen(p, op);
      q.xScale == p.xScale
      && q.x == if x.NaN? || lost || op.NextLine? then None else Some(Along(x.value, moved', q.xScale))
  {
    hide Along;
    if op.MoveText? && op.tx.Finite? {
      if x.Finite? && !lost {
        var step := op.tx.value * p.xScale;
        Advances(x.value, moved, op.tx.value, moved', p.xScale, step);
        assert Advanced(p.x.value, op.tx.value, p.xScale) == p.x.value + step;
        assert MovePen(p, op).x == Some(Along(x.value, moved, p.xScale) + step);
      }
    } else {
      assert moved' == moved;
    }
  }

  /**
   * After a text matrix the pen stands at its origin, plus the moves since, each scaled by the
   * matrix; a next-line operator forgets where on the line it stands.
   */
  lemma {:induction false} PenAfterMatrix(ops: seq<Op>, m: nat)
    requires LastMatrix(ops, m)
    ensures var pen, before, op := PenAfter(ops), PenAfter(ops[..m]), ops[m];
      && RescaledBy(op.d, before.scale, pen.scale)
      && RescaledBy(op.a, before.xScale, pen.xScale)
      && pen.baseline == Some(
           if op.y.NaN? || UnreadableMove(ops, m) then NaN
           else Finite(Along(op.y.value, MovedY(ops, m + 1), pen.scale)))
      && pen.x == (if op.x.NaN? || LeftLine(ops, m) then None
                   else Some(Along(op.x.value, MovedX(ops, m + 1), pen.xScale)))
  {
    var n := |ops| - 1;
    var init := ops[..n];
    var pen, op := PenAfter(init), ops[n];
    hide RescaledBy;
    hide MovePen;
    hide MovedX;
    hide MovedY;
    if m < n {
      hide Along;
      PenAfterMatrix(init, m);
      assert init[..m] == ops[..m];
      UnreadableStep(ops, m);
      LeftLineStep(ops, m);
      UnfoldMoves(ops, m + 1);
      hide PenAfter;
      hide UnreadableMove;
      hide LeftLine;
      BaselineOnwards(pen, op, ops[m].y, MovedY(init, m + 1), MovedY(ops, m + 1), UnreadableMove(init, m));
      OriginOnwards(pen, op, ops[m].x, MovedX(init, m + 1), MovedX(ops, m + 1), LeftLine(init, m));
    } else {
      assert init == ops[..m];
      FirstMove(pen, op);
      assert PenAfter(ops) == MovePen(pen, op);
      NothingMoved(ops);
      assert !UnreadableMove(ops, m) && !LeftLine(ops, m);
    }
  }

  lemma UnfoldMoves(ops: seq<Op>, m: nat)
    requires m < |ops|
    ensures var n := |ops| - 1;
      && PenAfter(ops) == MovePen(PenAfter(ops[..n]), ops[n])
      && MovedX(ops, m) == MovedX(ops[..n], m) + (if ops[n].MoveText? && ops[n].tx.Finite? then ops[n].tx.value else 0.0)
      && MovedY(ops, m) == MovedY(ops[..n], m) + (if ops[n].MoveText? && ops[n].ty.Finite? then ops[n].ty.value else 0.0)
  {
  }

  lemma NothingMoved(ops: seq<Op>)
    ensures MovedX(ops, |ops|) == 0.0 == MovedY(ops, |ops|)
  {
  }

  lemma FirstMove(p: Pen, op: Op)
    requires op.TextMatrix?
    ensures var q := MovePen(p, op);
      && RescaledBy(op.d, p.scale, q.scale) && RescaledBy(op.a, p.xScale, q.xScale)
      && q.baseline == Some(op.y) && q.x == if op.x.NaN? then None else Some(op.x.value)
  {
  }

  /** The pen is placed when a text matrix or a move was the last to touch it. */
  lemma {:induction false} PlacedByTheLastMove(ops: seq<Op>)
    ensures PenAfter(ops).placed <==>
      exists k :: 0 <= k < |ops| && (ops[k].TextMatrix? || ops[k].MoveText?)
                  && forall j :: k < j < |ops| ==> !IsShow(ops[j]) && !ops[j].NextLine?
  {
    if ops != [] {
      var n := |ops| - 1;
      PlacedByTheLastMove(ops[..n]);
      if PenAfter(ops).placed && !(ops[n].TextMatrix? || ops[n].MoveText?) {
        var k :| 0 <= k < n && (ops[..n][k].TextMatrix? || ops[..n][k].MoveText?)
                 && forall j :: k < j < n ==> !IsShow(ops[..n][j]) && !ops[..n][j].NextLine?;
        assert ops[k] == ops[..n][k];
        forall j | k < j < |ops| ensures !IsShow(ops[j]) && !ops[j].NextLine? {
          assert j < n ==> ops[j] == ops[..n][j];
        }
      }
      if k :| 0 <= k < |ops| && (ops[k].TextMatrix? || ops[k].MoveText?)
              && forall j :: k < j < |ops| ==> !IsShow(ops[j]) && !ops[j].NextLine? {
        if k < n {
          assert ops[..n][k] == ops[k];
          assert forall j :: k < j < n ==> ops[..n][j] == ops[j];
          assert !IsShow(ops[n]) && !ops[n].NextLine?;
        }
      }
    }
  }

  // ----- Clip regions -----

  /** How many saved states are open after `before` of them; a restore too many is ignored. */
  ghost function NextDepth(before: nat, op: Op): nat {
    match op
    case SaveState => before + 1
    case RestoreState => if before == 0 then 0 else before - 1
    case _ => before
  }

  /** The number of open saved states before each operator, and after the last. */
  ghost function Depths(ops: seq<Op>): (r: seq<nat>)
    ensures |r| == |ops| + 1
  {
    if ops == [] then [0]
    else
      var before := Depths(ops[..|ops| - 1]);
      before + [NextDepth(before[|ops| - 1], ops[|ops| - 1])]
  }

  /** A clip was set at operator `k`, inside `level` saved states, and all of these are still open. */
  ghost predicate ClippedAt(ops: seq<Op>, depths: seq<nat>, k: nat, level: nat)
    requires |depths| == |ops| + 1
  {
    && k < |ops| && ops[k].ClipPath? && depths[k] == level
    && forall j :: k <= j <= |ops| ==> depths[j] >= level
  }

  /** Some clip set at this level of saved states is still in force. */
  ghost predicate LevelClipped(ops: seq<Op>, depths: seq<nat>, level: nat)
    requires |depths| == |ops| + 1
  {
    exists k: nat :: ClippedAt(ops, depths, k, level)
  }

  lemma {:induction false} ClipsByLevel(ops: seq<Op>)
    ensures var clips, depths := PenAfter(ops).clips, Depths(ops);
      |clips| == depths[|ops|] && forall i :: 0 <= i < |clips| ==> (clips[i] <==> LevelClipped(ops, depths, i + 1))
  {
    hide LevelClipped;
    if ops != [] {
      var n := |ops| - 1;
      ClipsByLevel(ops[..n]);
      assert Depths(ops)[..|ops|] == Depths(ops[..n]);
      var clips := PenAfter(ops).clips;
      forall i | 0 <= i < |clips| ensures clips[i] <==> LevelClipped(ops, Depths(ops), i + 1) {
        LevelStep(ops, Depths(ops), i + 1);
      }
    }
  }

  /** A level stays clipped while it is open, and becomes so when its clip is set. */
  lemma LevelStep(ops: seq<Op>, depths: seq<nat>, level: nat)
    requires ops != [] && |depths| == |ops| + 1 && level <= depths[|ops|]
    ensures var n := |ops| - 1;
      LevelClipped(ops, depths, level)
      <==> (level <= depths[n] && LevelClipped(ops[..n], depths[..|ops|], level)) || (ops[n].ClipPath? && depths[n] == level)
  {
    var n := |ops| - 1;
    if LevelClipped(ops, depths, level) {
      var k: nat :| ClippedAt(ops, depths, k, level);
      if k < n {
        assert ClippedAt(ops[..n], depths[..|ops|], k, level);
      }
    }
    if level <= depths[n] && LevelClipped(ops[..n], depths[..|ops|], level) {
      var k: nat :| ClippedAt(ops[..n], depths[..|ops|], k, level);
      assert forall j :: 0 <= j < |ops| ==> depths[..|ops|][j] == depths[j];
      assert ClippedAt(ops, depths, k, level);
    }
    if ops[n].ClipPath? && depths[n] == level {
      assert ClippedAt(ops, depths, n, level);
    }
  }

  /** Inside a clip region: some clip was set in a saved state that is still open. */
  lemma InClipExactly(ops: seq<Op>)
    ensures InClip(PenAfter(ops)) <==> exists level :: level >= 1 && LevelClipped(ops, Depths(ops), level)
  {
    ClipsByLevel(ops);
    hide Depths;
    var clips, depths := PenAfter(ops).clips, Depths(ops);
    hide PenAfter;
    if InClip(PenAfter(ops)) {
      var i :| 0 <= i < |clips| && clips[i] == true;
      assert LevelClipped(ops, depths, i + 1);
    }
    if level: nat :| level >= 1 && LevelClipped(ops, depths, level) {
      var k: nat :| ClippedAt(ops, depths, k, level);
      assert depths[|ops|] >= level;
      var i := level - 1;
      assert clips[i];
    }
  }
}
