/**
 * The meter's folds: transcript parsing (packages/meter/src/parser.ts), the ledger
 * (packages/meter/src/ledger.ts), tallies (packages/shared/src/schemas.ts) and cost
 * (packages/meter/src/cost.ts). Shares and prices are exact reals.
 */
module Meter {
  import opened Common
  import opened Decimals
  import opened SetSums

  // ----- Tallies -----

  datatype Tally = Tally(
    input: nat, output: nat, cacheRead: nat, cacheWrite: nat,
    cacheWrite5m: Option<nat>, cacheWrite1h: Option<nat>, assumed: Option<nat>, thinking: nat
  )

  function OrZero(n: Option<nat>): nat {
    if n.Some? then n.value else 0
  }

  function EmptyTally(): Tally {
    Tally(0, 0, 0, 0, Some(0), Some(0), Some(0), 0)
  }

  function AddTally(a: Tally, b: Tally): Tally {
    Tally(a.input + b.input, a.output + b.output, a.cacheRead + b.cacheRead, a.cacheWrite + b.cacheWrite,
          Some(OrZero(a.cacheWrite5m) + OrZero(b.cacheWrite5m)),
          Some(OrZero(a.cacheWrite1h) + OrZero(b.cacheWrite1h)),
          Some(OrZero(a.assumed) + OrZero(b.assumed)),
          a.thinking + b.thinking)
  }

  /** The schema's refinement: a present tier split sums to the cache writes. */
  ghost predicate SplitConsistent(t: Tally) {
    (t.cacheWrite5m.None? && t.cacheWrite1h.None?) || OrZero(t.cacheWrite5m) + OrZero(t.cacheWrite1h) == t.cacheWrite
  }

  /** The split is present in full and its assumed part lies in the 1-hour tier. */
  ghost predicate FullySplit(t: Tally) {
    t.cacheWrite5m.Some? && t.cacheWrite1h.Some? && SplitConsistent(t) && OrZero(t.assumed) <= OrZero(t.cacheWrite1h)
  }

  // ----- Usage -----

  datatype Breakdown = Breakdown(fiveMinutes: nat, oneHour: nat)

  datatype Usage = Usage(input: nat, output: nat, cacheRead: nat, cacheWrite: nat, breakdown: Option<Breakdown>, thinking: nat)

  /** A breakdown is trusted only when it reconciles exactly; otherwise all of it is assumed 1-hour. */
  function UsageToTally(u: Usage): Tally {
    var known := u.cacheWrite == 0 || (u.breakdown.Some? && u.breakdown.value.fiveMinutes + u.breakdown.value.oneHour == u.cacheWrite);
    var five := if u.cacheWrite != 0 && known then u.breakdown.value.fiveMinutes else 0;
    Tally(u.input, u.output, u.cacheRead, u.cacheWrite,
          Some(five), Some(u.cacheWrite - five), Some(if known then 0 else u.cacheWrite), u.thinking)
  }

  lemma UsageIsFullySplit(u: Usage)
    ensures FullySplit(UsageToTally(u))
    ensures UsageToTally(u).cacheWrite == u.cacheWrite
    ensures u.breakdown.None? ==> UsageToTally(u).assumed == Some(u.cacheWrite) && UsageToTally(u).cacheWrite1h == Some(u.cacheWrite)
  {
  }

  lemma AddKeepsTheSplit(a: Tally, b: Tally)
    requires FullySplit(a) && FullySplit(b)
    ensures FullySplit(AddTally(a, b))
  {
  }

  // ----- Transcripts -----

  datatype Reply = Reply(
    messageId: Option<string>, uuid: Option<string>, model: string, tools: seq<string>, usage: Usage
  )

  /** A non-blank transcript line, once parsed. */
  datatype Line = Malformed | UnknownType | KnownOther | Assistant(reply: Reply)

  datatype Keyed = Keyed(key: string, reply: Reply)

  /** Replies that carry neither a message id nor a uuid. */
  function Fallbacks(lines: seq<Line>): nat {
    if lines == [] then 0
    else
      var last := lines[|lines| - 1];
      Fallbacks(lines[..|lines| - 1])
      + (if last.Assistant? && last.reply.messageId.None? && last.reply.uuid.None? then 1 else 0)
  }

  function KeyOf(r: Reply, fallbacks: nat): string {
    if r.messageId.Some? then r.messageId.value
    else if r.uuid.Some? then r.uuid.value
    else "line-" + Decimal(fallbacks)
  }

  /** The replies of a transcript with their folding keys. */
  function KeyedReplies(lines: seq<Line>): seq<Keyed> {
    if lines == [] then []
    else
      var init, last := lines[..|lines| - 1], lines[|lines| - 1];
      KeyedReplies(init) + (if last.Assistant? then [Keyed(KeyOf(last.reply, Fallbacks(init)), last.reply)] else [])
  }

  datatype Turn = Turn(model: string, uuid: Option<string>, tools: seq<string>, tokens: Tally)

  function Keys(replies: seq<Keyed>): seq<string> {
    seq(|replies|, i requires 0 <= i < |replies| => replies[i].key)
  }

  /** The first reply with this key. */
  function FirstWith(replies: seq<Keyed>, key: string): (r: Reply)
    requires key in Keys(replies)
    ensures exists i :: 0 <= i < |replies| && replies[i] == Keyed(key, r) && forall j :: 0 <= j < i ==> replies[j].key != key
  {
    var init, last := replies[..|replies| - 1], replies[|replies| - 1];
    if key in Keys(init) then
      assert forall i :: 0 <= i < |init| ==> init[i] == replies[i];
      FirstWith(init, key)
    else
      assert forall i :: 0 <= i < |init| ==> Keys(init)[i] == replies[i].key;
      last.reply
  }

  /** Every tool call of every reply with this key. */
  function ToolsOf(replies: seq<Keyed>, key: string): seq<string> {
    if replies == [] then []
    else
      var last := replies[|replies| - 1];
      ToolsOf(replies[..|replies| - 1], key) + (if last.key == key then last.reply.tools else [])
  }

  function TurnOf(replies: seq<Keyed>, key: string): Turn
    requires key in Keys(replies)
  {
    var first := FirstWith(replies, key);
    Turn(first.model, first.uuid, ToolsOf(replies, key), UsageToTally(first.usage))
  }

  /** One turn per key, in order of first appearance: tokens of the first reply, tools of all. */
  function Turns(replies: seq<Keyed>): seq<Turn> {
    var keys := Distinct(Keys(replies));
    seq(|keys|, i requires 0 <= i < |keys| =>
      assert keys[i] in keys;
      TurnOf(replies, keys[i]))
  }

  datatype Counts = Counts(lines: nat, known: nat, unknownType: nat, malformed: nat)

  function CountLines(lines: seq<Line>): Counts {
    if lines == [] then Counts(0, 0, 0, 0)
    else
      var c := CountLines(lines[..|lines| - 1]);
      match lines[|lines| - 1]
      case Malformed => c.(lines := c.lines + 1, malformed := c.malformed + 1)
      case UnknownType => c.(lines := c.lines + 1, unknownType := c.unknownType + 1)
      case _ => c.(lines := c.lines + 1, known := c.known + 1)
  }

  // ----- The parser's loop -----

  /** The map and the order it was filled in, after some replies. */
  ghost predicate HoldsTurns(replies: seq<Keyed>, turnsByKey: map<string, Turn>, turnOrder: seq<string>) {
    && turnOrder == Distinct(Keys(replies))
    && (forall key :: key in turnsByKey <==> key in Keys(replies))
    && (forall key :: key in turnsByKey && key in Keys(replies) ==> turnsByKey[key] == TurnOf(replies, key))
  }

  lemma KeysSnoc(replies: seq<Keyed>, last: Keyed)
    ensures Keys(replies + [last]) == Keys(replies) + [last.key]
  {
  }

  lemma TurnOfSnoc(replies: seq<Keyed>, last: Keyed, key: string)
    requires key in Keys(replies + [last])
    ensures key in Keys(replies) ==>
      TurnOf(replies + [last], key)
      == TurnOf(replies, key).(tools := TurnOf(replies, key).tools + (if last.key == key then last.reply.tools else []))
    ensures key !in Keys(replies) ==>
      key == last.key
      && TurnOf(replies + [last], key) == Turn(last.reply.model, last.reply.uuid, last.reply.tools, UsageToTally(last.reply.usage))
  {
    KeysSnoc(replies, last);
    assert (replies + [last])[..|replies|] == replies;
    if key !in Keys(replies) {
      NoTools(replies, key);
    }
  }

  lemma {:induction false} NoTools(replies: seq<Keyed>, key: string)
    requires key !in Keys(replies)
    ensures ToolsOf(replies, key) == []
  {
    if replies != [] {
      var init := replies[..|replies| - 1];
      assert replies == init + [replies[|replies| - 1]];
      KeysSnoc(init, replies[|replies| - 1]);
      NoTools(init, key);
    }
  }

  /** Folding one reply: a new key opens a turn, a known one only adds its tools. */
  method FoldReply(last: Keyed, turnsByKey0: map<string, Turn>, turnOrder0: seq<string>, ghost replies: seq<Keyed>)
    returns (turnsByKey: map<string, Turn>, turnOrder: seq<string>)
    requires HoldsTurns(replies, turnsByKey0, turnOrder0)
    ensures HoldsTurns(replies + [last], turnsByKey, turnOrder)
  {
    turnsByKey, turnOrder := turnsByKey0, turnOrder0;
    KeysSnoc(replies, last);
    assert (Keys(replies) + [last.key])[..|Keys(replies)|] == Keys(replies);
    if last.key !in turnsByKey {
      turnsByKey := turnsByKey[last.key := Turn(last.reply.model, last.reply.uuid, last.reply.tools, UsageToTally(last.reply.usage))];
      turnOrder := turnOrder + [last.key];
    } else {
      var existing := turnsByKey[last.key];
      turnsByKey := turnsByKey[last.key := existing.(tools := existing.tools + last.reply.tools)];
    }
    forall key | key in turnsByKey ensures key in Keys(replies + [last]) && turnsByKey[key] == TurnOf(replies + [last], key) {
      TurnOfSnoc(replies, last, key);
    }
  }

  lemma KeyedSnoc(lines: seq<Line>, last: Line)
    ensures KeyedReplies(lines + [last])
         == KeyedReplies(lines) + (if last.Assistant? then [Keyed(KeyOf(last.reply, Fallbacks(lines)), last.reply)] else [])
    ensures Fallbacks(lines + [last])
         == Fallbacks(lines) + (if last.Assistant? && last.reply.messageId.None? && last.reply.uuid.None? then 1 else 0)
    ensures CountLines(lines + [last])
         == var c := CountLines(lines);
            match last
            case Malformed => c.(lines := c.lines + 1, malformed := c.malformed + 1)
            case UnknownType => c.(lines := c.lines + 1, unknownType := c.unknownType + 1)
            case _ => c.(lines := c.lines + 1, known := c.known + 1)
  {
    assert (lines + [last])[..|lines|] == lines;
  }

  method ParseSession(lines: seq<Line>) returns (turns: seq<Turn>, counts: Counts)
    ensures turns == Turns(KeyedReplies(lines))
    ensures counts == CountLines(lines)
    ensures counts.lines == |lines| == counts.known + counts.unknownType + counts.malformed
  {
    hide HoldsTurns;
    hide KeyOf;
    hide KeyedReplies;
    hide CountLines;
    hide Fallbacks;
    counts := Counts(0, 0, 0, 0);
    var turnsByKey: map<string, Turn> := map[];
    var turnOrder: seq<string> := [];
    var fallbackCounter := 0;
    NothingHeld();
    for n := 0 to |lines|
      invariant HoldsTurns(KeyedReplies(lines[..n]), turnsByKey, turnOrder)
      invariant fallbackCounter == Fallbacks(lines[..n])
      invariant counts == CountLines(lines[..n])
      invariant counts.lines == n == counts.known + counts.unknownType + counts.malformed
    {
      ghost var before := lines[..n];
      assert lines[..n + 1] == before + [lines[n]];
      KeyedSnoc(before, lines[n]);
      assert KeyedReplies(before) + [] == KeyedReplies(before);
      counts := counts.(lines := counts.lines + 1);
      match lines[n] {
        case Malformed => counts := counts.(malformed := counts.malformed + 1);
        case UnknownType => counts := counts.(unknownType := counts.unknownType + 1);
        case KnownOther => counts := counts.(known := counts.known + 1);
        case Assistant(reply) =>
          counts := counts.(known := counts.known + 1);
          var key := KeyOf(reply, fallbackCounter);
          if reply.messageId.None? && reply.uuid.None? {
            fallbackCounter := fallbackCounter + 1;
          }
          turnsByKey, turnOrder := FoldReply(Keyed(key, reply), turnsByKey, turnOrder, KeyedReplies(before));
      }
    }
    assert lines[..|lines|] == lines;
    turns := InOrder(turnsByKey, turnOrder, KeyedReplies(lines));
  }

  lemma NothingHeld()
    ensures HoldsTurns(KeyedReplies([]), map[], [])
    ensures Fallbacks([]) == 0 && CountLines([]) == Counts(0, 0, 0, 0)
  {
  }

  /** `turnOrder.map((key) => turnsByKey.get(key))` */
  method InOrder(turnsByKey: map<string, Turn>, turnOrder: seq<string>, ghost replies: seq<Keyed>) returns (turns: seq<Turn>)
    requires HoldsTurns(replies, turnsByKey, turnOrder)
    ensures turns == Turns(replies)
  {
    turns := seq(|turnOrder|, i requires 0 <= i < |turnOrder| =>
      assert turnOrder[i] in turnOrder;
      turnsByKey[turnOrder[i]]);
  }

  // ----- The ledger -----

  /** `NotANumber` is a row whose figures were added onto something that was no row. */
  datatype Attribution = Attribution(calls: nat, share: real) | NotANumber

  /** What every JavaScript object answers to besides its own keys; `__proto__` cannot even be given a row. */
  const INHERITED_NAMES: set<string> := {
    "constructor", "hasOwnProperty", "isPrototypeOf", "propertyIsEnumerable", "toLocaleString", "toString", "valueOf",
    "__defineGetter__", "__defineSetter__", "__lookupGetter__", "__lookupSetter__"
  }

  const PROTO := "__proto__"

  predicate IsInherited(tool: string) {
    tool == PROTO || tool in INHERITED_NAMES
  }

  /** `byTool[tool] ?? { calls: 0, outputTokenShare: 0 }` on a plain object. */
  function Current(byTool: map<string, Attribution>, tool: string): Attribution {
    if tool in byTool then byTool[tool]
    else if IsInherited(tool) then NotANumber
    else Attribution(0, 0.0)
  }

  function Charged(a: Attribution, share: real): Attribution {
    if a.NotANumber? then a else Attribution(a.calls + 1, a.share + share)
  }

  function TotalTokens(turns: seq<Turn>): Tally {
    if turns == [] then EmptyTally() else AddTally(TotalTokens(turns[..|turns| - 1]), turns[|turns| - 1].tokens)
  }

  function Share(t: Turn): real {
    if t.tools == [] then 0.0 else t.tokens.output as real / |t.tools| as real
  }

  function Charge(byTool: map<string, Attribution>, tool: string, share: real): map<string, Attribution> {
    if tool == PROTO then byTool else byTool[tool := Charged(Current(byTool, tool), share)]
  }

  function ChargeAll(byTool: map<string, Attribution>, tools: seq<string>, share: real): map<string, Attribution> {
    if tools == [] then byTool
    else Charge(ChargeAll(byTool, tools[..|tools| - 1], share), tools[|tools| - 1], share)
  }

  function ByTool(turns: seq<Turn>): map<string, Attribution> {
    if turns == [] then map[]
    else ChargeAll(ByTool(turns[..|turns| - 1]), turns[|turns| - 1].tools, Share(turns[|turns| - 1]))
  }

  method BuildLedger(turns: seq<Turn>) returns (totals: Tally, byTool: map<string, Attribution>)
    ensures totals == TotalTokens(turns) && byTool == ByTool(turns)
  {
    totals, byTool := EmptyTally(), map[];
    for n := 0 to |turns|
      invariant totals == TotalTokens(turns[..n]) && byTool == ByTool(turns[..n])
    {
      assert turns[..n + 1][..n] == turns[..n];
      var turn := turns[n];
      totals := AddTally(totals, turn.tokens);
      var share := if |turn.tools| > 0 then turn.tokens.output as real / |turn.tools| as real else 0.0;
      ghost var before := byTool;
      for k := 0 to |turn.tools|
        invariant byTool == ChargeAll(before, turn.tools[..k], share)
      {
        assert turn.tools[..k + 1][..k] == turn.tools[..k];
        var tool := turn.tools[k];
        var current := Current(byTool, tool);
        if current.Attribution? {
          current := Attribution(current.calls + 1, current.share + share);
        }
        if tool != PROTO {
          byTool := byTool[tool := current];
        }
      }
      assert turn.tools[..|turn.tools|] == turn.tools;
    }
    assert turns[..|turns|] == turns;
  }

  // ----- Tokens are counted once per message -----

  lemma TurnsSnocKnown(replies: seq<Keyed>, last: Keyed)
    requires last.key in Keys(replies)
    ensures |Turns(replies + [last])| == |Turns(replies)|
    ensures forall i :: 0 <= i < |Turns(replies)| ==> Turns(replies + [last])[i].tokens == Turns(replies)[i].tokens
  {
    KeysSnoc(replies, last);
    assert (Keys(replies) + [last.key])[..|Keys(replies)|] == Keys(replies);
    var keys := Distinct(Keys(replies));
    forall i | 0 <= i < |keys| ensures Turns(replies + [last])[i].tokens == Turns(replies)[i].tokens {
      assert keys[i] in keys;
      TurnOfSnoc(replies, last, keys[i]);
    }
  }

  lemma TurnsSnocNew(replies: seq<Keyed>, last: Keyed)
    requires last.key !in Keys(replies)
    ensures Turns(replies + [last])
         == Turns(replies) + [Turn(last.reply.model, last.reply.uuid, last.reply.tools, UsageToTally(last.reply.usage))]
  {
    KeysSnoc(replies, last);
    assert (Keys(replies) + [last.key])[..|Keys(replies)|] == Keys(replies);
    var keys := Distinct(Keys(replies));
    forall i | 0 <= i < |keys| ensures Turns(replies + [last])[i] == Turns(replies)[i] {
      assert keys[i] in keys;
      TurnOfSnoc(replies, last, keys[i]);
    }
    TurnOfSnoc(replies, last, last.key);
  }

  lemma {:induction false} SameTokensSameTotals(a: seq<Turn>, b: seq<Turn>)
    requires |a| == |b| && forall i :: 0 <= i < |a| ==> a[i].tokens == b[i].tokens
    ensures TotalTokens(a) == TotalTokens(b)
  {
    if a != [] {
      SameTokensSameTotals(a[..|a| - 1], b[..|b| - 1]);
    }
  }

  /** The tokens of first replies only: what a reader who ignores repeated messages would add up. */
  function FirstReplyTotals(replies: seq<Keyed>): Tally {
    if replies == [] then EmptyTally()
    else
      var init, last := replies[..|replies| - 1], replies[|replies| - 1];
      if last.key in Keys(init) then FirstReplyTotals(init)
      else AddTally(FirstReplyTotals(init), UsageToTally(last.reply.usage))
  }

  /** A message's usage enters the totals once, however many records repeat it. */
  lemma {:induction false} EachMessageCountedOnce(replies: seq<Keyed>)
    ensures TotalTokens(Turns(replies)) == FirstReplyTotals(replies)
  {
    if replies != [] {
      var init, last := replies[..|replies| - 1], replies[|replies| - 1];
      assert replies == init + [last];
      EachMessageCountedOnce(init);
      if last.key in Keys(init) {
        TurnsSnocKnown(init, last);
        SameTokensSameTotals(Turns(replies), Turns(init));
      } else {
        TurnsSnocNew(init, last);
        assert Turns(replies)[..|Turns(init)|] == Turns(init);
      }
    }
  }

  function CallCount(turns: seq<Turn>): nat {
    if turns == [] then 0 else CallCount(turns[..|turns| - 1]) + |turns[|turns| - 1].tools|
  }

  function ReplyCalls(replies: seq<Keyed>): nat {
    if replies == [] then 0 else ReplyCalls(replies[..|replies| - 1]) + |replies[|replies| - 1].reply.tools|
  }

  lemma {:induction false} CallCountAdd(a: seq<Turn>, b: seq<Turn>, k: nat, extra: nat)
    requires |a| == |b| && k < |a|
    requires forall i :: 0 <= i < |a| ==> |b[i].tools| == |a[i].tools| + (if i == k then extra else 0)
    ensures CallCount(b) == CallCount(a) + extra
  {
    var n := |a| - 1;
    if k < n {
      CallCountAdd(a[..n], b[..n], k, extra);
    } else {
      CallCountSame(a[..n], b[..n]);
    }
  }

  lemma {:induction false} CallCountSame(a: seq<Turn>, b: seq<Turn>)
    requires |a| == |b| && forall i :: 0 <= i < |a| ==> |b[i].tools| == |a[i].tools|
    ensures CallCount(b) == CallCount(a)
  {
    if a != [] {
      CallCountSame(a[..|a| - 1], b[..|b| - 1]);
    }
  }

  /** No tool call is lost or invented by the folding. */
  lemma {:induction false} EveryToolCallKept(replies: seq<Keyed>)
    ensures CallCount(Turns(replies)) == ReplyCalls(replies)
  {
    if replies != [] {
      var init, last := replies[..|replies| - 1], replies[|replies| - 1];
      assert replies == init + [last];
      EveryToolCallKept(init);
      if last.key in Keys(init) {
        KnownReplyAddsItsTools(init, last);
      } else {
        TurnsSnocNew(init, last);
        assert Turns(replies)[..|Turns(init)|] == Turns(init);
      }
    }
  }

  lemma KnownReplyAddsItsTools(replies: seq<Keyed>, last: Keyed)
    requires last.key in Keys(replies)
    ensures CallCount(Turns(replies + [last])) == CallCount(Turns(replies)) + |last.reply.tools|
  {
    KeysSnoc(replies, last);
    assert (Keys(replies) + [last.key])[..|Keys(replies)|] == Keys(replies);
    var keys := Distinct(Keys(replies));
    var k :| 0 <= k < |keys| && keys[k] == last.key;
    forall i | 0 <= i < |keys|
      ensures |Turns(replies + [last])[i].tools| == |Turns(replies)[i].tools| + (if i == k then |last.reply.tools| else 0)
    {
      assert keys[i] in keys;
      TurnOfSnoc(replies, last, keys[i]);
    }
    CallCountAdd(Turns(replies), Turns(replies + [last]), k, |last.reply.tools|);
  }

  // ----- Attribution conserves output tokens -----

  ghost predicate AllNumeric(byTool: map<string, Attribution>) {
    forall tool :: tool in byTool ==> byTool[tool].Attribution?
  }

  function ShareOf(byTool: map<string, Attribution>, tool: string): real {
    if tool in byTool && byTool[tool].Attribution? then byTool[tool].share else 0.0
  }

  ghost function TotalShare(byTool: map<string, Attribution>): real {
    Sum(byTool.Keys, tool => ShareOf(byTool, tool))
  }

  lemma ChargeAddsOneShare(byTool: map<string, Attribution>, tool: string, share: real)
    requires AllNumeric(byTool) && tool != PROTO && tool !in INHERITED_NAMES
    ensures AllNumeric(Charge(byTool, tool, share))
    ensures TotalShare(Charge(byTool, tool, share)) == TotalShare(byTool) + share
  {
    assert !IsInherited(tool);
    hide IsInherited;
    var after := Charge(byTool, tool, share);
    var f := t => ShareOf(byTool, t);
    var g := t => ShareOf(after, t);
    var rest := byTool.Keys - {tool};
    SumRemove(after.Keys, g, tool);
    assert after.Keys - {tool} == rest;
    SumAgree(rest, f, g);
    if tool in byTool {
      SumRemove(byTool.Keys, f, tool);
    } else {
      assert rest == byTool.Keys;
    }
  }

  /** `share` added `n` times. */
  function Repeated(n: nat, share: real): real {
    if n == 0 then 0.0 else Repeated(n - 1, share) + share
  }

  lemma {:induction false} RepeatedIsProduct(n: nat, share: real)
    ensures Repeated(n, share) == n as real * share
  {
    if n != 0 {
      RepeatedIsProduct(n - 1, share);
      assert n as real == (n - 1) as real + 1.0;
      Distribute((n - 1) as real, share);
    }
  }

  lemma Distribute(m: real, share: real)
    ensures (m + 1.0) * share == m * share + share
  {
  }

  lemma EvenSplitAddsUp(t: Turn)
    requires t.tools != []
    ensures Repeated(|t.tools|, Share(t)) == t.tokens.output as real
  {
    RepeatedIsProduct(|t.tools|, Share(t));
    SplitEvenly(t.tokens.output as real, |t.tools| as real);
  }

  /** No tool here finds a property that every object inherits under its name. */
  ghost predicate NoneInherited(tools: seq<string>) {
    forall tool :: tool in tools ==> tool !in INHERITED_NAMES
  }

  /** Calls of the one name that can be given no row. */
  function RowlessCalls(tools: seq<string>): nat {
    if tools == [] then 0 else RowlessCalls(tools[..|tools| - 1]) + (if tools[|tools| - 1] == PROTO then 1 else 0)
  }

  lemma {:induction false} RowlessCallsExactly(tools: seq<string>)
    ensures RowlessCalls(tools) == 0 <==> PROTO !in tools
    ensures RowlessCalls(tools) <= |tools|
  {
    if tools != [] {
      var init := tools[..|tools| - 1];
      RowlessCallsExactly(init);
      assert tools == init + [tools[|tools| - 1]];
    }
  }

  /** Charging adds a share for every call that has a row. */
  lemma {:induction false} ChargeAllAddsShares(byTool: map<string, Attribution>, tools: seq<string>, share: real)
    requires AllNumeric(byTool) && NoneInherited(tools)
    ensures AllNumeric(ChargeAll(byTool, tools, share))
    ensures TotalShare(ChargeAll(byTool, tools, share)) + Repeated(RowlessCalls(tools), share)
         == TotalShare(byTool) + Repeated(|tools|, share)
  {
    hide TotalShare;
    hide Charge;
    hide AllNumeric;
    if tools != [] {
      var init, last := tools[..|tools| - 1], tools[|tools| - 1];
      ChargeAllAddsShares(byTool, init, share);
      if last == PROTO {
        RowlessCharge(ChargeAll(byTool, init, share), share);
      } else {
        assert last in tools;
        ChargeAddsOneShare(ChargeAll(byTool, init, share), last, share);
      }
    }
  }

  lemma RowlessCharge(byTool: map<string, Attribution>, share: real)
    ensures Charge(byTool, PROTO, share) == byTool
  {
  }

  function ToolTurnOutput(turns: seq<Turn>): nat {
    if turns == [] then 0
    else
      var last := turns[|turns| - 1];
      ToolTurnOutput(turns[..|turns| - 1]) + (if last.tools == [] then 0 else last.tokens.output)
  }

  /** Every tool call of a session, in order. */
  function AllCalls(turns: seq<Turn>): seq<string> {
    if turns == [] then [] else AllCalls(turns[..|turns| - 1]) + turns[|turns| - 1].tools
  }

  function CallsOf(byTool: map<string, Attribution>, tool: string): nat {
    if tool in byTool && byTool[tool].Attribution? then byTool[tool].calls else 0
  }

  /** The rows inherited names can have, and the ones they cannot. */
  ghost predicate RowsAreProper(byTool: map<string, Attribution>) {
    && PROTO !in byTool
    && forall tool :: tool in byTool ==> (byTool[tool].NotANumber? <==> IsInherited(tool))
  }

  lemma ChargeOne(byTool: map<string, Attribution>, name: string, share: real, tool: string)
    requires RowsAreProper(byTool)
    ensures RowsAreProper(Charge(byTool, name, share))
    ensures tool in Charge(byTool, name, share) <==> tool in byTool || (tool == name && tool != PROTO)
    ensures !IsInherited(tool) ==> CallsOf(Charge(byTool, name, share), tool) == CallsOf(byTool, tool) + (if tool == name then 1 else 0)
  {
    assert IsInherited(PROTO);
    hide IsInherited;
  }

  lemma {:induction false} ChargeAllCountsCalls(byTool: map<string, Attribution>, tools: seq<string>, share: real, tool: string)
    requires RowsAreProper(byTool)
    ensures RowsAreProper(ChargeAll(byTool, tools, share))
    ensures tool in ChargeAll(byTool, tools, share) <==> tool in byTool || (tool in tools && tool != PROTO)
    ensures !IsInherited(tool) ==>
      CallsOf(ChargeAll(byTool, tools, share), tool) == CallsOf(byTool, tool) + multiset(tools)[tool]
  {
    hide IsInherited;
    hide RowsAreProper;
    hide Charge;
    hide CallsOf;
    if tools != [] {
      var init, last := tools[..|tools| - 1], tools[|tools| - 1];
      ChargeAllCountsCalls(byTool, init, share, tool);
      ChargeOne(ChargeAll(byTool, init, share), last, share, tool);
      assert tools == init + [last];
    }
  }

  /**
   * A tool is on the ledger exactly when it was called, `__proto__` excepted. Its row is numeric, and
   * then counts its calls, exactly when its name is none that objects inherit.
   */
  lemma {:induction false} ToolRowCountsItsCalls(turns: seq<Turn>, tool: string)
    ensures RowsAreProper(ByTool(turns))
    ensures tool in ByTool(turns) <==> tool in AllCalls(turns) && tool != "__proto__"
    ensures tool in ByTool(turns) ==> (ByTool(turns)[tool].Attribution? <==> !IsInherited(tool))
    ensures !IsInherited(tool) ==> CallsOf(ByTool(turns), tool) == multiset(AllCalls(turns))[tool]
  {
    hide IsInherited;
    hide CallsOf;
    if turns != [] {
      var init, last := turns[..|turns| - 1], turns[|turns| - 1];
      ToolRowCountsItsCalls(init, tool);
      ChargeAllCountsCalls(ByTool(init), last.tools, Share(last), tool);
    } else {
      NothingCharged(tool);
    }
  }

  lemma NothingCharged(tool: string)
    ensures CallsOf(map[], tool) == 0
  {
  }

  /** The output tokens whose share went to calls without a row. */
  function LostShare(turns: seq<Turn>): real {
    if turns == [] then 0.0
    else
      var last := turns[|turns| - 1];
      LostShare(turns[..|turns| - 1]) + Repeated(RowlessCalls(last.tools), Share(last))
  }

  lemma {:induction false} SharesAndLossSumToOutput(turns: seq<Turn>)
    requires NoneInherited(AllCalls(turns))
    ensures AllNumeric(ByTool(turns))
    ensures TotalShare(ByTool(turns)) + LostShare(turns) == ToolTurnOutput(turns) as real
  {
    hide TotalShare;
    hide Share;
    hide AllNumeric;
    if turns == [] {
      NothingShared();
    } else {
      var init, last := turns[..|turns| - 1], turns[|turns| - 1];
      assert AllCalls(turns) == AllCalls(init) + last.tools;
      SharesAndLossSumToOutput(init);
      ChargeAllAddsShares(ByTool(init), last.tools, Share(last));
      if last.tools != [] {
        EvenSplitAddsUp(last);
      }
    }
  }

  /** A turn that gave no share of any output to a call without a row. */
  ghost predicate LosesNothing(t: Turn) {
    "__proto__" in t.tools ==> t.tokens.output == 0
  }

  lemma TurnLosesExactly(t: Turn)
    ensures Repeated(RowlessCalls(t.tools), Share(t)) >= 0.0
    ensures Repeated(RowlessCalls(t.tools), Share(t)) == 0.0 <==> LosesNothing(t)
  {
    RowlessCallsExactly(t.tools);
    RepeatedIsProduct(RowlessCalls(t.tools), Share(t));
    if t.tools != [] {
      EvenSplitAddsUp(t);
      RepeatedIsProduct(|t.tools|, Share(t));
      hide Share;
      ProductSigns(|t.tools| as real, Share(t), RowlessCalls(t.tools) as real);
    }
  }

  lemma ProductSigns(n: real, share: real, calls: real)
    requires n > 0.0 && calls >= 0.0 && n * share >= 0.0
    ensures calls * share >= 0.0
    ensures calls * share == 0.0 <==> calls == 0.0 || n * share == 0.0
  {
    NonNegativeFactor(n, share);
    if share > 0.0 {
      PositiveTimes(n, share);
      if calls > 0.0 {
        PositiveTimes(calls, share);
      }
    }
  }

  lemma NonNegativeFactor(x: real, y: real)
    requires x > 0.0 && x * y >= 0.0
    ensures y >= 0.0
  {
    if y < 0.0 {
      NegativeTimes(x, y);
    }
  }

  lemma NegativeTimes(x: real, y: real)
    requires x > 0.0 && y < 0.0
    ensures x * y < 0.0
  {
  }

  lemma PositiveTimes(x: real, y: real)
    requires x > 0.0 && y > 0.0
    ensures x * y > 0.0
  {
  }

  lemma {:induction false} LossExactly(turns: seq<Turn>)
    ensures LostShare(turns) >= 0.0
    ensures LostShare(turns) == 0.0 <==> forall t :: t in turns ==> LosesNothing(t)
  {
    hide LosesNothing;
    hide Share;
    hide Repeated;
    if turns != [] {
      var init, last := turns[..|turns| - 1], turns[|turns| - 1];
      assert turns == init + [last];
      LossExactly(init);
      TurnLosesExactly(last);
    }
  }

  /**
   * Every row is numeric and the per-tool shares add up to the output tokens of the turns that used
   * a tool, if and only if no tool called has a name that objects inherit, and no turn that called
   * `__proto__` had output to share.
   */
  lemma SharesSumToToolTurnOutput(turns: seq<Turn>)
    ensures AllNumeric(ByTool(turns)) && TotalShare(ByTool(turns)) == ToolTurnOutput(turns) as real
       <==> NoneInherited(AllCalls(turns)) && forall t :: t in turns ==> LosesNothing(t)
  {
    hide TotalShare;
    hide LosesNothing;
    LossExactly(turns);
    if NoneInherited(AllCalls(turns)) {
      SharesAndLossSumToOutput(turns);
    } else {
      var tool :| tool in AllCalls(turns) && tool in INHERITED_NAMES;
      InheritedRowIsNoNumber(turns, tool);
    }
  }

  lemma InheritedRowIsNoNumber(turns: seq<Turn>, tool: string)
    requires tool in AllCalls(turns) && tool in INHERITED_NAMES
    ensures !AllNumeric(ByTool(turns))
  {
    assert PROTO !in INHERITED_NAMES;
    ToolRowCountsItsCalls(turns, tool);
  }

  lemma NothingShared()
    ensures AllNumeric(map[]) && TotalShare(map[]) == 0.0
  {
  }

  lemma SplitEvenly(x: real, n: real)
    requires n > 0.0
    ensures n * (x / n) == x
  {
  }

  // ----- The tier split -----

  ghost predicate AllFullySplit(turns: seq<Turn>) {
    forall i :: 0 <= i < |turns| ==> FullySplit(turns[i].tokens)
  }

  lemma {:induction false} TotalsKeepTheSplit(turns: seq<Turn>)
    requires AllFullySplit(turns)
    ensures FullySplit(TotalTokens(turns))
  {
    if turns != [] {
      TotalsKeepTheSplit(turns[..|turns| - 1]);
    }
  }

  /** In every parsed turn, and in the session totals, the 5-minute and 1-hour writes sum to the cache writes. */
  lemma SplitSumsEverywhere(lines: seq<Line>)
    ensures AllFullySplit(Turns(KeyedReplies(lines)))
    ensures var t := TotalTokens(Turns(KeyedReplies(lines)));
      && t.cacheWrite5m.Some? && t.cacheWrite1h.Some? && t.assumed.Some?
      && t.cacheWrite5m.value + t.cacheWrite1h.value == t.cacheWrite
      && t.assumed.value <= t.cacheWrite1h.value
  {
    TotalsKeepTheSplit(Turns(KeyedReplies(lines)));
  }

  datatype PriceRow = PriceRow(input: real, output: real, cacheRead: real, cacheWrite: real, cacheWrite1h: real)

  function TallyCost(t: Tally, row: PriceRow): real {
    var hasSplit := t.cacheWrite5m.Some? && t.cacheWrite1h.Some?;
    var five := if hasSplit then t.cacheWrite5m.value else 0;
    var hour := if hasSplit then t.cacheWrite1h.value else t.cacheWrite;
    (t.input as real * row.input + (t.output + t.thinking) as real * row.output + t.cacheRead as real * row.cacheRead
     + five as real * row.cacheWrite + hour as real * row.cacheWrite1h) / 1000000.0
  }

  /** The same tally with `five` of its cache writes in the 5-minute tier. */
  function SplitAt(t: Tally, five: nat): Tally
    requires five <= t.cacheWrite
  {
    t.(cacheWrite5m := Some(five), cacheWrite1h := Some(t.cacheWrite - five))
  }

  lemma SplitCost(t: Tally, row: PriceRow, five: nat)
    requires five <= t.cacheWrite
    ensures TallyCost(SplitAt(t, five), row) * 1000000.0
         == TallyCost(SplitAt(t, 0), row) * 1000000.0 + five as real * (row.cacheWrite - row.cacheWrite1h)
  {
    var w := t.cacheWrite;
    assert (w - five) as real == w as real - five as real;
    assert (w as real - five as real) * row.cacheWrite1h == w as real * row.cacheWrite1h - five as real * row.cacheWrite1h;
    assert five as real * (row.cacheWrite - row.cacheWrite1h) == five as real * row.cacheWrite - five as real * row.cacheWrite1h;
  }

  lemma SignOfProduct(x: real, y: real)
    requires x >= 0.0
    ensures x * y <= 0.0 <==> x == 0.0 || y <= 0.0
  {
    if x > 0.0 && y > 0.0 {
      assert x * y > 0.0;
    } else if x > 0.0 {
      assert x * -y >= 0.0;
      assert x * -y == -(x * y);
    }
  }

  ghost predicate NoDearer(t: Tally, row: PriceRow, five: nat)
    requires five <= t.cacheWrite
  {
    TallyCost(SplitAt(t, five), row) <= TallyCost(SplitAt(t, 0), row)
  }

  /** A split is no dearer than all 1-hour exactly when it is all 1-hour or the 1-hour rate is the higher. */
  lemma NoDearerExactly(t: Tally, row: PriceRow, five: nat)
    requires five <= t.cacheWrite
    ensures NoDearer(t, row, five) <==> five == 0 || row.cacheWrite1h >= row.cacheWrite
  {
    SplitCost(t, row, five);
    SignOfProduct(five as real, row.cacheWrite - row.cacheWrite1h);
    hide TallyCost;
  }

  /**
   * The unknown-tier charge is the dearest possible: it is at least the cost of every true split
   * exactly when the 1-hour rate is at least the 5-minute rate, or nothing was written.
   */
  lemma UnknownTierNeverUndercharges(t: Tally, row: PriceRow)
    ensures TallyCost(t.(cacheWrite5m := None, cacheWrite1h := None), row) == TallyCost(SplitAt(t, 0), row)
    ensures (forall five: nat :: five <= t.cacheWrite ==> NoDearer(t, row, five))
       <==> row.cacheWrite1h >= row.cacheWrite || t.cacheWrite == 0
  {
    assert TallyCost(t.(cacheWrite5m := None, cacheWrite1h := None), row) == TallyCost(SplitAt(t, 0), row);
    hide TallyCost;
    hide NoDearer;
    forall five: nat | five <= t.cacheWrite
      ensures NoDearer(t, row, five) <==> five == 0 || row.cacheWrite1h >= row.cacheWrite
    {
      NoDearerExactly(t, row, five);
    }
    assert NoDearer(t, row, t.cacheWrite) <==> t.cacheWrite == 0 || row.cacheWrite1h >= row.cacheWrite;
  }
}
