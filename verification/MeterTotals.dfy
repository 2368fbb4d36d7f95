/**
 * What one more transcript line, one more turn or one more token does to a session's figures: this
 * determines every total, every row and every cost (packages/meter/src/parser.ts, ledger.ts, cost.ts).
 */
module MeterTotals {
  import opened Common
  import opened Decimals
  import opened Meter

  // ----- Which replies fold together -----

  /** The assistant replies of a transcript. */
  ghost function RepliesOf(lines: seq<Line>): seq<Reply> {
    if lines == [] then []
    else
      var n := |lines| - 1;
      RepliesOf(lines[..n]) + (if lines[n].Assistant? then [lines[n].reply] else [])
  }

  ghost predicate Nameless(r: Reply) {
    r.messageId.None? && r.uuid.None?
  }

  /** How many of these replies carry no name. */
  ghost function NamelessCount(replies: seq<Reply>): nat {
    |Filter(replies, r => Nameless(r))|
  }

  /** The key of the reply at position `i`: its message id, else its uuid, else a fresh number. */
  ghost predicate KeyedByName(replies: seq<Reply>, keyed: seq<Keyed>, i: nat)
    requires i < |replies| == |keyed|
  {
    && keyed[i].reply == replies[i]
    && match replies[i].messageId
       case Some(id) => keyed[i].key == id
       case None =>
         match replies[i].uuid
         case Some(uuid) => keyed[i].key == uuid
         case None => keyed[i].key == "line-" + Decimal(NamelessCount(replies[..i]))
  }

  lemma {:induction false} FallbacksCountNameless(lines: seq<Line>)
    ensures Fallbacks(lines) == NamelessCount(RepliesOf(lines))
  {
    if lines != [] {
      var n := |lines| - 1;
      FallbacksCountNameless(lines[..n]);
      if lines[n].Assistant? {
        FilterAppend(RepliesOf(lines[..n]), [lines[n].reply], r => Nameless(r));
      } else {
        assert RepliesOf(lines) == RepliesOf(lines[..n]);
      }
    }
  }

  /** Every assistant reply is folded under its message id, else its uuid, else a number of its own. */
  lemma {:induction false} RepliesAreKeyedByName(lines: seq<Line>)
    ensures |KeyedReplies(lines)| == |RepliesOf(lines)|
    ensures forall i :: 0 <= i < |RepliesOf(lines)| ==> KeyedByName(RepliesOf(lines), KeyedReplies(lines), i)
  {
    hide KeyedByName;
    if lines != [] {
      var n := |lines| - 1;
      RepliesAreKeyedByName(lines[..n]);
      var before, after := RepliesOf(lines[..n]), RepliesOf(lines);
      forall i | 0 <= i < |after| ensures KeyedByName(after, KeyedReplies(lines), i) {
        if i < |before| {
          StillKeyed(before, KeyedReplies(lines[..n]), after, KeyedReplies(lines), i);
        } else {
          FallbacksCountNameless(lines[..n]);
          LastKeyed(before, KeyedReplies(lines[..n]), lines[n].reply, Fallbacks(lines[..n]));
        }
      }
    }
  }

  lemma StillKeyed(replies: seq<Reply>, keyed: seq<Keyed>, replies': seq<Reply>, keyed': seq<Keyed>, i: nat)
    requires i < |replies| == |keyed| && |replies'| == |keyed'| && replies <= replies' && keyed <= keyed'
    requires KeyedByName(replies, keyed, i)
    ensures KeyedByName(replies', keyed', i)
  {
    assert replies'[..i] == replies[..i] && replies'[i] == replies[i] && keyed'[i] == keyed[i];
  }

  lemma LastKeyed(replies: seq<Reply>, keyed: seq<Keyed>, last: Reply, fallbacks: nat)
    requires |replies| == |keyed| && fallbacks == NamelessCount(replies)
    ensures KeyedByName(replies + [last], keyed + [Keyed(KeyOf(last, fallbacks), last)], |replies|)
  {
    assert (replies + [last])[..|replies|] == replies;
  }

  /** Replies without a name are never folded into one another. */
  lemma NamelessRepliesStayApart(lines: seq<Line>, i: nat, j: nat)
    requires i < j < |RepliesOf(lines)| && Nameless(RepliesOf(lines)[i]) && Nameless(RepliesOf(lines)[j])
    ensures |KeyedReplies(lines)| == |RepliesOf(lines)| && KeyedReplies(lines)[i].key != KeyedReplies(lines)[j].key
  {
    RepliesAreKeyedByName(lines);
    var replies, keyed := RepliesOf(lines), KeyedReplies(lines);
    hide RepliesOf;
    hide KeyedReplies;
    assert KeyedByName(replies, keyed, i) && KeyedByName(replies, keyed, j);
    NamelessGrows(replies, i, j);
    var a, b := NamelessCount(replies[..i]), NamelessCount(replies[..j]);
    if keyed[i].key == keyed[j].key {
      assert Decimal(a) == ("line-" + Decimal(a))[5..] == ("line-" + Decimal(b))[5..] == Decimal(b);
      DecimalInjective(a, b);
    }
  }

  lemma NamelessGrows(replies: seq<Reply>, i: nat, j: nat)
    requires i < j < |replies| && Nameless(replies[i])
    ensures NamelessCount(replies[..i]) < NamelessCount(replies[..j])
  {
    assert replies[..j] == replies[..i] + [replies[i]] + replies[i + 1..j];
    FilterAppend(replies[..i] + [replies[i]], replies[i + 1..j], r => Nameless(r));
    FilterAppend(replies[..i], [replies[i]], r => Nameless(r));
  }

  // ----- One more reply -----

  /** The tally of a message: its usage, the writes whose tier is not known counted as one hour and assumed. */
  ghost predicate AddsUsage(before: Tally, after: Tally, u: Usage) {
    && after.input == before.input + u.input
    && after.output == before.output + u.output
    && after.cacheRead == before.cacheRead + u.cacheRead
    && after.cacheWrite == before.cacheWrite + u.cacheWrite
    && after.thinking == before.thinking + u.thinking
    && before.cacheWrite5m.Some? && before.cacheWrite1h.Some? && before.assumed.Some?
    && after.cacheWrite5m.Some? && after.cacheWrite1h.Some? && after.assumed.Some?
    && (if u.cacheWrite == 0 then
          && after.cacheWrite5m == before.cacheWrite5m && after.cacheWrite1h == before.cacheWrite1h
          && after.assumed == before.assumed
        else if u.breakdown.Some? && u.breakdown.value.fiveMinutes + u.breakdown.value.oneHour == u.cacheWrite then
          && after.cacheWrite5m.value == before.cacheWrite5m.value + u.breakdown.value.fiveMinutes
          && after.cacheWrite1h.value == before.cacheWrite1h.value + u.breakdown.value.oneHour
          && after.assumed == before.assumed
        else
          && after.cacheWrite5m == before.cacheWrite5m
          && after.cacheWrite1h.value == before.cacheWrite1h.value + u.cacheWrite
          && after.assumed.value == before.assumed.value + u.cacheWrite)
  }

  /** What two optional counts come to, a missing one being nothing. */
  ghost predicate SumsTo(a: Option<nat>, b: Option<nat>, sum: Option<nat>) {
    match (a, b)
    case (None, None) => sum == Some(0)
    case (Some(m), None) => sum == Some(m)
    case (None, Some(n)) => sum == Some(n)
    case (Some(m), Some(n)) => sum == Some(m + n)
  }

  /** Tallies add count by count; a tally without a tier split adds nothing to the tiers. */
  lemma TalliesAddUp(a: Tally, b: Tally)
    ensures var sum := AddTally(a, b);
      && sum.input == a.input + b.input && sum.output == a.output + b.output
      && sum.cacheRead == a.cacheRead + b.cacheRead && sum.cacheWrite == a.cacheWrite + b.cacheWrite
      && sum.thinking == a.thinking + b.thinking
      && SumsTo(a.cacheWrite5m, b.cacheWrite5m, sum.cacheWrite5m)
      && SumsTo(a.cacheWrite1h, b.cacheWrite1h, sum.cacheWrite1h)
      && SumsTo(a.assumed, b.assumed, sum.assumed)
  {
  }

  const NO_TOKENS := Tally(0, 0, 0, 0, Some(0), Some(0), Some(0), 0)

  /**
   * One more reply. Under a new key it is a turn of its own, and its usage enters the totals; under
   * a known one its tool calls join that turn, and nothing else changes.
   */
  lemma OneMoreReply(replies: seq<Keyed>, last: Keyed)
    ensures var (turns, turns') := (Turns(replies), Turns(replies + [last]));
      && (last.key !in Keys(replies) ==>
           && |turns'| == |turns| + 1 && turns'[..|turns|] == turns
           && turns'[|turns|].model == last.reply.model && turns'[|turns|].uuid == last.reply.uuid
           && turns'[|turns|].tools == last.reply.tools
           && AddsUsage(NO_TOKENS, turns'[|turns|].tokens, last.reply.usage)
           && AddsUsage(TotalTokens(turns), TotalTokens(turns'), last.reply.usage))
      && (last.key in Keys(replies) ==>
           && |turns'| == |turns| == |Distinct(Keys(replies))| && TotalTokens(turns') == TotalTokens(turns)
           && forall p :: 0 <= p < |turns| ==>
                turns'[p] == if Distinct(Keys(replies))[p] == last.key
                             then turns[p].(tools := turns[p].tools + last.reply.tools) else turns[p])
    ensures Turns([]) == [] && TotalTokens([]) == NO_TOKENS
  {
    if last.key in Keys(replies) {
      KnownReplyJoins(replies, last);
    } else {
      TurnsSnocNew(replies, last);
      NewTurnCounts(Turns(replies), Turns(replies + [last])[|Turns(replies)|], last.reply.usage);
    }
  }

  lemma NewTurnCounts(turns: seq<Turn>, t: Turn, u: Usage)
    requires t.tokens == UsageToTally(u)
    ensures AddsUsage(NO_TOKENS, t.tokens, u)
    ensures AddsUsage(TotalTokens(turns), TotalTokens(turns + [t]), u)
  {
    assert (turns + [t])[..|turns|] == turns;
    TotalsHaveTheSplit(turns);
  }

  lemma TotalsHaveTheSplit(turns: seq<Turn>)
    ensures var t := TotalTokens(turns); t.cacheWrite5m.Some? && t.cacheWrite1h.Some? && t.assumed.Some?
  {
  }

  lemma KnownReplyJoins(replies: seq<Keyed>, last: Keyed)
    requires last.key in Keys(replies)
    ensures var (turns, turns') := (Turns(replies), Turns(replies + [last]));
      && |turns'| == |turns| == |Distinct(Keys(replies))| && TotalTokens(turns') == TotalTokens(turns)
      && forall p :: 0 <= p < |turns| ==>
           turns'[p] == if Distinct(Keys(replies))[p] == last.key
                        then turns[p].(tools := turns[p].tools + last.reply.tools) else turns[p]
  {
    TurnsSnocKnown(replies, last);
    SameTokensSameTotals(Turns(replies), Turns(replies + [last]));
    KeysSnoc(replies, last);
    assert (Keys(replies) + [last.key])[..|Keys(replies)|] == Keys(replies);
    var keys := Distinct(Keys(replies));
    forall p | 0 <= p < |keys|
      ensures Turns(replies + [last])[p]
           == if keys[p] == last.key then Turns(replies)[p].(tools := Turns(replies)[p].tools + last.reply.tools) else Turns(replies)[p]
    {
      assert keys[p] in keys;
      TurnOfSnoc(replies, last, keys[p]);
    }
  }

  // ----- One more turn -----

  /** The row of a tool, nothing counted where there is none. */
  ghost function RowOf(byTool: map<string, Attribution>, tool: string): Attribution {
    if tool in byTool then byTool[tool] else Attribution(0, 0.0)
  }

  lemma {:induction false} ChargedRow(byTool: map<string, Attribution>, tools: seq<string>, share: real, tool: string)
    requires !IsInherited(tool) && RowOf(byTool, tool).Attribution?
    ensures var (row, row') := (RowOf(byTool, tool), RowOf(ChargeAll(byTool, tools, share), tool));
      row'.Attribution? && row'.calls == row.calls + multiset(tools)[tool]
      && row'.share == row.share + Repeated(multiset(tools)[tool], share)
  {
    if tools != [] {
      var init, last := tools[..|tools| - 1], tools[|tools| - 1];
      assert tools == init + [last];
      ChargedRow(byTool, init, share, tool);
    }
  }

  lemma {:induction false} RowsStayNumeric(turns: seq<Turn>, tool: string)
    requires !IsInherited(tool)
    ensures RowOf(ByTool(turns), tool).Attribution?
  {
    if turns != [] {
      var n := |turns| - 1;
      RowsStayNumeric(turns[..n], tool);
      ChargedRow(ByTool(turns[..n]), turns[n].tools, Share(turns[n]), tool);
    }
  }

  /**
   * One more turn: a tool's row gains its calls, and for each of them an equal part of the turn's
   * output.
   */
  lemma OneMoreTurn(turns: seq<Turn>, t: Turn, tool: string)
    requires tool != "__proto__" && tool !in INHERITED_NAMES
    ensures var (row, row') := (RowOf(ByTool(turns), tool), RowOf(ByTool(turns + [t]), tool));
      var calls := multiset(t.tools)[tool];
      && row.Attribution? && row'.Attribution?
      && row'.calls == row.calls + calls
      && row'.share == row.share + (if calls == 0 then 0.0 else calls as real * (t.tokens.output as real / |t.tools| as real))
    ensures ByTool([]) == map[]
  {
    assert (turns + [t])[..|turns|] == turns;
    RowsStayNumeric(turns, tool);
    ChargedRow(ByTool(turns), t.tools, Share(t), tool);
    RepeatedIsProduct(multiset(t.tools)[tool], Share(t));
    hide Repeated;
    hide ByTool;
    hide ChargeAll;
    if t.tools == [] {
      assert multiset(t.tools)[tool] == 0;
    }
  }

  // ----- One more token -----

  ghost function AtRate(tokens: nat, rate: real): real {
    tokens as real * rate
  }

  lemma MoreAtRate(tokens: nat, n: nat, rate: real)
    ensures AtRate(tokens + n, rate) == AtRate(tokens, rate) + AtRate(n, rate)
  {
    assert (tokens + n) as real == tokens as real + n as real;
  }

  lemma CostByRates(t: Tally, row: PriceRow)
    ensures var split := t.cacheWrite5m.Some? && t.cacheWrite1h.Some?;
      TallyCost(t, row) * 1000000.0 ==
        AtRate(t.input, row.input) + AtRate(t.output + t.thinking, row.output) + AtRate(t.cacheRead, row.cacheRead)
        + AtRate(if split then t.cacheWrite5m.value else 0, row.cacheWrite)
        + AtRate(if split then t.cacheWrite1h.value else t.cacheWrite, row.cacheWrite1h)
  {
  }

  /** `after` costs what `before` does and `n` tokens more at this rate, prices being per million. */
  ghost predicate CostsMore(before: Tally, after: Tally, row: PriceRow, n: nat, rate: real) {
    TallyCost(after, row) * 1000000.0 == TallyCost(before, row) * 1000000.0 + AtRate(n, rate)
  }

  /** Every token costs its rate, thinking like output; a tally without tokens costs nothing. */
  lemma EachTokenAtItsRate(t: Tally, row: PriceRow, n: nat)
    ensures TallyCost(NO_TOKENS, row) == 0.0
    ensures CostsMore(t, t.(input := t.input + n), row, n, row.input)
    ensures CostsMore(t, t.(output := t.output + n), row, n, row.output)
    ensures CostsMore(t, t.(thinking := t.thinking + n), row, n, row.output)
    ensures CostsMore(t, t.(cacheRead := t.cacheRead + n), row, n, row.cacheRead)
  {
    var i, o, r := t.(input := t.input + n), t.(output := t.output + n), t.(cacheRead := t.cacheRead + n);
    var h := t.(thinking := t.thinking + n);
    CostByRates(t, row);
    CostByRates(i, row);
    CostByRates(o, row);
    CostByRates(h, row);
    CostByRates(r, row);
    MoreAtRate(t.input, n, row.input);
    MoreAtRate(t.output + t.thinking, n, row.output);
    MoreAtRate(t.cacheRead, n, row.cacheRead);
    assert TallyCost(NO_TOKENS, row) == 0.0;
    hide TallyCost;
    hide AtRate;
    assert o.output + o.thinking == t.output + t.thinking + n == h.output + h.thinking;
  }

  /** Cache writes cost their tier's rate; without a split, the one-hour rate. */
  lemma EachWriteAtItsTier(t: Tally, row: PriceRow, n: nat)
    ensures t.cacheWrite5m.Some? && t.cacheWrite1h.Some? ==>
      && CostsMore(t, t.(cacheWrite5m := Some(t.cacheWrite5m.value + n)), row, n, row.cacheWrite)
      && CostsMore(t, t.(cacheWrite1h := Some(t.cacheWrite1h.value + n)), row, n, row.cacheWrite1h)
      && TallyCost(t.(cacheWrite := t.cacheWrite + n), row) == TallyCost(t, row)
    ensures t.cacheWrite5m.None? || t.cacheWrite1h.None? ==>
      CostsMore(t, t.(cacheWrite := t.cacheWrite + n), row, n, row.cacheWrite1h)
  {
    CostByRates(t, row);
    CostByRates(t.(cacheWrite := t.cacheWrite + n), row);
    if t.cacheWrite5m.Some? && t.cacheWrite1h.Some? {
      CostByRates(t.(cacheWrite5m := Some(t.cacheWrite5m.value + n)), row);
      CostByRates(t.(cacheWrite1h := Some(t.cacheWrite1h.value + n)), row);
      MoreAtRate(t.cacheWrite5m.value, n, row.cacheWrite);
      MoreAtRate(t.cacheWrite1h.value, n, row.cacheWrite1h);
    } else {
      MoreAtRate(t.cacheWrite, n, row.cacheWrite1h);
    }
    hide TallyCost;
    hide AtRate;
  }
}
