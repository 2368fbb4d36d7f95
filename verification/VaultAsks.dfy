/**
 * Ask numbering in the vault (packages/vault/src/tools.ts): a session object counts its asks, the
 * counter is rebuilt from the ledgers when the identity returns to a fresh session, and a successful
 * ask appends its serve lines and then one ask line to the corpus ledger.
 */
module VaultAsks {
  import opened Common
  import opened Decimals
  import opened Strings

  type Corpus = string

  const MARK := "#ask"

  /** `${session.id}#ask${n}` */
  function AskId(session: string, n: nat): string {
    session + MARK + Decimal(n)
  }

  datatype LineKind = AskLine | ServeLine

  datatype Line = Line(kind: LineKind, session: string, askId: string)

  /** The trailing run of digits. */
  function DigitsAtEnd(s: string): (r: string)
    ensures |r| <= |s| && s[|s| - |r|..] == r
    ensures |r| < |s| ==> !IsDigit(s[|s| - |r| - 1])
    ensures forall c :: c in r ==> IsDigit(c)
  {
    if s == "" || !IsDigit(s[|s| - 1]) then ""
    else
      var rest := DigitsAtEnd(s[..|s| - 1]);
      assert s == s[..|s| - 1] + [s[|s| - 1]];
      rest + [s[|s| - 1]]
  }

  /** `Number(/#ask(\d+)$/.exec(askId)?.[1] ?? '0')` */
  function AskNumber(askId: string): nat {
    var digits := DigitsAtEnd(askId);
    if digits != "" && EndsWith(askId[..|askId| - |digits|], MARK) then Value(digits) else 0
  }

  lemma DigitsOfAskId(session: string, n: nat)
    ensures DigitsAtEnd(AskId(session, n)) == Decimal(n)
    ensures AskId(session, n)[..|AskId(session, n)| - |Decimal(n)|] == session + MARK
  {
    DigitsAfterMark(session + MARK, Decimal(n));
  }

  lemma {:induction false} DigitsAfterMark(front: string, digits: string)
    requires front != "" && !IsDigit(front[|front| - 1])
    requires forall c :: c in digits ==> IsDigit(c)
    ensures DigitsAtEnd(front + digits) == digits
    decreases |digits|
  {
    if digits == "" {
      assert front + digits == front;
    } else {
      var init := digits[..|digits| - 1];
      assert (front + digits)[..|front + digits| - 1] == front + init;
      assert digits[|digits| - 1] in digits;
      assert forall c :: c in init ==> c in digits;
      DigitsAfterMark(front, init);
    }
  }

  /** The number read back from an ask id is the one it was made with, whatever the session is called. */
  lemma AskNumberReadsBack(session: string, n: nat)
    ensures AskNumber(AskId(session, n)) == n
    ensures AskId(session, n) == session + "#ask" + Decimal(n)
  {
    DigitsOfAskId(session, n);
    ValueOfDecimal(n);
    assert EndsWith(session + MARK, MARK);
  }

  ghost predicate Digits(s: string) {
    s != "" && forall c :: c in s ==> IsDigit(c)
  }

  /** For every id: the number is what the digits after a final `#ask` say, and 0 when it does not end so. */
  lemma AskNumberExactly(id: string)
    ensures forall front, digits :: id == front + "#ask" + digits && Digits(digits) ==> AskNumber(id) == Value(digits)
    ensures (forall front, digits :: id == front + "#ask" + digits ==> !Digits(digits)) ==> AskNumber(id) == 0
  {
    forall front, digits | id == front + "#ask" + digits && Digits(digits) ensures AskNumber(id) == Value(digits) {
      DigitsAfterMark(front + "#ask", digits);
      assert id[..|id| - |digits|] == front + "#ask";
    }
    var digits := DigitsAtEnd(id);
    var rest := id[..|id| - |digits|];
    if digits != "" && EndsWith(rest, MARK) {
      assert id == rest[..|rest| - 4] + "#ask" + digits;
      assert Digits(digits);
    }
  }

  lemma AskIdsAreInjective(s: string, m: nat, t: string, n: nat)
    requires AskId(s, m) == AskId(t, n)
    ensures s == t && m == n
  {
    DigitsOfAskId(s, m);
    DigitsOfAskId(t, n);
    DecimalInjective(m, n);
    assert (s + MARK)[..|s|] == s && (t + MARK)[..|t|] == t;
  }

  // ----- Ledgers and sessions -----

  /** The highest ask number of a session among these lines, or `from`. */
  function HighestAsk(lines: seq<Line>, session: string, from: nat): (r: nat)
    ensures r >= from
    ensures forall l :: l in lines && l.kind == AskLine && l.session == session ==> AskNumber(l.askId) <= r
  {
    if lines == [] then from
    else
      var init, l := lines[..|lines| - 1], lines[|lines| - 1];
      var before := HighestAsk(init, session, from);
      assert lines == init + [l];
      if l.kind == AskLine && l.session == session then Max(before, AskNumber(l.askId)) else before
  }

  /** Over every mounted corpus. */
  function ResumedCounter(ledgers: map<Corpus, seq<Line>>, corpora: seq<Corpus>, session: string, from: nat): (r: nat)
    requires forall c :: c in corpora ==> c in ledgers
    ensures r >= from
    ensures forall c, l :: c in corpora && l in ledgers[c] && l.kind == AskLine && l.session == session ==> AskNumber(l.askId) <= r
  {
    if corpora == [] then from
    else
      var init, c := corpora[..|corpora| - 1], corpora[|corpora| - 1];
      assert corpora == init + [c];
      HighestAsk(ledgers[c], session, ResumedCounter(ledgers, init, session, from))
  }

  ghost predicate IsAskNumbered(l: Line, session: string, n: nat) {
    l.kind == AskLine && l.session == session && AskNumber(l.askId) == n
  }

  lemma {:induction false} HighestAskIsAttained(lines: seq<Line>, session: string, from: nat)
    ensures var r := HighestAsk(lines, session, from);
            r == from || exists l :: l in lines && IsAskNumbered(l, session, r)
  {
    hide AskNumber;
    if lines != [] {
      var init, l := lines[..|lines| - 1], lines[|lines| - 1];
      HighestAskIsAttained(init, session, from);
      assert lines == init + [l];
      var r := HighestAsk(lines, session, from);
      if r == HighestAsk(init, session, from) {
        if r != from {
          var x :| x in init && IsAskNumbered(x, session, r);
          assert x in lines;
        }
      } else {
        assert l in lines && IsAskNumbered(l, session, r);
      }
    }
  }

  /** The resumed counter is no guess: with asks on record it is the number of one of them. */
  lemma {:induction false} ResumedCounterIsAttained(
    ledgers: map<Corpus, seq<Line>>, corpora: seq<Corpus>, session: string, from: nat)
    requires forall c :: c in corpora ==> c in ledgers
    ensures var r := ResumedCounter(ledgers, corpora, session, from);
            r == from || exists c, l :: c in corpora && l in ledgers[c] && IsAskNumbered(l, session, r)
  {
    hide IsAskNumbered;
    if corpora != [] {
      var init, c := corpora[..|corpora| - 1], corpora[|corpora| - 1];
      assert corpora == init + [c];
      ResumedCounterIsAttained(ledgers, init, session, from);
      var before := ResumedCounter(ledgers, init, session, from);
      HighestAskIsAttained(ledgers[c], session, before);
      var r := ResumedCounter(ledgers, corpora, session, from);
      if r == before {
        if r != from {
          var d, x :| d in init && x in ledgers[d] && IsAskNumbered(x, session, r);
          assert d in corpora;
        }
      } else {
        var x :| x in ledgers[c] && IsAskNumbered(x, session, r);
        assert c in corpora;
      }
    }
  }

  method ResumeAskCounter(ledgers: map<Corpus, seq<Line>>, corpora: seq<Corpus>, session: string, asks0: nat) returns (asks: nat)
    requires forall c :: c in corpora ==> c in ledgers
    ensures asks == ResumedCounter(ledgers, corpora, session, asks0)
  {
    hide HighestAsk;
    asks := asks0;
    for i := 0 to |corpora|
      invariant asks == ResumedCounter(ledgers, corpora[..i], session, asks0)
    {
      assert corpora[..i + 1][..i] == corpora[..i];
      asks := ScanLedger(ledgers[corpora[i]], session, asks);
    }
    assert corpora[..|corpora|] == corpora;
  }

  /** The inner loop, over the lines of one ledger. */
  method ScanLedger(lines: seq<Line>, session: string, asks0: nat) returns (asks: nat)
    ensures asks == HighestAsk(lines, session, asks0)
  {
    hide AskNumber;
    asks := asks0;
    for j := 0 to |lines|
      invariant asks == HighestAsk(lines[..j], session, asks0)
    {
      assert lines[..j + 1][..j] == lines[..j];
      if lines[j].kind == AskLine && lines[j].session == session {
        var n := AskNumber(lines[j].askId);
        if n > asks {
          asks := n;
        }
      }
    }
    assert lines[..|lines|] == lines;
  }

  /** Mounted ledgers, and the counter of each session that is live. */
  datatype Vault = Vault(ledgers: map<Corpus, seq<Line>>, live: map<string, nat>)

  datatype Step =
    /** The ask runs to its end, `serves` internal steps measured. */
    | AskCompletes(session: string, corpus: Corpus, serves: nat)
    /** The ask fails after it was numbered, `serves` lines appended before the failure. */
    | AskFails(session: string, corpus: Corpus, serves: nat)
    /** The ask is refused before it is numbered: no question, or no such corpus. */
    | AskRefused(session: string)
    /** The identity (re)appears with a fresh session object. */
    | Opens(session: string, corpora: seq<Corpus>)
    /** The identity's session ends alone: deleted by its client (packages/vault/src/http.ts), or left for a new one. */
    | Closes(session: string)
    | ServerRestarts

  function ServeLines(session: string, askId: string, n: nat): seq<Line> {
    seq(n, _ => Line(ServeLine, session, askId))
  }

  /** One live object per identity, asks go to mounted corpora, and resuming scans all of them. */
  ghost predicate Allowed(v: Vault, s: Step) {
    match s
    case AskCompletes(session, corpus, _) => session in v.live && corpus in v.ledgers
    case AskFails(session, corpus, _) => session in v.live && corpus in v.ledgers
    case AskRefused(session) => session in v.live
    case Opens(session, corpora) => session !in v.live && forall c :: c in corpora <==> c in v.ledgers
    case Closes(session) => session in v.live
    case ServerRestarts => true
  }

  function Appended(v: Vault, corpus: Corpus, lines: seq<Line>): Vault
    requires corpus in v.ledgers
  {
    v.(ledgers := v.ledgers[corpus := v.ledgers[corpus] + lines])
  }

  function Next(v: Vault, s: Step): Vault
    requires Allowed(v, s)
  {
    match s
    case AskCompletes(session, corpus, serves) =>
      var n := v.live[session] + 1;
      Appended(v.(live := v.live[session := n]), corpus,
               ServeLines(session, AskId(session, n), serves) + [Line(AskLine, session, AskId(session, n))])
    case AskFails(session, corpus, serves) =>
      var n := v.live[session] + 1;
      Appended(v.(live := v.live[session := n]), corpus, ServeLines(session, AskId(session, n), serves))
    case AskRefused(_) => v
    case Opens(session, corpora) => v.(live := v.live[session := ResumedCounter(v.ledgers, corpora, session, 0)])
    case Closes(session) => v.(live := v.live - {session})
    case ServerRestarts => v.(live := map[])
  }

  /** The ledger appends of a completed ask, one line per measured step and the ask line on top. */
  method AppendAsk(v: Vault, session: string, corpus: Corpus, measured: seq<bool>) returns (after: Vault)
    requires session in v.live && corpus in v.ledgers
    ensures after == Next(v, AskCompletes(session, corpus, |Filter(measured, (m: bool) => m)|))
  {
    var n := v.live[session] + 1;
    var askId := AskId(session, n);
    var ledger := v.ledgers[corpus];
    for i := 0 to |measured|
      invariant ledger == v.ledgers[corpus] + ServeLines(session, askId, |Filter(measured[..i], (m: bool) => m)|)
    {
      assert measured[..i + 1] == measured[..i] + [measured[i]];
      FilterAppend(measured[..i], [measured[i]], (m: bool) => m);
      if measured[i] {
        ledger := ledger + [Line(ServeLine, session, askId)];
      }
    }
    assert measured[..|measured|] == measured;
    ghost var serves := ServeLines(session, askId, |Filter(measured, (m: bool) => m)|);
    assert ledger + [Line(AskLine, session, askId)] == v.ledgers[corpus] + (serves + [Line(AskLine, session, askId)]);
    ledger := ledger + [Line(AskLine, session, askId)];
    after := Vault(v.ledgers[corpus := ledger], v.live[session := n]);
  }

  // ----- No two ask lines share an id -----

  /** An ask line by where it sits. */
  ghost predicate IsAsk(v: Vault, c: Corpus, i: nat) {
    c in v.ledgers && i < |v.ledgers[c]| && v.ledgers[c][i].kind == AskLine
  }

  ghost predicate WellNumbered(v: Vault) {
    // every ask line carries its own session's id, numbered at most the live counter
    && (forall c, i: nat :: IsAsk(v, c, i) ==>
          var l := v.ledgers[c][i];
          l.askId == AskId(l.session, AskNumber(l.askId))
          && (l.session in v.live ==> AskNumber(l.askId) <= v.live[l.session]))
    // and no two of them the same one
    && (forall c, i: nat, d, j: nat :: IsAsk(v, c, i) && IsAsk(v, d, j) && v.ledgers[c][i].askId == v.ledgers[d][j].askId ==> c == d && i == j)
  }

  lemma AppendKeepsAsks(v: Vault, corpus: Corpus, lines: seq<Line>, c: Corpus, i: nat)
    requires corpus in v.ledgers
    ensures IsAsk(v, c, i) ==> IsAsk(Appended(v, corpus, lines), c, i) && Appended(v, corpus, lines).ledgers[c][i] == v.ledgers[c][i]
    ensures IsAsk(Appended(v, corpus, lines), c, i) && !IsAsk(v, c, i) ==>
      c == corpus && |v.ledgers[corpus]| <= i && lines[i - |v.ledgers[corpus]|].kind == AskLine
  {
  }

  /** Advancing one counter and appending lines with at most one ask line, carrying the new number. */
  lemma NumberedAppend(v: Vault, session: string, corpus: Corpus, lines: seq<Line>)
    requires WellNumbered(v) && session in v.live && corpus in v.ledgers
    requires var id := AskId(session, v.live[session] + 1);
             forall i :: 0 <= i < |lines| && lines[i].kind == AskLine ==> i == |lines| - 1 && lines[i] == Line(AskLine, session, id)
    ensures WellNumbered(Appended(v.(live := v.live[session := v.live[session] + 1]), corpus, lines))
  {
    var n := v.live[session] + 1;
    var advanced := v.(live := v.live[session := n]);
    var after := Appended(advanced, corpus, lines);
    AskNumberReadsBack(session, n);
    forall c, i: nat | IsAsk(after, c, i)
      ensures var l := after.ledgers[c][i];
        l.askId == AskId(l.session, AskNumber(l.askId)) && (l.session in after.live ==> AskNumber(l.askId) <= after.live[l.session])
    {
      AppendKeepsAsks(advanced, corpus, lines, c, i);
      assert IsAsk(advanced, c, i) ==> IsAsk(v, c, i);
    }
    forall c, i: nat, d, j: nat | IsAsk(after, c, i) && IsAsk(after, d, j) && after.ledgers[c][i].askId == after.ledgers[d][j].askId
      ensures c == d && i == j
    {
      NewIdIsNew(v, session, corpus, lines, c, i);
      NewIdIsNew(v, session, corpus, lines, d, j);
    }
  }

  /** An ask line after the append is an old one, whose id is not the new one, or the new one in its place. */
  lemma NewIdIsNew(v: Vault, session: string, corpus: Corpus, lines: seq<Line>, c: Corpus, i: nat)
    requires WellNumbered(v) && session in v.live && corpus in v.ledgers
    requires var id := AskId(session, v.live[session] + 1);
             forall k :: 0 <= k < |lines| && lines[k].kind == AskLine ==> k == |lines| - 1 && lines[k] == Line(AskLine, session, id)
    requires IsAsk(Appended(v.(live := v.live[session := v.live[session] + 1]), corpus, lines), c, i)
    ensures var after := Appended(v.(live := v.live[session := v.live[session] + 1]), corpus, lines);
            var id := AskId(session, v.live[session] + 1);
      if IsAsk(v, c, i) then after.ledgers[c][i] == v.ledgers[c][i] && after.ledgers[c][i].askId != id
      else c == corpus && i == |v.ledgers[corpus]| + |lines| - 1 && after.ledgers[c][i].askId == id
  {
    var n := v.live[session] + 1;
    var advanced := v.(live := v.live[session := n]);
    AppendKeepsAsks(advanced, corpus, lines, c, i);
    assert IsAsk(v, c, i) <==> IsAsk(advanced, c, i);
    if IsAsk(v, c, i) {
      var l := v.ledgers[c][i];
      if l.askId == AskId(session, n) {
        AskIdsAreInjective(l.session, AskNumber(l.askId), session, n);
      }
    }
  }

  lemma StepKeepsWellNumbered(v: Vault, s: Step)
    requires Allowed(v, s) && WellNumbered(v)
    ensures WellNumbered(Next(v, s))
  {
    hide AskNumber;
    hide AskId;
    match s
    case AskCompletes(session, corpus, serves) =>
      var id := AskId(session, v.live[session] + 1);
      NumberedAppend(v, session, corpus, ServeLines(session, id, serves) + [Line(AskLine, session, id)]);
    case AskFails(session, corpus, serves) =>
      NumberedAppend(v, session, corpus, ServeLines(session, AskId(session, v.live[session] + 1), serves));
    case AskRefused(_) =>
    case Opens(session, corpora) => OpeningKeepsWellNumbered(v, session, corpora);
    case Closes(_) => SameLedgers(v, Next(v, s));
    case ServerRestarts => SameLedgers(v, Next(v, s));
  }

  lemma OpeningKeepsWellNumbered(v: Vault, session: string, corpora: seq<Corpus>)
    requires WellNumbered(v) && Allowed(v, Opens(session, corpora))
    ensures WellNumbered(Next(v, Opens(session, corpora)))
  {
    hide AskNumber;
    hide AskId;
    forall c, i: nat | IsAsk(v, c, i) && v.ledgers[c][i].session == session
      ensures AskNumber(v.ledgers[c][i].askId) <= ResumedCounter(v.ledgers, corpora, session, 0)
    {
      assert v.ledgers[c][i] in v.ledgers[c] && c in corpora;
    }
    SameLedgers(v, Next(v, Opens(session, corpora)));
  }

  /** Only the live counters change, each kept or resumed past what the ledgers hold. */
  lemma SameLedgers(v: Vault, after: Vault)
    requires WellNumbered(v) && after.ledgers == v.ledgers
    requires forall c, i: nat :: IsAsk(v, c, i) ==>
      var l := v.ledgers[c][i]; l.session in after.live ==> AskNumber(l.askId) <= after.live[l.session]
    ensures WellNumbered(after)
  {
    hide AskNumber;
    hide AskId;
    assert forall c, i: nat :: IsAsk(after, c, i) <==> IsAsk(v, c, i);
  }

  /** The vault a run reaches; a step that is not allowed where it stands is skipped. */
  ghost function Execute(from: Vault, steps: seq<Step>): Vault {
    if steps == [] then from
    else
      var before, s := Execute(from, steps[..|steps| - 1]), steps[|steps| - 1];
      if Allowed(before, s) then Next(before, s) else before
  }

  /** Every step is allowed where it is taken. */
  ghost predicate Legal(from: Vault, steps: seq<Step>) {
    forall n :: 0 <= n < |steps| ==> Allowed(Execute(from, steps[..n]), steps[n])
  }

  ghost predicate Empty(v: Vault) {
    v.live == map[] && forall c :: c in v.ledgers ==> v.ledgers[c] == []
  }

  lemma {:induction false} RunKeepsWellNumbered(from: Vault, steps: seq<Step>)
    requires WellNumbered(from)
    ensures WellNumbered(Execute(from, steps))
  {
    hide WellNumbered;
    hide Next;
    hide Allowed;
    if steps != [] {
      var before, s := Execute(from, steps[..|steps| - 1]), steps[|steps| - 1];
      RunKeepsWellNumbered(from, steps[..|steps| - 1]);
      if Allowed(before, s) {
        StepKeepsWellNumbered(before, s);
      }
    }
  }

  /** Across any run of asks, failures, closed sessions and restarts over the same mounted corpora, no two ask lines share an id. */
  lemma AskIdsNeverRepeat(from: Vault, steps: seq<Step>, c: Corpus, i: nat, d: Corpus, j: nat)
    requires Empty(from)
    requires var to := Execute(from, steps);
             IsAsk(to, c, i) && IsAsk(to, d, j) && to.ledgers[c][i].askId == to.ledgers[d][j].askId
    ensures c == d && i == j
  {
    assert WellNumbered(from);
    RunKeepsWellNumbered(from, steps);
  }

  /**
   * The guarantee is about ask lines only: an ask that fails after being numbered leaves no ask
   * line, so once its session has ended its number, and the id on its serve lines, is given out again.
   */
  lemma FailedAskNumberIsReused(session: string, corpus: Corpus, end: Step)
    requires end == ServerRestarts || end == Closes(session)
    ensures var v0 := Vault(map[corpus := []], map[session := 0]);
            var id := AskId(session, 1);
      && Allowed(v0, AskFails(session, corpus, 1))
      && var v1 := Next(v0, AskFails(session, corpus, 1));
         Allowed(v1, end) &&
         var v2 := Next(v1, end);
         && Allowed(v2, Opens(session, [corpus]))
         && var v3 := Next(v2, Opens(session, [corpus]));
            && Allowed(v3, AskCompletes(session, corpus, 0))
            && Next(v3, AskCompletes(session, corpus, 0)).ledgers[corpus]
               == [Line(ServeLine, session, id), Line(AskLine, session, id)]
  {
    hide AskId;
    hide AskNumber;
    var id := AskId(session, 1);
    var line := Line(ServeLine, session, id);
    var v0 := Vault(map[corpus := []], map[session := 0]);
    assert ServeLines(session, id, 1) == [line];
    assert ServeLines(session, id, 0) == [];
    var v1 := Next(v0, AskFails(session, corpus, 1));
    assert v1.ledgers == map[corpus := [line]] by {
      assert v0.ledgers[corpus] + [line] == [line];
    }
    var v2 := Next(v1, end);
    NothingToResume(v2.ledgers, corpus, session, line);
    var v3 := Next(v2, Opens(session, [corpus]));
    assert v3.live == map[session := 0];
    assert Next(v3, AskCompletes(session, corpus, 0)).ledgers[corpus] == [line] + ([] + [Line(AskLine, session, id)]);
  }

  lemma NothingToResume(ledgers: map<Corpus, seq<Line>>, corpus: Corpus, session: string, line: Line)
    requires corpus in ledgers && ledgers[corpus] == [line] && line.kind == ServeLine
    ensures ResumedCounter(ledgers, [corpus], session, 0) == 0
  {
    hide AskNumber;
    assert [corpus][..0] == [];
    assert [line][..0] == [];
    assert HighestAsk([line], session, 0) == 0;
  }
}
