/**
 * Rollups over vault ledger lines (`rollupLines`, packages/vault/src/rollup.ts). Token counts and
 * costs are both exact amounts here, so they share one real-valued type.
 */
module VaultRollup {
  import opened Common
  import opened SetSums

  type Amount = real

  datatype LineKind = Ask | Zoom | Serve
  datatype Band = High | Medium | Low

  datatype LedgerLine = LedgerLine(
    kind: LineKind, session: string, timestamp: string, rawTokens: Amount, servedTokens: Amount,
    avoidedTokens: Amount, costAvoided: Amount, document: Option<string>, confidence: Option<Band>
  )

  datatype Scope = BySession(session: string) | ByDay(day: string) | ByMonth(month: string) | WholeCorpus

  /** `s.slice(0, n)` */
  function Head(s: string, n: nat): string {
    if |s| <= n then s else s[..n]
  }

  function DayOf(l: LedgerLine): string {
    Head(l.timestamp, 10)
  }

  function MonthOf(l: LedgerLine): string {
    Head(l.timestamp, 7)
  }

  predicate InScope(l: LedgerLine, scope: Scope) {
    match scope
    case BySession(s) => l.session == s
    case ByDay(d) => DayOf(l) == d
    case ByMonth(m) => MonthOf(l) == m
    case WholeCorpus => true
  }

  predicate IsCounted(l: LedgerLine) {
    l.kind != Ask
  }

  function Scoped(all: seq<LedgerLine>, scope: Scope): seq<LedgerLine> {
    Filter(all, l => InScope(l, scope))
  }

  function Counted(lines: seq<LedgerLine>): seq<LedgerLine> {
    Filter(lines, IsCounted)
  }

  /** The amounts a rollup sums. */
  datatype Figure = RawTokens | ServedTokens | AvoidedTokens | CostAvoided

  function Pick(l: LedgerLine, f: Figure): Amount {
    match f
    case RawTokens => l.rawTokens
    case ServedTokens => l.servedTokens
    case AvoidedTokens => l.avoidedTokens
    case CostAvoided => l.costAvoided
  }

  function Total(lines: seq<LedgerLine>, f: Figure): Amount {
    if lines == [] then 0.0 else Total(lines[..|lines| - 1], f) + Pick(lines[|lines| - 1], f)
  }

  datatype SessionRollup = SessionRollup(asks: nat, avoided: Amount, cost: Amount)
  datatype DocumentRollup = DocumentRollup(readCount: nat, raw: Amount, avoided: Amount, cost: Amount)
  datatype Bands = Bands(high: nat, medium: nat, low: nat, unrated: nat)

  function AddToSession(s: SessionRollup, l: LedgerLine): SessionRollup {
    if l.kind == Ask then s.(asks := s.asks + 1)
    else s.(avoided := s.avoided + l.avoidedTokens, cost := s.cost + l.costAvoided)
  }

  function Sessions(lines: seq<LedgerLine>): map<string, SessionRollup> {
    if lines == [] then map[]
    else
      var before, l := Sessions(lines[..|lines| - 1]), lines[|lines| - 1];
      var s := if l.session in before then before[l.session] else SessionRollup(0, 0.0, 0.0);
      before[l.session := AddToSession(s, l)]
  }

  function AddToDocument(d: DocumentRollup, l: LedgerLine): DocumentRollup {
    DocumentRollup(d.readCount + 1, d.raw + l.rawTokens, d.avoided + l.avoidedTokens, d.cost + l.costAvoided)
  }

  function Documents(counted: seq<LedgerLine>): map<string, DocumentRollup> {
    if counted == [] then map[]
    else
      var before, l := Documents(counted[..|counted| - 1]), counted[|counted| - 1];
      if l.document.None? then before
      else
        var d := if l.document.value in before then before[l.document.value] else DocumentRollup(0, 0.0, 0.0, 0.0);
        before[l.document.value := AddToDocument(d, l)]
  }

  predicate AskWith(l: LedgerLine, band: Option<Band>) {
    l.kind == Ask && l.confidence == band
  }

  function CountBand(lines: seq<LedgerLine>, band: Option<Band>): nat {
    |Filter(lines, l => AskWith(l, band))|
  }

  function AskCount(lines: seq<LedgerLine>): nat {
    |Filter(lines, (l: LedgerLine) => l.kind == Ask)|
  }

  datatype Rollup = Rollup(
    lines: nat, asks: nat, raw: Amount, served: Amount, avoided: Amount, cost: Amount,
    sessions: map<string, SessionRollup>, documents: map<string, DocumentRollup>, bands: Bands
  )

  /** The rollup of the lines in scope. */
  function Summary(lines: seq<LedgerLine>): Rollup {
    var counted := Counted(lines);
    Rollup(
      |lines|, AskCount(lines),
      Total(counted, RawTokens), Total(counted, ServedTokens), Total(counted, AvoidedTokens), Total(counted, CostAvoided),
      Sessions(lines), Documents(counted),
      Bands(CountBand(lines, Some(High)), CountBand(lines, Some(Medium)), CountBand(lines, Some(Low)), CountBand(lines, None)))
  }

  function RollupOf(all: seq<LedgerLine>, scope: Scope): Rollup {
    Summary(Scoped(all, scope))
  }

  method GroupDocuments(counted: seq<LedgerLine>) returns (documents: map<string, DocumentRollup>)
    ensures documents == Documents(counted)
  {
    documents := map[];
    for n := 0 to |counted|
      invariant documents == Documents(counted[..n])
    {
      assert counted[..n + 1][..n] == counted[..n];
      var l := counted[n];
      if l.document.Some? {
        var d := if l.document.value in documents then documents[l.document.value] else DocumentRollup(0, 0.0, 0.0, 0.0);
        documents := documents[l.document.value := DocumentRollup(
          d.readCount + 1, d.raw + l.rawTokens, d.avoided + l.avoidedTokens, d.cost + l.costAvoided)];
      }
    }
    assert counted[..|counted|] == counted;
  }

  method GroupSessions(lines: seq<LedgerLine>) returns (sessions: map<string, SessionRollup>)
    ensures sessions == Sessions(lines)
  {
    sessions := map[];
    for n := 0 to |lines|
      invariant sessions == Sessions(lines[..n])
    {
      assert lines[..n + 1][..n] == lines[..n];
      var l := lines[n];
      var s := if l.session in sessions then sessions[l.session] else SessionRollup(0, 0.0, 0.0);
      if l.kind == Ask {
        s := s.(asks := s.asks + 1);
      } else {
        s := s.(avoided := s.avoided + l.avoidedTokens, cost := s.cost + l.costAvoided);
      }
      sessions := sessions[l.session := s];
    }
    assert lines[..|lines|] == lines;
  }

  method RollupLines(all: seq<LedgerLine>, scope: Scope) returns (r: Rollup)
    ensures r == RollupOf(all, scope)
  {
    var lines := Scoped(all, scope);
    var counted := Counted(lines);
    var documents := GroupDocuments(counted);
    var sessions := GroupSessions(lines);
    r := Rollup(
      |lines|, AskCount(lines),
      Total(counted, RawTokens), Total(counted, ServedTokens), Total(counted, AvoidedTokens), Total(counted, CostAvoided),
      sessions, documents,
      Bands(CountBand(lines, Some(High)), CountBand(lines, Some(Medium)), CountBand(lines, Some(Low)), CountBand(lines, None)));
  }

  // ----- Sessions add up to the total -----

  ghost function SessionSum(sessions: map<string, SessionRollup>): Amount {
    Sum(sessions.Keys, s => if s in sessions then sessions[s].avoided else 0.0)
  }

  lemma UpdateSessionSum(sessions: map<string, SessionRollup>, key: string, after: SessionRollup)
    ensures SessionSum(sessions[key := after])
         == SessionSum(sessions) + after.avoided - (if key in sessions then sessions[key].avoided else 0.0)
  {
    var updated := sessions[key := after];
    var f := s => if s in sessions then sessions[s].avoided else 0.0;
    var g := s => if s in updated then updated[s].avoided else 0.0;
    var rest := sessions.Keys - {key};
    SumRemove(updated.Keys, g, key);
    assert updated.Keys - {key} == rest;
    SumAgree(rest, f, g);
    if key in sessions {
      SumRemove(sessions.Keys, f, key);
    } else {
      assert rest == sessions.Keys;
    }
  }

  lemma NoSessions()
    ensures SessionSum(map[]) == 0.0
  {
  }

  lemma CountedSnoc(lines: seq<LedgerLine>, l: LedgerLine)
    ensures Counted(lines + [l]) == Counted(lines) + (if IsCounted(l) then [l] else [])
  {
    FilterAppend(lines, [l], IsCounted);
  }

  lemma TotalSnoc(lines: seq<LedgerLine>, l: LedgerLine, f: Figure)
    ensures Total(lines + [l], f) == Total(lines, f) + Pick(l, f)
  {
    assert (lines + [l])[..|lines|] == lines;
  }

  /** The avoided tokens of the sessions add up to the avoided total, ask lines and all. */
  lemma {:induction false} SessionsAddUp(lines: seq<LedgerLine>)
    ensures SessionSum(Sessions(lines)) == Total(Counted(lines), AvoidedTokens)
  {
    hide SessionSum;
    hide Counted;
    if lines == [] {
      NothingCounted();
      NoSessions();
    } else {
      var init, l := lines[..|lines| - 1], lines[|lines| - 1];
      assert lines == init + [l];
      SessionsAddUp(init);
      CountedTotalSnoc(init, l, AvoidedTokens);
      var before := Sessions(init);
      var s := if l.session in before then before[l.session] else SessionRollup(0, 0.0, 0.0);
      UpdateSessionSum(before, l.session, AddToSession(s, l));
    }
  }

  lemma NothingCounted()
    ensures Counted([]) == []
  {
  }

  lemma CountedTotalSnoc(lines: seq<LedgerLine>, l: LedgerLine, f: Figure)
    ensures Total(Counted(lines + [l]), f) == Total(Counted(lines), f) + (if IsCounted(l) then Pick(l, f) else 0.0)
  {
    CountedSnoc(lines, l);
    TotalSnoc(Counted(lines), l, f);
    assert Counted(lines) + [] == Counted(lines);
  }

  /** Ask lines never change a token or cost total: removing them all changes none. */
  lemma AskLinesNeverCount(all: seq<LedgerLine>, scope: Scope, f: Figure)
    ensures Total(Counted(Scoped(all, scope)), f) == Total(Counted(Scoped(Counted(all), scope)), f)
  {
    FiltersCommute(all, l => InScope(l, scope), IsCounted);
    FilterTwice(Scoped(all, scope), IsCounted, IsCounted);
  }

  lemma {:induction false} FiltersCommute(s: seq<LedgerLine>, p: LedgerLine -> bool, q: LedgerLine -> bool)
    ensures Filter(Filter(s, p), q) == Filter(Filter(s, q), p)
  {
    if s != [] {
      FiltersCommute(s[1..], p, q);
      assert ([s[0]] + Filter(s[1..], p))[1..] == Filter(s[1..], p);
      assert ([s[0]] + Filter(s[1..], q))[1..] == Filter(s[1..], q);
    }
  }

  /** Every ask has exactly one confidence band, unrated included. */
  lemma {:induction false} BandsSumToAsks(lines: seq<LedgerLine>)
    ensures CountBand(lines, Some(High)) + CountBand(lines, Some(Medium)) + CountBand(lines, Some(Low)) + CountBand(lines, None)
         == AskCount(lines)
  {
    if lines != [] {
      BandsSumToAsks(lines[1..]);
      var l := lines[0];
      match l.confidence
      case None =>
      case Some(High) =>
      case Some(Medium) =>
      case Some(Low) =>
    }
  }

  // ----- Every row is the rollup of its own lines -----

  /** The row of a session, from the lines of that session alone. */
  function SessionScope(all: seq<LedgerLine>, session: string): SessionRollup {
    var lines := Scoped(all, BySession(session));
    SessionRollup(AskCount(lines), Total(Counted(lines), AvoidedTokens), Total(Counted(lines), CostAvoided))
  }

  lemma AskCountSnoc(lines: seq<LedgerLine>, l: LedgerLine)
    ensures AskCount(lines + [l]) == AskCount(lines) + (if l.kind == Ask then 1 else 0)
  {
    FilterAppend(lines, [l], (x: LedgerLine) => x.kind == Ask);
  }

  lemma SessionScopeSnoc(all: seq<LedgerLine>, l: LedgerLine, session: string)
    ensures SessionScope(all + [l], session)
         == if l.session == session then AddToSession(SessionScope(all, session), l) else SessionScope(all, session)
  {
    hide Total;
    hide Counted;
    hide AskCount;
    FilterAppend(all, [l], x => InScope(x, BySession(session)));
    var lines := Scoped(all, BySession(session));
    ScopeSnoc(all, l, BySession(session), AvoidedTokens);
    ScopeSnoc(all, l, BySession(session), CostAvoided);
    if l.session == session {
      assert Scoped(all + [l], BySession(session)) == lines + [l];
      AskCountSnoc(lines, l);
    } else {
      assert Scoped(all + [l], BySession(session)) == lines;
    }
  }

  /** A session's row in any rollup is the rollup of that session, and sessions without lines have none. */
  lemma {:induction false} SessionRowIsItsScope(all: seq<LedgerLine>, session: string)
    ensures session in Sessions(all) <==> exists l :: l in all && l.session == session
    ensures (if session in Sessions(all) then Sessions(all)[session] else SessionRollup(0, 0.0, 0.0)) == SessionScope(all, session)
  {
    hide SessionScope;
    if all == [] {
      EmptyScopes(session);
    } else {
      var init, l := all[..|all| - 1], all[|all| - 1];
      assert all == init + [l];
      SessionRowIsItsScope(init, session);
      SessionScopeSnoc(init, l, session);
      assert l in all;
    }
  }

  /** The row of a document, from the counted lines that name it. */
  function DocumentScope(counted: seq<LedgerLine>, document: string): DocumentRollup {
    var lines := Filter(counted, l => Cites(l, document));
    DocumentRollup(|lines|, Total(lines, RawTokens), Total(lines, AvoidedTokens), Total(lines, CostAvoided))
  }

  predicate Cites(l: LedgerLine, document: string) {
    l.document == Some(document)
  }

  lemma DocumentScopeSnoc(counted: seq<LedgerLine>, l: LedgerLine, document: string)
    ensures DocumentScope(counted + [l], document)
         == if Cites(l, document) then AddToDocument(DocumentScope(counted, document), l) else DocumentScope(counted, document)
  {
    hide Total;
    FilterAppend(counted, [l], x => Cites(x, document));
    var lines := Filter(counted, x => Cites(x, document));
    if Cites(l, document) {
      assert Filter(counted + [l], x => Cites(x, document)) == lines + [l];
      TotalSnoc(lines, l, RawTokens);
      TotalSnoc(lines, l, AvoidedTokens);
      TotalSnoc(lines, l, CostAvoided);
    } else {
      assert Filter(counted + [l], x => Cites(x, document)) == lines;
    }
  }

  /** A document's row counts and sums exactly the counted lines that name it. */
  lemma {:induction false} DocumentRowIsItsScope(counted: seq<LedgerLine>, document: string)
    ensures document in Documents(counted) <==> exists l :: l in counted && Cites(l, document)
    ensures (if document in Documents(counted) then Documents(counted)[document] else DocumentRollup(0, 0.0, 0.0, 0.0))
         == DocumentScope(counted, document)
  {
    hide DocumentScope;
    if counted == [] {
      EmptyScopes(document);
    } else {
      var init, l := counted[..|counted| - 1], counted[|counted| - 1];
      assert counted == init + [l];
      DocumentRowIsItsScope(init, document);
      DocumentScopeSnoc(init, l, document);
      assert l in counted;
    }
  }

  lemma EmptyScopes(key: string)
    ensures SessionScope([], key) == SessionRollup(0, 0.0, 0.0)
    ensures DocumentScope([], key) == DocumentRollup(0, 0.0, 0.0, 0.0)
  {
  }

  // ----- Days add up to their month -----

  function Days(lines: seq<LedgerLine>): set<string> {
    set l | l in lines :: DayOf(l)
  }

  ghost function DaySum(all: seq<LedgerLine>, days: set<string>, f: Figure): Amount {
    Sum(days, d => Total(Counted(Scoped(all, ByDay(d))), f))
  }

  lemma ScopeSnoc(all: seq<LedgerLine>, l: LedgerLine, scope: Scope, f: Figure)
    ensures Total(Counted(Scoped(all + [l], scope)), f)
         == Total(Counted(Scoped(all, scope)), f) + (if InScope(l, scope) && IsCounted(l) then Pick(l, f) else 0.0)
  {
    FilterAppend(all, [l], x => InScope(x, scope));
    var lines := Scoped(all, scope);
    if InScope(l, scope) {
      assert Scoped(all + [l], scope) == lines + [l];
      CountedTotalSnoc(lines, l, f);
    } else {
      assert Scoped(all + [l], scope) == lines;
    }
  }

  /** One more line moves the sum over `days` by what it adds to its own day. */
  lemma DaySumSnoc(all: seq<LedgerLine>, l: LedgerLine, days: set<string>, f: Figure)
    ensures DaySum(all + [l], days, f)
         == DaySum(all, days, f) + (if DayOf(l) in days && IsCounted(l) then Pick(l, f) else 0.0)
  {
    hide Total;
    hide Counted;
    hide Scoped;
    var before := d => Total(Counted(Scoped(all, ByDay(d))), f);
    var after := d => Total(Counted(Scoped(all + [l], ByDay(d))), f);
    forall d ensures after(d) == before(d) + (if DayOf(l) == d && IsCounted(l) then Pick(l, f) else 0.0) {
      ScopeSnoc(all, l, ByDay(d), f);
    }
    if DayOf(l) in days {
      SumRemove(days, before, DayOf(l));
      SumRemove(days, after, DayOf(l));
      SumAgree(days - {DayOf(l)}, before, after);
    } else {
      SumAgree(days, before, after);
    }
  }

  /** A set of days covering every line of the month and only days of the month. */
  ghost predicate DaysOfMonth(all: seq<LedgerLine>, month: string, days: set<string>) {
    forall l :: l in all ==> (DayOf(l) in days <==> MonthOf(l) == month)
  }

  /** Day rollups add up to their month, for every figure. */
  lemma {:induction false} DaysAddUpToTheMonth(all: seq<LedgerLine>, month: string, days: set<string>, f: Figure)
    requires DaysOfMonth(all, month, days)
    ensures DaySum(all, days, f) == Total(Counted(Scoped(all, ByMonth(month))), f)
  {
    hide DaySum;
    if all == [] {
      NothingInDays(days, f);
    } else {
      var init, l := all[..|all| - 1], all[|all| - 1];
      assert all == init + [l];
      DaysAddUpToTheMonth(init, month, days, f);
      DaySumSnoc(init, l, days, f);
      ScopeSnoc(init, l, ByMonth(month), f);
    }
  }

  lemma NothingInDays(days: set<string>, f: Figure)
    ensures DaySum([], days, f) == 0.0
  {
    SumZero(days, d => Total(Counted(Scoped([], ByDay(d))), f));
  }

  /** The days of a month's lines are such a set: a day names its month in its first seven characters. */
  lemma TheDaysOfAMonth(all: seq<LedgerLine>, month: string)
    ensures DaysOfMonth(all, month, Days(Scoped(all, ByMonth(month))))
  {
    forall l | l in all ensures DayOf(l) in Days(Scoped(all, ByMonth(month))) <==> MonthOf(l) == month {
      if DayOf(l) in Days(Scoped(all, ByMonth(month))) {
        var m :| m in Scoped(all, ByMonth(month)) && DayOf(m) == DayOf(l);
        MonthInDay(l);
        MonthInDay(m);
      }
    }
  }

  lemma MonthInDay(l: LedgerLine)
    ensures MonthOf(l) == Head(DayOf(l), 7)
  {
  }

  // ----- One more line -----

  /** The first `n` characters of the timestamp, all of them when there are fewer. */
  ghost predicate Dated(timestamp: string, n: nat, date: string) {
    if |timestamp| <= n then date == timestamp else |date| == n && date <= timestamp
  }

  ghost predicate Covers(scope: Scope, l: LedgerLine) {
    match scope
    case BySession(s) => l.session == s
    case ByDay(d) => Dated(l.timestamp, 10, d)
    case ByMonth(m) => Dated(l.timestamp, 7, m)
    case WholeCorpus => true
  }

  const NO_SESSION := SessionRollup(0, 0.0, 0.0)
  const NO_DOCUMENT := DocumentRollup(0, 0.0, 0.0, 0.0)
  const NO_LINES := Rollup(0, 0, 0.0, 0.0, 0.0, 0.0, map[], map[], Bands(0, 0, 0, 0))

  /** An ask line counts as a line, as an ask of its session and in its confidence band, and nowhere else. */
  ghost function WithAsk(r: Rollup, l: LedgerLine): Rollup {
    var s := if l.session in r.sessions then r.sessions[l.session] else NO_SESSION;
    r.(lines := r.lines + 1, asks := r.asks + 1,
       sessions := r.sessions[l.session := s.(asks := s.asks + 1)],
       bands := match l.confidence
                case Some(High) => r.bands.(high := r.bands.high + 1)
                case Some(Medium) => r.bands.(medium := r.bands.medium + 1)
                case Some(Low) => r.bands.(low := r.bands.low + 1)
                case None => r.bands.(unrated := r.bands.unrated + 1))
  }

  /** A serve or zoom line enters every total, its session's row, and its document's when it names one. */
  ghost function WithRead(r: Rollup, l: LedgerLine): Rollup {
    var s := if l.session in r.sessions then r.sessions[l.session] else NO_SESSION;
    r.(lines := r.lines + 1,
       raw := r.raw + l.rawTokens, served := r.served + l.servedTokens,
       avoided := r.avoided + l.avoidedTokens, cost := r.cost + l.costAvoided,
       sessions := r.sessions[l.session := SessionRollup(s.asks, s.avoided + l.avoidedTokens, s.cost + l.costAvoided)],
       documents :=
         if l.document.None? then r.documents
         else
           var d := if l.document.value in r.documents then r.documents[l.document.value] else NO_DOCUMENT;
           r.documents[l.document.value := DocumentRollup(
             d.readCount + 1, d.raw + l.rawTokens, d.avoided + l.avoidedTokens, d.cost + l.costAvoided)])
  }

  /** What one more line does to a rollup; with the rollup of no lines this determines every figure. */
  lemma OneMoreLine(all: seq<LedgerLine>, l: LedgerLine, scope: Scope)
    ensures RollupOf([], scope) == NO_LINES
    ensures RollupOf(all + [l], scope) ==
      if !Covers(scope, l) then RollupOf(all, scope)
      else if l.kind == Ask then WithAsk(RollupOf(all, scope), l)
      else WithRead(RollupOf(all, scope), l)
  {
    FilterAppend(all, [l], x => InScope(x, scope));
    var lines := Scoped(all, scope);
    NothingRolledUp();
    hide Summary;
    if Covers(scope, l) {
      assert Scoped(all + [l], scope) == lines + [l];
      if l.kind == Ask {
        OneMoreAsk(lines, l);
      } else {
        OneMoreRead(lines, l);
      }
    } else {
      assert Scoped(all + [l], scope) == lines;
    }
  }

  lemma OneMoreAsk(lines: seq<LedgerLine>, l: LedgerLine)
    requires l.kind == Ask
    ensures Summary(lines + [l]) == WithAsk(Summary(lines), l)
  {
    CountsOneMore(lines, l);
    SessionsOneMore(lines, l);
    hide Total;
    hide Sessions;
    hide Documents;
    hide CountBand;
    hide AskCount;
    hide Counted;
  }

  lemma OneMoreRead(lines: seq<LedgerLine>, l: LedgerLine)
    requires l.kind != Ask
    ensures Summary(lines + [l]) == WithRead(Summary(lines), l)
  {
    CountsOneMore(lines, l);
    SessionsOneMore(lines, l);
    TotalSnoc(Counted(lines), l, RawTokens);
    TotalSnoc(Counted(lines), l, ServedTokens);
    TotalSnoc(Counted(lines), l, AvoidedTokens);
    TotalSnoc(Counted(lines), l, CostAvoided);
    DocumentsOneMore(Counted(lines), l);
    hide Total;
    hide Sessions;
    hide Documents;
    hide CountBand;
    hide AskCount;
    hide Counted;
  }

  lemma NothingRolledUp()
    ensures Summary([]) == NO_LINES
  {
  }

  lemma CountsOneMore(lines: seq<LedgerLine>, l: LedgerLine)
    ensures AskCount(lines + [l]) == AskCount(lines) + (if l.kind == Ask then 1 else 0)
    ensures Counted(lines + [l]) == if l.kind == Ask then Counted(lines) else Counted(lines) + [l]
    ensures forall band :: CountBand(lines + [l], band) == CountBand(lines, band) + (if AskWith(l, band) then 1 else 0)
  {
    AskCountSnoc(lines, l);
    CountedSnoc(lines, l);
    forall band ensures CountBand(lines + [l], band) == CountBand(lines, band) + (if AskWith(l, band) then 1 else 0) {
      FilterAppend(lines, [l], x => AskWith(x, band));
    }
  }

  lemma SessionsOneMore(lines: seq<LedgerLine>, l: LedgerLine)
    ensures Sessions(lines + [l]) ==
      Sessions(lines)[l.session := AddToSession(if l.session in Sessions(lines) then Sessions(lines)[l.session] else NO_SESSION, l)]
  {
    assert (lines + [l])[..|lines|] == lines;
  }

  lemma DocumentsOneMore(counted: seq<LedgerLine>, l: LedgerLine)
    ensures Documents(counted + [l]) ==
      var before := Documents(counted);
      if l.document.None? then before
      else before[l.document.value := AddToDocument(if l.document.value in before then before[l.document.value] else NO_DOCUMENT, l)]
  {
    assert (counted + [l])[..|counted|] == counted;
  }
}
