/** Quoting and wrapping of commands for the pipe (packages/hooks/src/pipe-allowlist.ts). */
module PipeQuoting {
  import opened Common
  import opened Strings

  const QUOTE := '\''
  const BACKSLASH := '\\'

  /** `s.replace(/'/g, replacement)` */
  function ReplaceQuotes(s: string, replacement: string): string {
    if s == "" then ""
    else (if s[0] == QUOTE then replacement else [s[0]]) + ReplaceQuotes(s[1..], replacement)
  }

  const POSIX_ESCAPE := [QUOTE, BACKSLASH, QUOTE, QUOTE]
  const POWERSHELL_ESCAPE := [QUOTE, QUOTE]

  function ShellQuote(s: string): string {
    [QUOTE] + ReplaceQuotes(s, POSIX_ESCAPE) + [QUOTE]
  }

  function ShellQuotePowerShell(s: string): string {
    [QUOTE] + ReplaceQuotes(s, POWERSHELL_ESCAPE) + [QUOTE]
  }

  // ----- The POSIX word parser -----

  /**
   * IEEE Std 1003.1, Shell Command Language: a backslash outside quotes preserves the next
   * character (section 2.2.1, a backslash-newline being removed), single quotes preserve everything
   * up to the next single quote (section 2.2.2), and blanks separate words. Any other character the
   * shell treats specially outside quotes puts the text beyond simple words.
   */
  datatype Mode = Outside | Escaped | Inside | Rejected

  datatype Parser = Parser(mode: Mode, words: seq<string>, current: Option<string>)

  const START := Parser(Outside, [], None)

  predicate Separates(c: char) {
    c == ' ' || c == '\t'
  }

  predicate Special(c: char) {
    c in "|&;<>()$`\"*?[#~=%\n"
  }

  function Taken(p: Parser, c: char): Parser {
    p.(current := Some((if p.current.Some? then p.current.value else "") + [c]))
  }

  function EndWord(p: Parser): Parser {
    if p.current.Some? then p.(words := p.words + [p.current.value], current := None) else p
  }

  function StepParser(p: Parser, c: char): Parser {
    match p.mode
    case Rejected => p
    case Inside => if c == QUOTE then p.(mode := Outside) else Taken(p, c)
    case Escaped => if c == '\n' then p.(mode := Outside) else Taken(p, c).(mode := Outside)
    case Outside =>
      if c == QUOTE then p.(mode := Inside, current := Some(if p.current.Some? then p.current.value else ""))
      else if c == BACKSLASH then p.(mode := Escaped)
      else if Separates(c) then EndWord(p)
      else if Special(c) then p.(mode := Rejected)
      else Taken(p, c)
  }

  function RunParser(p: Parser, s: string): Parser
    decreases s
  {
    if s == "" then p else RunParser(StepParser(p, s[0]), s[1..])
  }

  /** The words of a simple command, quotes removed; None when it is not one. */
  function PosixWords(s: string): Option<seq<string>> {
    var p := RunParser(START, s);
    if p.mode == Outside then Some(EndWord(p).words) else None
  }

  lemma {:induction false} RunParserAppend(p: Parser, a: string, b: string)
    ensures RunParser(p, a + b) == RunParser(RunParser(p, a), b)
    decreases a
  {
    if a == "" {
      assert a + b == b;
    } else {
      assert (a + b)[1..] == a[1..] + b;
      RunParserAppend(StepParser(p, a[0]), a[1..], b);
    }
  }

  /** Inside quotes the escaped text adds exactly the text itself. */
  lemma {:induction false} QuotedBodyIsLiteral(p: Parser, s: string)
    requires p.mode == Inside && p.current.Some?
    ensures RunParser(p, ReplaceQuotes(s, POSIX_ESCAPE)) == p.(current := Some(p.current.value + s))
    decreases s
  {
    if s == "" {
      assert p.current.value + s == p.current.value;
    } else {
      var taken := p.(current := Some(p.current.value + [s[0]]));
      var head := if s[0] == QUOTE then POSIX_ESCAPE else [s[0]];
      RunParserAppend(p, head, ReplaceQuotes(s[1..], POSIX_ESCAPE));
      if s[0] == QUOTE {
        EscapeIsOneQuote(p);
      } else {
        assert RunParser(p, head) == RunParser(StepParser(p, s[0]), "");
      }
      assert RunParser(p, head) == taken;
      QuotedBodyIsLiteral(taken, s[1..]);
      assert p.current.value + [s[0]] + s[1..] == p.current.value + s;
    }
  }

  lemma EscapeIsOneQuote(p: Parser)
    requires p.mode == Inside && p.current.Some?
    ensures RunParser(p, POSIX_ESCAPE) == p.(current := Some(p.current.value + [QUOTE]))
  {
    var p1 := StepParser(p, QUOTE);
    var p2 := StepParser(p1, BACKSLASH);
    var p3 := StepParser(p2, QUOTE);
    var p4 := StepParser(p3, QUOTE);
    var e := POSIX_ESCAPE;
    assert e[1..] == [BACKSLASH, QUOTE, QUOTE] && e[1..][1..] == [QUOTE, QUOTE] && e[1..][1..][1..] == [QUOTE];
    assert e[1..][1..][1..][1..] == "";
    assert RunParser(p, e) == RunParser(p1, e[1..]) == RunParser(p2, e[1..][1..]) == RunParser(p3, [QUOTE]) == RunParser(p4, "");
  }

  /** A quoted text at a word boundary parses as that text, whatever it contains. */
  lemma QuoteParsesAsOneWord(p: Parser, s: string)
    requires p.mode == Outside && p.current.None?
    ensures RunParser(p, ShellQuote(s)) == p.(current := Some(s))
  {
    var inQuotes := p.(mode := Inside, current := Some(""));
    var body := ReplaceQuotes(s, POSIX_ESCAPE);
    RunParserAppend(p, [QUOTE] + body, [QUOTE]);
    RunParserAppend(p, [QUOTE], body);
    assert RunParser(p, [QUOTE]) == RunParser(inQuotes, "") == inQuotes;
    QuotedBodyIsLiteral(inQuotes, s);
    assert "" + s == s;
    var inside := inQuotes.(current := Some(s));
    assert RunParser(inside, [QUOTE]) == RunParser(inside.(mode := Outside), "");
    assert ShellQuote(s) == ([QUOTE] + body) + [QUOTE];
  }

  /** For every string: unquoting what was quoted gives one word, the string itself. */
  lemma PosixUnquotesEveryString(s: string)
    ensures PosixWords(ShellQuote(s)) == Some([s])
  {
    QuoteParsesAsOneWord(START, s);
    assert RunParser(START, ShellQuote(s)) == START.(current := Some(s));
    assert [] + [s] == [s];
  }

  // ----- The PowerShell verbatim string -----

  /** PowerShell ends verbatim strings at the apostrophe and at its typographic forms alike. */
  predicate PowerShellQuote(c: char) {
    c == QUOTE || '\U{2018}' <= c <= '\U{201B}'
  }

  /** The text of a verbatim string body up to its closing quote, a doubled quote being one. */
  function VerbatimBody(s: string): Option<string>
    decreases |s|
  {
    if s == "" then None
    else if PowerShellQuote(s[0]) then
      if |s| == 1 then Some("")
      else if !PowerShellQuote(s[1]) then None
      else
        var rest := VerbatimBody(s[2..]);
        if rest.None? then None else Some([s[0]] + rest.value)
    else
      var rest := VerbatimBody(s[1..]);
      if rest.None? then None else Some([s[0]] + rest.value)
  }

  /** The value of `s` as a single verbatim string and nothing else. */
  function PowerShellLiteral(s: string): Option<string> {
    if s == "" || !PowerShellQuote(s[0]) then None else VerbatimBody(s[1..])
  }

  /** None of the four single quotation marks PowerShell reads as an apostrophe. */
  ghost predicate NoTypographicQuotes(s: string) {
    forall c :: c in s ==> c != '\U{2018}' && c != '\U{2019}' && c != '\U{201A}' && c != '\U{201B}'
  }

  lemma {:induction false} VerbatimBodyOf(s: string)
    requires NoTypographicQuotes(s)
    ensures VerbatimBody(ReplaceQuotes(s, POWERSHELL_ESCAPE) + [QUOTE]) == Some(s)
  {
    if s != "" {
      var rest := ReplaceQuotes(s[1..], POWERSHELL_ESCAPE) + [QUOTE];
      assert forall c :: c in s[1..] ==> c in s;
      VerbatimBodyOf(s[1..]);
      var body := ReplaceQuotes(s, POWERSHELL_ESCAPE) + [QUOTE];
      assert s[0] in s;
      assert s[0] == QUOTE || !PowerShellQuote(s[0]);
      hide NoTypographicQuotes;
      assert s == [s[0]] + s[1..];
      if s[0] == QUOTE {
        assert body == [QUOTE, QUOTE] + rest;
        assert body[2..] == rest;
      } else {
        assert body == [s[0]] + rest;
        assert body[1..] == rest;
      }
    }
  }

  /** A typographic quote left undoubled ends the string early or swallows its neighbour. */
  lemma {:induction false} TypographicQuotesShorten(s: string)
    ensures var r := VerbatimBody(ReplaceQuotes(s, POWERSHELL_ESCAPE) + [QUOTE]);
      r.Some? ==> |r.value| <= |s| && (!NoTypographicQuotes(s) ==> |r.value| < |s|)
    decreases |s|
  {
    if s != "" {
      var rest := ReplaceQuotes(s[1..], POWERSHELL_ESCAPE) + [QUOTE];
      var body := ReplaceQuotes(s, POWERSHELL_ESCAPE) + [QUOTE];
      TypographicQuotesShorten(s[1..]);
      assert s == [s[0]] + s[1..];
      if s[0] == QUOTE {
        assert body == [QUOTE, QUOTE] + rest && body[2..] == rest;
      } else if PowerShellQuote(s[0]) {
        assert body == [s[0]] + rest;
        UndoubledQuote(s[0], s[1..]);
      } else {
        assert body == [s[0]] + rest && body[1..] == rest;
      }
    }
  }

  lemma UndoubledQuote(q: char, tail: string)
    requires PowerShellQuote(q) && q != QUOTE
    ensures var r := VerbatimBody([q] + (ReplaceQuotes(tail, POWERSHELL_ESCAPE) + [QUOTE]));
      r.Some? ==> |r.value| < |tail| + 1
    decreases |tail|, 1
  {
    var after := ReplaceQuotes(tail, POWERSHELL_ESCAPE) + [QUOTE];
    var body := [q] + after;
    assert body[1..] == after;
    if tail == "" {
      assert body == [q, QUOTE] && body[2..] == "";
    } else if tail[0] == QUOTE {
      var rest := ReplaceQuotes(tail[1..], POWERSHELL_ESCAPE) + [QUOTE];
      assert body == [q, QUOTE] + ([QUOTE] + rest) && body[2..] == [QUOTE] + rest;
      StrayQuote(tail[1..]);
    } else if PowerShellQuote(tail[0]) {
      var rest := ReplaceQuotes(tail[1..], POWERSHELL_ESCAPE) + [QUOTE];
      assert body == [q, tail[0]] + rest && body[2..] == rest;
      VerbatimBodyLength(tail[1..]);
    }
  }

  /** After an odd quote the pairing is off by one. */
  lemma StrayQuote(tail: string)
    ensures var r := VerbatimBody([QUOTE] + (ReplaceQuotes(tail, POWERSHELL_ESCAPE) + [QUOTE]));
      r.Some? ==> |r.value| <= |tail|
    decreases |tail|, 0
  {
    var after := ReplaceQuotes(tail, POWERSHELL_ESCAPE) + [QUOTE];
    var body := [QUOTE] + after;
    assert body[1..] == after;
    if tail == "" {
      assert body == [QUOTE, QUOTE] && body[2..] == "";
    } else if tail[0] == QUOTE {
      var rest := ReplaceQuotes(tail[1..], POWERSHELL_ESCAPE) + [QUOTE];
      assert body == [QUOTE, QUOTE] + ([QUOTE] + rest) && body[2..] == [QUOTE] + rest;
      StrayQuote(tail[1..]);
    } else if PowerShellQuote(tail[0]) {
      var rest := ReplaceQuotes(tail[1..], POWERSHELL_ESCAPE) + [QUOTE];
      assert body == [QUOTE, tail[0]] + rest && body[2..] == rest;
      VerbatimBodyLength(tail[1..]);
    }
  }

  lemma VerbatimBodyLength(s: string)
    ensures var r := VerbatimBody(ReplaceQuotes(s, POWERSHELL_ESCAPE) + [QUOTE]);
      r.Some? ==> |r.value| <= |s|
    decreases |s|, 0
  {
    if s != "" {
      var rest := ReplaceQuotes(s[1..], POWERSHELL_ESCAPE) + [QUOTE];
      var body := ReplaceQuotes(s, POWERSHELL_ESCAPE) + [QUOTE];
      VerbatimBodyLength(s[1..]);
      if s[0] == QUOTE {
        assert body == [QUOTE, QUOTE] + rest && body[2..] == rest;
      } else if PowerShellQuote(s[0]) {
        assert body == [s[0]] + rest;
        UndoubledQuote(s[0], s[1..]);
      } else {
        assert body == [s[0]] + rest && body[1..] == rest;
      }
    }
  }

  /** The doubling form is undone exactly for the strings without typographic quotes. */
  lemma PowerShellUnquotesExactly(s: string)
    ensures PowerShellLiteral(ShellQuotePowerShell(s)) == Some(s) <==> NoTypographicQuotes(s)
  {
    assert ShellQuotePowerShell(s)[1..] == ReplaceQuotes(s, POWERSHELL_ESCAPE) + [QUOTE];
    if NoTypographicQuotes(s) {
      VerbatimBodyOf(s);
    } else {
      TypographicQuotesShorten(s);
    }
  }

  // ----- The rewrite decision -----

  const LAUNCHER_REL := ".claude/redutok/pipe.mjs"
  const DEFAULT_PIPE_INVOKE := "node .claude/redutok/pipe.mjs"

  datatype Shell = Posix | PowerShell

  function Quote(shell: Shell, s: string): string {
    if shell == PowerShell then ShellQuotePowerShell(s) else ShellQuote(s)
  }

  /**
   * An allowlist with its expressions applied: how many leading characters the one `cd` prefix
   * matches, whether a deny rule matches the masked tail, and the first allow rule matching it.
   */
  datatype Allowlist = Allowlist(
    invoke: string,
    cdPrefix: string -> nat,
    denies: string -> bool,
    allows: string -> Option<string>
  )

  /** A matched prefix is a prefix of the command. */
  function PrefixLength(list: Allowlist, command: string): (n: nat)
    ensures n <= |command|
  {
    if list.cdPrefix(command) <= |command| then list.cdPrefix(command) else |command|
  }

  datatype Decision = Decision(rule: string, command: string)

  /** `anchor` is the launcher joined to the project root, when there is one. */
  function InvokeFor(list: Allowlist, shell: Shell, anchor: Option<string>): string {
    if anchor.Some? && list.invoke == DEFAULT_PIPE_INVOKE then "node " + Quote(shell, anchor.value) else list.invoke
  }

  predicate AlreadyWrapped(list: Allowlist, command: string) {
    Includes(command, "redutok-pipe") || Includes(command, list.invoke) || Includes(command, LAUNCHER_REL)
  }

  function DecideRewrite(command: string, list: Allowlist, shell: Shell, anchor: Option<string>): Option<Decision> {
    if AlreadyWrapped(list, command) then None
    else
      var prefix := command[..PrefixLength(list, command)];
      var tail := command[PrefixLength(list, command)..];
      if list.denies(tail) || list.allows(tail).None? then None
      else Some(Decision(list.allows(tail).value, prefix + InvokeFor(list, shell, anchor) + " -c " + Quote(shell, tail)))
  }

  lemma {:induction false} IncludesWithin(before: string, part: string, after: string)
    ensures Includes(before + part + after, part)
  {
    var s := before + part + after;
    if before == "" {
      assert s[..|part|] == part;
    } else {
      IncludesWithin(before[1..], part, after);
      assert s[1..] == before[1..] + part + after;
    }
  }

  lemma {:induction false} NothingToReplace(s: string, replacement: string)
    requires QUOTE !in s
    ensures ReplaceQuotes(s, replacement) == s
  {
    if s != "" {
      assert s[0] in s;
      NothingToReplace(s[1..], replacement);
      assert s == [s[0]] + s[1..];
    }
  }

  lemma {:induction false} ReplaceAppend(a: string, b: string, replacement: string)
    ensures ReplaceQuotes(a + b, replacement) == ReplaceQuotes(a, replacement) + ReplaceQuotes(b, replacement)
  {
    if a == "" {
      assert a + b == b;
    } else {
      assert (a + b)[1..] == a[1..] + b;
      ReplaceAppend(a[1..], b, replacement);
    }
  }

  /** Quoting a path that ends in a plain name leaves the name readable in it. */
  lemma QuotedPathNamesItsEnd(shell: Shell, root: string, name: string) returns (before: string, after: string)
    requires QUOTE !in name
    ensures Quote(shell, root + name) == before + name + after
  {
    hide ReplaceQuotes;
    var escape := if shell == PowerShell then POWERSHELL_ESCAPE else POSIX_ESCAPE;
    NothingToReplace(name, escape);
    ReplaceAppend(root, name, escape);
    before, after := [QUOTE] + ReplaceQuotes(root, escape), [QUOTE];
    assert Quote(shell, root + name) == [QUOTE] + ReplaceQuotes(root + name, escape) + [QUOTE];
  }

  /**
   * A rewrite is the command's own prefix, then the launcher wrapping the remainder, and is never
   * rewritten again, whatever shell or project root the second decision is made for.
   */
  lemma RewriteWrapsOnce(
    command: string, list: Allowlist, shell: Shell, anchor: Option<string>, shell': Shell, anchor': Option<string>, root: string)
    requires anchor.Some? ==> anchor.value == root + LAUNCHER_REL
    requires DecideRewrite(command, list, shell, anchor).Some?
    ensures var r := DecideRewrite(command, list, shell, anchor).value;
      && (exists prefix, tail :: command == prefix + tail && !list.denies(tail) && list.allows(tail) == Some(r.rule)
            && r.command == prefix + InvokeFor(list, shell, anchor) + " -c " + Quote(shell, tail))
      && DecideRewrite(r.command, list, shell', anchor') == None
  {
    hide Quote;
    var r := DecideRewrite(command, list, shell, anchor).value;
    var prefix, tail := command[..PrefixLength(list, command)], command[PrefixLength(list, command)..];
    assert command == prefix + tail;
    var rest := " -c " + Quote(shell, tail);
    if anchor.Some? && list.invoke == DEFAULT_PIPE_INVOKE {
      var before, after := QuotedPathNamesItsEnd(shell, root, LAUNCHER_REL);
      assert r.command == (prefix + "node " + before) + LAUNCHER_REL + (after + rest);
      IncludesWithin(prefix + "node " + before, LAUNCHER_REL, after + rest);
    } else {
      assert r.command == prefix + list.invoke + rest;
      IncludesWithin(prefix, list.invoke, rest);
    }
  }

  /**
   * What the shell hands the launcher: its own words, then `-c`, then the wrapped remainder as one
   * word, byte for byte.
   */
  lemma LauncherReceivesTheTail(invoke: string, words: seq<string>, tail: string)
    requires PosixWords(invoke) == Some(words)
    ensures PosixWords(invoke + " -c " + ShellQuote(tail)) == Some(words + ["-c", tail])
  {
    var p := RunParser(START, invoke);
    var flag := " -c ";
    RunParserAppend(START, invoke + flag, ShellQuote(tail));
    RunParserAppend(START, invoke, flag);
    var q := FlagWord(p);
    QuoteParsesAsOneWord(q, tail);
    assert words + ["-c"] + [tail] == words + ["-c", tail];
  }

  ghost predicate Plain(s: string) {
    forall c :: c in s ==> c != QUOTE && c != BACKSLASH && !Separates(c) && !Special(c)
  }

  /** Plain characters outside quotes add themselves to the word. */
  lemma {:induction false} PlainCharacters(p: Parser, s: string)
    requires p.mode == Outside && Plain(s) && s != ""
    ensures RunParser(p, s) == p.(current := Some((if p.current.Some? then p.current.value else "") + s))
    decreases s
  {
    assert s[0] in s;
    var next := Taken(p, s[0]);
    var held := if p.current.Some? then p.current.value else "";
    assert StepParser(p, s[0]) == next;
    assert s == [s[0]] + s[1..];
    if s[1..] == "" {
      assert s == [s[0]];
      assert RunParser(p, s) == RunParser(next, s[1..]) == next;
    } else {
      assert forall c :: c in s[1..] ==> c in s;
      PlainCharacters(next, s[1..]);
      assert held + [s[0]] + s[1..] == held + s;
    }
  }

  /** A plain word and the blank that ends it. */
  lemma PlainWord(p: Parser, s: string)
    requires p.mode == Outside && p.current.None? && Plain(s) && s != ""
    ensures RunParser(p, s + " ") == p.(words := p.words + [s])
  {
    RunParserAppend(p, s, " ");
    PlainCharacters(p, s);
    assert "" + s == s;
    OneBlank(p.(current := Some(s)));
  }

  lemma OneBlank(p: Parser)
    requires p.mode == Outside
    ensures RunParser(p, " ") == EndWord(p)
  {
    assert " "[1..] == "";
    assert RunParser(p, " ") == RunParser(StepParser(p, ' '), "");
  }

  lemma FlagWord(p: Parser) returns (q: Parser)
    requires p.mode == Outside
    ensures q == RunParser(p, " -c ")
    ensures q == Parser(Outside, EndWord(p).words + ["-c"], None)
  {
    RunParserAppend(p, " ", "-c ");
    OneBlank(p);
    assert "-c" + " " == "-c ";
    PlainWord(EndWord(p), "-c");
    assert " " + "-c " == " -c ";
    q := RunParser(p, " -c ");
  }

  /** The anchored launcher is two words, the path whole whatever it contains. */
  lemma AnchoredInvokeWords(path: string)
    ensures PosixWords("node " + ShellQuote(path)) == Some(["node", path])
  {
    hide ShellQuote;
    hide RunParser;
    RunParserAppend(START, "node ", ShellQuote(path));
    assert "node" + " " == "node ";
    PlainWord(START, "node");
    var q := START.(words := START.words + ["node"]);
    QuoteParsesAsOneWord(q, path);
    assert START.words + ["node"] + [path] == ["node", path];
  }

  // ----- Exactly which commands are rewritten, and to what -----

  /** `part` occurs in `s`. */
  ghost predicate Mentions(s: string, part: string) {
    exists before, after :: s == before + part + after
  }

  lemma {:induction false} IncludesExactly(s: string, part: string)
    ensures Includes(s, part) <==> Mentions(s, part)
  {
    if Includes(s, part) {
      if StartsWith(s, part) {
        assert s == "" + part + s[|part|..];
      } else {
        IncludesExactly(s[1..], part);
        MentionsLater(s, part);
      }
    }
    if before, after :| s == before + part + after {
      IncludesWithin(before, part, after);
    }
  }

  lemma MentionsLater(s: string, part: string)
    requires s != "" && Mentions(s[1..], part)
    ensures Mentions(s, part)
  {
    var before, after :| s[1..] == before + part + after;
    assert s == ([s[0]] + before) + part + after;
  }

  /** The command the launcher is started by: anchored to the project root when it is the shipped one. */
  ghost predicate StartedBy(list: Allowlist, shell: Shell, anchor: Option<string>, invoke: string) {
    if anchor.Some? && list.invoke == "node .claude/redutok/pipe.mjs"
    then invoke == "node " + (if shell.Posix? then ShellQuote(anchor.value) else ShellQuotePowerShell(anchor.value))
    else invoke == list.invoke
  }

  /**
   * A command is rewritten if and only if it names no launcher yet, no deny rule matches what
   * follows its `cd` prefix and some allow rule does. The rewrite keeps that prefix and nothing
   * more, and hands the rest to the launcher quoted for the shell.
   */
  lemma RewritesExactly(command: string, list: Allowlist, shell: Shell, anchor: Option<string>)
    requires list.cdPrefix(command) <= |command|
    ensures var cut := list.cdPrefix(command);
      var tail, d := command[cut..], DecideRewrite(command, list, shell, anchor);
      && (d.Some? <==>
           && !Mentions(command, "redutok-pipe") && !Mentions(command, list.invoke)
           && !Mentions(command, ".claude/redutok/pipe.mjs")
           && !list.denies(tail) && list.allows(tail).Some?)
      && (d.Some? ==>
           && list.allows(tail) == Some(d.value.rule)
           && exists invoke :: StartedBy(list, shell, anchor, invoke)
                && d.value.command == command[..cut] + invoke + " -c "
                     + (if shell.Posix? then ShellQuote(tail) else ShellQuotePowerShell(tail)))
  {
    IncludesExactly(command, "redutok-pipe");
    IncludesExactly(command, list.invoke);
    IncludesExactly(command, LAUNCHER_REL);
    hide Includes;
    hide Mentions;
    hide ShellQuote;
    hide ShellQuotePowerShell;
    assert StartedBy(list, shell, anchor, InvokeFor(list, shell, anchor));
  }
}
