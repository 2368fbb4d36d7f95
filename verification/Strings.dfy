/** JavaScript string operations, on sequences of characters. */
module Strings {

  /** White space and line terminators of ECMAScript. */
  predicate IsSpace(c: char) {
    c in " \t\n\r" || c == '\U{0B}' || c == '\U{0C}' || c == '\U{A0}' || c == '\U{FEFF}'
    || c == '\U{1680}' || '\U{2000}' <= c <= '\U{200A}' || c in "\U{2028}\U{2029}\U{202F}\U{205F}\U{3000}"
  }

  function TrimStart(s: string): (r: string)
    ensures |r| <= |s|
  {
    if s != "" && IsSpace(s[0]) then TrimStart(s[1..]) else s
  }

  function TrimEnd(s: string): (r: string)
    ensures |r| <= |s|
  {
    if s != "" && IsSpace(s[|s| - 1]) then TrimEnd(s[..|s| - 1]) else s
  }

  function Trim(s: string): (r: string)
    ensures |r| <= |s|
  {
    TrimEnd(TrimStart(s))
  }

  ghost predicate AllSpace(s: string) {
    forall c :: c in s ==> IsSpace(c)
  }

  /** `t` is `s` without the white space around it. */
  ghost predicate TrimsTo(s: string, t: string) {
    && (exists before, after :: s == before + t + after && AllSpace(before) && AllSpace(after))
    && (t != "" ==> !IsSpace(t[0]) && !IsSpace(t[|t| - 1]))
  }

  lemma {:induction false} TrimStartCuts(s: string) returns (before: string)
    ensures s == before + TrimStart(s) && AllSpace(before)
    ensures TrimStart(s) != "" ==> !IsSpace(TrimStart(s)[0])
  {
    if s != "" && IsSpace(s[0]) {
      var rest := TrimStartCuts(s[1..]);
      before := [s[0]] + rest;
      assert s == [s[0]] + s[1..];
    } else {
      before := "";
    }
  }

  lemma TrimEndUnfolds(s: string)
    ensures TrimEnd(s) == if s != "" && IsSpace(s[|s| - 1]) then TrimEnd(s[..|s| - 1]) else s
  {
  }

  lemma {:induction false} TrimEndCuts(s: string) returns (after: string)
    ensures s == TrimEnd(s) + after && AllSpace(after)
    ensures TrimEnd(s) != "" ==> !IsSpace(TrimEnd(s)[|TrimEnd(s)| - 1])
  {
    hide IsSpace;
    hide TrimEnd;
    TrimEndUnfolds(s);
    if s != "" && IsSpace(s[|s| - 1]) {
      var n := |s| - 1;
      var rest := TrimEndCuts(s[..n]);
      after := rest + [s[n]];
      SplitsLater(s, TrimEnd(s), rest);
    } else {
      after := "";
    }
  }

  lemma SplitsLater(s: string, front: string, rest: string)
    requires s != "" && s[..|s| - 1] == front + rest
    ensures s == front + (rest + [s[|s| - 1]])
  {
    assert s == s[..|s| - 1] + [s[|s| - 1]];
  }

  lemma TrimIsTrimmed(s: string)
    ensures TrimsTo(s, Trim(s))
  {
    hide IsSpace;
    var before := TrimStartCuts(s);
    var after := TrimEndCuts(TrimStart(s));
    hide TrimStart;
    hide TrimEnd;
    assert s == before + Trim(s) + after;
    assert Trim(s) != "" ==> TrimStart(s)[0] == Trim(s)[0];
  }

  /** What a string trims to is unique. */
  lemma TrimsToExactly(s: string, t: string)
    ensures TrimsTo(s, t) <==> t == Trim(s)
  {
    hide IsSpace;
    TrimIsTrimmed(s);
    if TrimsTo(s, t) {
      var b1, a1 :| s == b1 + t + a1 && AllSpace(b1) && AllSpace(a1);
      var r := Trim(s);
      hide Trim;
      var b2, a2 :| s == b2 + r + a2 && AllSpace(b2) && AllSpace(a2);
      SameTrim(s, b1, t, a1, b2, r, a2);
    }
  }

  lemma SameTrim(s: string, b1: string, t: string, a1: string, b2: string, r: string, a2: string)
    requires s == b1 + t + a1 == b2 + r + a2
    requires AllSpace(b1) && AllSpace(a1) && AllSpace(b2) && AllSpace(a2)
    requires t != "" ==> !IsSpace(t[0]) && !IsSpace(t[|t| - 1])
    requires r != "" ==> !IsSpace(r[0]) && !IsSpace(r[|r| - 1])
    ensures t == r
  {
    hide IsSpace;
    if t != "" {
      FirstInk(s, b1, t, a1, b2, r, a2);
    }
    if r != "" {
      FirstInk(s, b2, r, a2, b1, t, a1);
    }
    if t != "" && r != "" {
      assert |b1| == |b2| && |a1| == |a2|;
      assert t == s[|b1|..|s| - |a1|] == r;
    }
  }

  /** The ink of one split starts and ends within the ink of any other. */
  lemma FirstInk(s: string, b1: string, t: string, a1: string, b2: string, r: string, a2: string)
    requires s == b1 + t + a1 == b2 + r + a2 && t != ""
    requires AllSpace(b2) && AllSpace(a2) && !IsSpace(t[0]) && !IsSpace(t[|t| - 1])
    ensures r != "" && |b2| <= |b1| && |a2| <= |a1|
  {
    hide IsSpace;
    SpacesAround(s, b2, r, a2);
    assert s[|b1|] == t[0] && s[|b1| + |t| - 1] == t[|t| - 1];
    hide AllSpace;
  }

  lemma SpacesAround(s: string, before: string, t: string, after: string)
    requires s == before + t + after && AllSpace(before) && AllSpace(after)
    ensures forall i :: 0 <= i < |before| || |before| + |t| <= i < |s| ==> IsSpace(s[i])
  {
    hide IsSpace;
    forall i | 0 <= i < |before| || |before| + |t| <= i < |s| ensures IsSpace(s[i]) {
      if i < |before| {
        assert s[i] == before[i];
      } else {
        assert s[i] == after[i - |before| - |t|];
      }
    }
  }

  lemma BlankTrims(s: string)
    ensures Trim(s) == "" <==> AllSpace(s)
  {
    hide IsSpace;
    TrimIsTrimmed(s);
    TrimsToExactly(s, "");
    hide Trim;
    if AllSpace(s) {
      assert s == s + "" + "" && AllSpace("");
    }
    if TrimsTo(s, "") {
      var before, after :| s == before + "" + after && AllSpace(before) && AllSpace(after);
      assert forall c :: c in s ==> c in before || c in after;
    }
  }

  predicate StartsWith(s: string, prefix: string) {
    |prefix| <= |s| && s[..|prefix|] == prefix
  }

  predicate EndsWith(s: string, suffix: string) {
    |suffix| <= |s| && s[|s| - |suffix|..] == suffix
  }

  /** `s.includes(part)` */
  predicate Includes(s: string, part: string) {
    StartsWith(s, part) || (s != "" && Includes(s[1..], part))
  }

  // ----- Lines -----

  const NL := "\n"

  /** `s.split('\n')` */
  function Split(s: string): (r: seq<string>)
    ensures |r| >= 1
  {
    if s == "" then [""]
    else
      var rest := Split(s[1..]);
      if s[0] == '\n' then [""] + rest else [[s[0]] + rest[0]] + rest[1..]
  }

  /** `lines.join('\n')` */
  function Join(lines: seq<string>): string {
    if lines == [] then ""
    else if |lines| == 1 then lines[0]
    else lines[0] + NL + Join(lines[1..])
  }

  lemma {:induction false} JoinSplit(s: string)
    ensures Join(Split(s)) == s
  {
    if s != "" {
      var rest := Split(s[1..]);
      JoinSplit(s[1..]);
      if s[0] == '\n' {
        assert ([""] + rest)[1..] == rest;
        assert s == "" + NL + s[1..];
      } else {
        assert ([[s[0]] + rest[0]] + rest[1..])[1..] == rest[1..];
        if |rest| == 1 {
          assert Split(s) == [[s[0]] + rest[0]];
        }
        assert s == [s[0]] + s[1..];
      }
    }
  }

  lemma {:induction false} JoinAppend(a: seq<string>, b: seq<string>)
    requires a != [] && b != []
    ensures Join(a + b) == Join(a) + NL + Join(b)
  {
    assert (a + b)[1..] == a[1..] + b;
    if |a| == 1 {
      assert a[1..] + b == b;
    } else {
      JoinAppend(a[1..], b);
    }
  }
}
