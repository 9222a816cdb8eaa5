/**
  Lowercasing, one character at a time. A character may become several (a dotted
  capital I does); what matters is that no character with a meaning to the
  command-line readers appears or disappears.
*/
module Lowercase {
  import opened Text
  import opened CommandLine

  type CaseMap = char -> string

  /** Characters that split, quote or classify arguments. */
  predicate IsSyntax(c: char) {
    c == BACKSLASH || c == QUOTE || c == '-' || c == '=' || IsWhitespace(c)
  }

  ghost predicate RespectsSyntax(lower: CaseMap) {
    && (forall c | IsSyntax(c) :: lower(c) == [c])
    && (forall c | !IsSyntax(c) :: lower(c) != [] && forall d | d in lower(c) :: !IsSyntax(d))
    && (forall c, d | d in lower(c) :: lower(d) == [d])
  }

  /** The map for ASCII text, as one that respects the syntax. */
  function AsciiLower(c: char): string {
    if 'A' <= c <= 'Z' then [c - 'A' + 'a'] else [c]
  }

  lemma AsciiLowerRespectsSyntax()
    ensures RespectsSyntax(AsciiLower)
  {
  }

  function Lower(lower: CaseMap, s: string): string {
    if s == [] then [] else lower(s[0]) + Lower(lower, s[1..])
  }

  function LowerEach(lower: CaseMap, args: seq<string>): (lowered: seq<string>)
    ensures |lowered| == |args|
  {
    seq(|args|, i requires 0 <= i < |args| => Lower(lower, args[i]))
  }

  lemma {:induction false} LowerAppends(lower: CaseMap, s: string, t: string)
    ensures Lower(lower, s + t) == Lower(lower, s) + Lower(lower, t)
    decreases |s|
  {
    if s == [] {
      assert s + t == t;
    } else {
      assert (s + t)[1..] == s[1..] + t;
      LowerAppends(lower, s[1..], t);
    }
  }

  lemma LowerOne(lower: CaseMap, c: char)
    ensures Lower(lower, [c]) == lower(c)
  {
    assert [c][1..] == [];
  }

  lemma {:induction false} LowerOnFixed(lower: CaseMap, s: string)
    requires forall c | c in s :: lower(c) == [c]
    ensures Lower(lower, s) == s
    decreases |s|
  {
    if s != [] {
      LowerOnFixed(lower, s[1..]);
    }
  }

  lemma {:induction false} LowerHolds(lower: CaseMap, s: string, d: char)
    requires RespectsSyntax(lower) && d in Lower(lower, s)
    ensures lower(d) == [d]
    decreases |s|
  {
    if d !in lower(s[0]) {
      LowerHolds(lower, s[1..], d);
    }
  }

  lemma {:induction false} LowerIsIdempotent(lower: CaseMap, s: string)
    requires RespectsSyntax(lower)
    ensures Lower(lower, Lower(lower, s)) == Lower(lower, s)
  {
    forall d | d in Lower(lower, s) ensures lower(d) == [d] {
      LowerHolds(lower, s, d);
    }
    LowerOnFixed(lower, Lower(lower, s));
  }

  /** Lowercasing neither adds nor removes a syntax character. */
  lemma {:induction false} LowerKeepsSyntax(lower: CaseMap, s: string, c: char)
    requires RespectsSyntax(lower) && IsSyntax(c)
    ensures c in Lower(lower, s) <==> c in s
    decreases |s|
  {
    if s != [] {
      LowerKeepsSyntax(lower, s[1..], c);
    }
  }

  lemma {:induction false} LowerKeepsFirst(lower: CaseMap, s: string, c: char)
    requires RespectsSyntax(lower) && IsSyntax(c)
    ensures s == [] <==> Lower(lower, s) == []
    ensures s != [] && s[0] == c <==> Lower(lower, s) != [] && Lower(lower, s)[0] == c
  {
    if s != [] && !IsSyntax(s[0]) {
      assert lower(s[0])[0] in lower(s[0]);
    }
  }

  // ---- lowercasing a command line ----

  /** A character that means nothing to the tokenizer. */
  predicate IsPlain(c: char) {
    c != BACKSLASH && c != QUOTE && !IsWhitespace(c)
  }

  lemma {:induction false} ScanPlainRun(run: string, rest: string, token: string, quoted: bool, started: bool)
    requires run != [] && forall c | c in run :: IsPlain(c)
    ensures Scan(run + rest, token, quoted, started) == Scan(rest, token + run, quoted, true)
    decreases |run|
  {
    var c, tail := run[0], run[1..];
    assert c in run && run + rest == [c] + (tail + rest);
    ScanPlain(c, tail + rest, token, quoted, started);
    if tail == [] {
      assert tail + rest == rest && token + run == token + [c];
    } else {
      ScanPlainRun(tail, rest, token + [c], quoted, true);
      assert token + run == token + [c] + tail;
    }
  }

  lemma {:induction false} ScanLowered(lower: CaseMap, s: string, token: string, quoted: bool, started: bool)
    requires RespectsSyntax(lower) && (!started ==> token == [])
    ensures Scan(Lower(lower, s), Lower(lower, token), quoted, started) ==
            LowerEach(lower, Scan(s, token, quoted, started))
    decreases |s|
  {
    if s == [] {
    } else if s[0] == BACKSLASH {
      ScanLoweredBackslashes(lower, s, token, quoted, started);
    } else if s[0] == QUOTE {
      var tail := s[1..];
      assert Lower(lower, s) == [QUOTE] + Lower(lower, tail);
      assert Lower(lower, s)[1..] == Lower(lower, tail);
      ScanLowered(lower, tail, token, !quoted, true);
    } else if IsWhitespace(s[0]) && !quoted {
      ScanLoweredSpace(lower, s, token, started);
    } else {
      ScanLoweredChar(lower, s, token, quoted, started);
    }
  }

  lemma LowerEachAppends(lower: CaseMap, a: seq<string>, b: seq<string>)
    ensures LowerEach(lower, a + b) == LowerEach(lower, a) + LowerEach(lower, b)
  {
  }

  lemma {:induction false} ScanLoweredSpace(lower: CaseMap, s: string, token: string, started: bool)
    requires RespectsSyntax(lower) && (!started ==> token == [])
    requires s != [] && IsWhitespace(s[0])
    ensures Scan(Lower(lower, s), Lower(lower, token), false, started) ==
            LowerEach(lower, Scan(s, token, false, started))
    decreases |s|, 0
  {
    var c, tail := s[0], s[1..];
    var ended := if started then [token] else [];
    assert s == [c] + tail;
    ScanSpace(c, tail, token, started);
    ScanSpace(c, Lower(lower, tail), Lower(lower, token), started);
    ScanLowered(lower, tail, [], false, false);
    LowerEachAppends(lower, ended, Tokens(tail));
    assert LowerEach(lower, ended) == if started then [Lower(lower, token)] else [];
  }

  lemma {:induction false} ScanLoweredChar(lower: CaseMap, s: string, token: string, quoted: bool, started: bool)
    requires RespectsSyntax(lower) && (!started ==> token == [])
    requires s != [] && s[0] != BACKSLASH && s[0] != QUOTE && (quoted || !IsWhitespace(s[0]))
    ensures Scan(Lower(lower, s), Lower(lower, token), quoted, started) ==
            LowerEach(lower, Scan(s, token, quoted, started))
    decreases |s|, 0
  {
    var c, tail := s[0], s[1..];
    assert s == [c] + tail;
    ScanPlain(c, tail, token, quoted, started);
    LowerAppends(lower, token, [c]);
    LowerOne(lower, c);
    if IsWhitespace(c) {
      ScanPlain(c, Lower(lower, tail), Lower(lower, token), quoted, started);
    } else {
      PlainLowersToPlain(lower, c);
      ScanPlainRun(lower(c), Lower(lower, tail), Lower(lower, token), quoted, started);
    }
    ScanLowered(lower, tail, token + [c], quoted, true);
  }

  lemma PlainLowersToPlain(lower: CaseMap, c: char)
    requires RespectsSyntax(lower) && IsPlain(c)
    ensures lower(c) != [] && forall d | d in lower(c) :: IsPlain(d)
  {
    forall d | d in lower(c) ensures IsPlain(d) {
      if IsSyntax(c) {
        assert d == c;
      } else {
        assert !IsSyntax(d);
      }
    }
  }

  lemma {:induction false} ScanLoweredBackslashes(lower: CaseMap, s: string, token: string, quoted: bool, started: bool)
    requires RespectsSyntax(lower) && (!started ==> token == [])
    requires s != [] && s[0] == BACKSLASH
    ensures Scan(Lower(lower, s), Lower(lower, token), quoted, started) ==
            LowerEach(lower, Scan(s, token, quoted, started))
    decreases |s|, 0
  {
    var n := Backslashes(s);
    var run, tail := Repeat(BACKSLASH, n), s[n..];
    assert s == run + tail;
    LowerAppends(lower, run, tail);
    LowerOnFixed(lower, run);
    LowerKeepsFirst(lower, tail, BACKSLASH);
    LowerKeepsFirst(lower, tail, QUOTE);
    ScanBackslashes(n, tail, token, quoted, started);
    ScanBackslashes(n, Lower(lower, tail), Lower(lower, token), quoted, started);
    var half := Repeat(BACKSLASH, n / 2);
    LowerOnFixed(lower, half);
    LowerAppends(lower, token, half);
    LowerAppends(lower, token, run);
    if tail != [] && tail[0] == QUOTE {
      assert Lower(lower, tail)[1..] == Lower(lower, tail[1..]);
      if n % 2 == 1 {
        LowerAppends(lower, token + half, [QUOTE]);
        LowerOne(lower, QUOTE);
        ScanLowered(lower, tail[1..], token + half + [QUOTE], quoted, true);
      } else {
        ScanLowered(lower, tail[1..], token + half, !quoted, true);
      }
    } else {
      ScanLowered(lower, tail, token + run, quoted, true);
    }
  }

  /** Splitting a lowercased command line lowercases each argument. */
  lemma {:induction false} TokensCommuteWithLower(lower: CaseMap, command: string)
    requires RespectsSyntax(lower)
    ensures Tokens(Lower(lower, command)) == LowerEach(lower, Tokens(command))
  {
    ScanLowered(lower, command, [], false, false);
  }
}
