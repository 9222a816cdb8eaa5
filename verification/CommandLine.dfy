/**
  Splitting a process command line into arguments (`command_tokens` in
  src/detect.rs), and the canonical quoting it has to undo: the rules by which
  Microsoft C programs read their command line.
*/
module CommandLine {
  import opened Text

  const BACKSLASH: char := '\\'
  const QUOTE: char := '"'

  /** The length of the run of backslashes a string starts with. */
  function Backslashes(s: string): (n: nat)
    ensures n <= |s|
    ensures forall i | 0 <= i < n :: s[i] == BACKSLASH
    ensures n < |s| ==> s[n] != BACKSLASH
  {
    if s != [] && s[0] == BACKSLASH then 1 + Backslashes(s[1..]) else 0
  }

  /** Splits `rest`, with `token` read so far. */
  function Scan(rest: string, token: string, quoted: bool, started: bool): seq<string>
    decreases |rest|
  {
    if rest == [] then
      if started then [token] else []
    else if rest[0] == BACKSLASH then
      var n := Backslashes(rest);
      if n < |rest| && rest[n] == QUOTE then
        var kept := token + Repeat(BACKSLASH, n / 2);
        if n % 2 == 1 then Scan(rest[n + 1..], kept + [QUOTE], quoted, true)
        else Scan(rest[n + 1..], kept, !quoted, true)
      else
        Scan(rest[n..], token + Repeat(BACKSLASH, n), quoted, true)
    else if rest[0] == QUOTE then
      Scan(rest[1..], token, !quoted, true)
    else if IsWhitespace(rest[0]) && !quoted then
      (if started then [token] else []) + Scan(rest[1..], if started then [] else token, quoted, false)
    else
      Scan(rest[1..], token + [rest[0]], quoted, true)
  }

  function Tokens(command: string): seq<string> {
    Scan(command, [], false, false)
  }

  /** What is split off so far, and what is left to split. */
  predicate Splits(command: string, i: nat, tokens: seq<string>, token: string, quoted: bool, started: bool) {
    i <= |command| && tokens + Scan(command[i..], token, quoted, started) == Tokens(command)
  }

  /** A run of `n` backslashes, with the quote it may escape. */
  lemma {:induction false} SplitsRun(command: string, i: nat, n: nat, tokens: seq<string>,
                                     token: string, quoted: bool, started: bool)
    requires Splits(command, i, tokens, token, quoted, started)
    requires 0 < n && i + n <= |command| && forall k | i <= k < i + n :: command[k] == BACKSLASH
    requires i + n < |command| ==> command[i + n] != BACKSLASH
    ensures if i + n < |command| && command[i + n] == QUOTE then
              var kept := token + Repeat(BACKSLASH, n / 2);
              if n % 2 == 1 then Splits(command, i + n + 1, tokens, kept + [QUOTE], quoted, true)
              else Splits(command, i + n + 1, tokens, kept, !quoted, true)
            else Splits(command, i + n, tokens, token + Repeat(BACKSLASH, n), quoted, true)
  {
    var rest := command[i..];
    RunLength(command, i, n);
    assert rest[0] == command[i] && rest[n..] == command[i + n..];
    if i + n < |command| {
      assert rest[n] == command[i + n] && rest[n + 1..] == command[i + n + 1..];
    }
  }

  /** Any other character. */
  lemma {:induction false} SplitsChar(command: string, i: nat, tokens: seq<string>,
                                      token: string, quoted: bool, started: bool)
    requires i < |command| && command[i] != BACKSLASH
    requires Splits(command, i, tokens, token, quoted, started)
    ensures if command[i] == QUOTE then Splits(command, i + 1, tokens, token, !quoted, true)
            else if IsWhitespace(command[i]) && !quoted then
              if started then Splits(command, i + 1, tokens + [token], [], quoted, false)
              else Splits(command, i + 1, tokens, token, quoted, false)
            else Splits(command, i + 1, tokens, token + [command[i]], quoted, true)
  {
    var rest := command[i..];
    assert rest[0] == command[i] && rest[1..] == command[i + 1..];
    AppendIsAssociative(tokens, [token], Scan(rest[1..], [], quoted, false));
  }

  lemma RunLength(command: string, start: nat, n: nat)
    requires start + n <= |command| && forall k | start <= k < start + n :: command[k] == BACKSLASH
    requires start + n < |command| ==> command[start + n] != BACKSLASH
    ensures Backslashes(command[start..]) == n
  {
    var s := command[start..];
    assert forall i | 0 <= i < n :: s[i] == command[start + i];
  }

  /** The scanning loop, with its inner loop over a run of backslashes. */
  method CommandTokens(command: string) returns (tokens: seq<string>)
    ensures tokens == Tokens(command)
  {
    tokens := [];
    var token: string := [];
    var quoted, tokenStarted := false, false;
    var i := 0;
    while i < |command|
      invariant 0 <= i <= |command|
      invariant Splits(command, i, tokens, token, quoted, tokenStarted)
    {
      ghost var start := i;
      var character := command[i];
      i := i + 1;
      if character == BACKSLASH {
        var backslashes := 1;
        while i < |command| && command[i] == BACKSLASH
          invariant 1 <= backslashes == i - start && i <= |command|
          invariant forall k | start <= k < i :: command[k] == BACKSLASH
        {
          i := i + 1;
          backslashes := backslashes + 1;
        }
        SplitsRun(command, start, backslashes, tokens, token, quoted, tokenStarted);
        tokenStarted := true;
        if i < |command| && command[i] == QUOTE {
          i := i + 1;
          token := token + Repeat(BACKSLASH, backslashes / 2);
          if backslashes % 2 == 1 {
            token := token + [QUOTE];
          } else {
            quoted := !quoted;
          }
        } else {
          token := token + Repeat(BACKSLASH, backslashes);
        }
      } else {
        SplitsChar(command, start, tokens, token, quoted, tokenStarted);
        if character == QUOTE {
          quoted := !quoted;
          tokenStarted := true;
        } else if IsWhitespace(character) && !quoted {
          if tokenStarted {
            tokens := tokens + [token];
            token := [];
            tokenStarted := false;
          }
        } else {
          token := token + [character];
          tokenStarted := true;
        }
      }
    }
    if tokenStarted {
      tokens := tokens + [token];
    }
  }

  // ---- canonical quoting ----

  /** The characters that make the canonical quoting put quotes around an argument. */
  predicate IsSpecial(c: char) {
    c == ' ' || c == '\t' || c == '\n' || c == '\U{000B}' || c == QUOTE
  }

  predicate NeedsQuotes(arg: string) {
    arg == [] || exists i | 0 <= i < |arg| :: IsSpecial(arg[i])
  }

  /** The text between the quotes: backslashes are doubled before a quote, whether
      one of the argument's own (which gets one more) or the closing one. */
  function QuotedBody(arg: string): string {
    var n := Backslashes(arg);
    if n == |arg| then
      Repeat(BACKSLASH, 2 * n)
    else if arg[n] == QUOTE then
      Repeat(BACKSLASH, 2 * n + 1) + [QUOTE] + QuotedBody(arg[n + 1..])
    else
      Repeat(BACKSLASH, n) + [arg[n]] + QuotedBody(arg[n + 1..])
  }

  function Quoted(arg: string): string {
    if NeedsQuotes(arg) then [QUOTE] + QuotedBody(arg) + [QUOTE] else arg
  }

  function JoinQuoted(args: seq<string>): string {
    if args == [] then []
    else if |args| == 1 then Quoted(args[0])
    else Quoted(args[0]) + [' '] + JoinQuoted(args[1..])
  }

  lemma {:induction false} LeadingBackslashes(n: nat, rest: string)
    requires rest == [] || rest[0] != BACKSLASH
    ensures Backslashes(Repeat(BACKSLASH, n) + rest) == n
  {
    var s := Repeat(BACKSLASH, n) + rest;
    assert n < |s| ==> s[n] != BACKSLASH;
    assert Backslashes(s) >= n by {
      assert Backslashes(s) < |s| ==> s[Backslashes(s)] != BACKSLASH;
    }
  }

  /** A run of backslashes, whatever follows it. */
  lemma {:induction false} ScanBackslashes(n: nat, rest: string, token: string, quoted: bool, started: bool)
    requires n > 0 && (rest == [] || rest[0] != BACKSLASH)
    ensures Scan(Repeat(BACKSLASH, n) + rest, token, quoted, started) ==
            if rest != [] && rest[0] == QUOTE then
              if n % 2 == 1 then Scan(rest[1..], token + Repeat(BACKSLASH, n / 2) + [QUOTE], quoted, true)
              else Scan(rest[1..], token + Repeat(BACKSLASH, n / 2), !quoted, true)
            else Scan(rest, token + Repeat(BACKSLASH, n), quoted, true)
  {
    var s := Repeat(BACKSLASH, n) + rest;
    LeadingBackslashes(n, rest);
    assert s[0] == BACKSLASH && s[n..] == rest;
    if rest != [] {
      assert s[n] == rest[0] && s[n + 1..] == rest[1..];
    }
  }

  /** A quoted argument from inside its opening quote on. */
  function Closing(arg: string, rest: string): string {
    QuotedBody(arg) + [QUOTE] + rest
  }

  lemma {:induction false} ClosingOfRun(arg: string, rest: string)
    requires Backslashes(arg) == |arg|
    ensures arg == Repeat(BACKSLASH, |arg|)
    ensures Closing(arg, rest) == Repeat(BACKSLASH, 2 * |arg|) + ([QUOTE] + rest)
  {
  }

  lemma {:induction false} ClosingOfMore(arg: string, rest: string) returns (c: char, tail: string)
    requires Backslashes(arg) < |arg|
    ensures c != BACKSLASH && |tail| < |arg| && arg == Repeat(BACKSLASH, Backslashes(arg)) + [c] + tail
    ensures var n := Backslashes(arg);
            Closing(arg, rest) ==
            Repeat(BACKSLASH, if c == QUOTE then 2 * n + 1 else n) + ([c] + Closing(tail, rest))
  {
    c, tail := arg[Backslashes(arg)], arg[Backslashes(arg) + 1..];
    SplitAtRun(arg, Backslashes(arg));
    ClosingUnfolds(arg, rest);
  }

  lemma SplitAtRun(s: string, n: nat)
    requires n < |s| && forall i | 0 <= i < n :: s[i] == BACKSLASH
    ensures s == Repeat(BACKSLASH, n) + [s[n]] + s[n + 1..]
  {
    assert s[..n] == Repeat(BACKSLASH, n);
  }

  lemma {:induction false} ClosingUnfolds(arg: string, rest: string)
    requires Backslashes(arg) < |arg|
    ensures var n := Backslashes(arg);
            Closing(arg, rest) ==
            Repeat(BACKSLASH, if arg[n] == QUOTE then 2 * n + 1 else n) + ([arg[n]] + Closing(arg[n + 1..], rest))
  {
  }

  lemma {:induction false} ScanQuotedBody(arg: string, rest: string, token: string)
    ensures Scan(Closing(arg, rest), token, true, true) == Scan(rest, token + arg, false, true)
    decreases |arg|, 2
  {
    if Backslashes(arg) == |arg| {
      ScanClosedRun(arg, rest, token);
    } else {
      ScanOpenRun(arg, rest, token);
    }
  }

  lemma {:induction false} ScanOpenRun(arg: string, rest: string, token: string)
    requires Backslashes(arg) < |arg|
    ensures Scan(Closing(arg, rest), token, true, true) == Scan(rest, token + arg, false, true)
    decreases |arg|, 1
  {
    var c, tail := ClosingOfMore(arg, rest);
    ScanQuotedRun(Backslashes(arg), c, tail, rest, token);
  }

  lemma {:induction false} ScanClosedRun(arg: string, rest: string, token: string)
    requires Backslashes(arg) == |arg|
    ensures Scan(Closing(arg, rest), token, true, true) == Scan(rest, token + arg, false, true)
  {
    ClosingOfRun(arg, rest);
    ScanClosingQuote(|arg|, rest, token);
  }

  /** A run of backslashes, a character and the remaining argument. */
  lemma {:induction false} ScanQuotedRun(n: nat, c: char, tail: string, rest: string, token: string)
    requires c != BACKSLASH
    ensures var run := Repeat(BACKSLASH, if c == QUOTE then 2 * n + 1 else n);
            Scan(run + ([c] + Closing(tail, rest)), token, true, true) ==
            Scan(rest, token + (Repeat(BACKSLASH, n) + [c] + tail), false, true)
    decreases |tail|, 3
  {
    var read := token + Repeat(BACKSLASH, n) + [c];
    ScanQuotedChar(n, c, Closing(tail, rest), token);
    ScanQuotedBody(tail, rest, read);
    assert read + tail == token + (Repeat(BACKSLASH, n) + [c] + tail);
  }

  lemma {:induction false} ScanClosingQuote(n: nat, rest: string, token: string)
    ensures Scan(Repeat(BACKSLASH, 2 * n) + ([QUOTE] + rest), token, true, true) ==
            Scan(rest, token + Repeat(BACKSLASH, n), false, true)
  {
    var close := [QUOTE] + rest;
    assert close[1..] == rest;
    if n == 0 {
      assert Repeat(BACKSLASH, 2 * n) + close == close;
      assert token + Repeat(BACKSLASH, n) == token;
    } else {
      ScanBackslashes(2 * n, close, token, true, true);
      assert 2 * n / 2 == n && 2 * n % 2 == 0;
    }
  }

  lemma {:induction false} ScanQuotedChar(n: nat, c: char, after: string, token: string)
    requires c != BACKSLASH
    ensures Scan(Repeat(BACKSLASH, if c == QUOTE then 2 * n + 1 else n) + ([c] + after), token, true, true) ==
            Scan(after, token + Repeat(BACKSLASH, n) + [c], true, true)
  {
    var next := [c] + after;
    assert next[0] == c && next[1..] == after;
    if c == QUOTE {
      ScanBackslashes(2 * n + 1, next, token, true, true);
      assert (2 * n + 1) / 2 == n && (2 * n + 1) % 2 == 1;
    } else if n > 0 {
      ScanBackslashes(n, next, token, true, true);
    } else {
      assert Repeat(BACKSLASH, n) + next == next;
      assert token + Repeat(BACKSLASH, n) == token;
    }
  }

  /** An argument the tokenizer gives back as one token when it stands bare or quoted. */
  predicate Recoverable(arg: string) {
    NeedsQuotes(arg) || NoWhitespace(arg)
  }

  lemma {:induction false} ScanSpace(c: char, rest: string, token: string, started: bool)
    requires IsWhitespace(c) && (!started ==> token == [])
    ensures Scan([c] + rest, token, false, started) == (if started then [token] else []) + Tokens(rest)
  {
    assert ([c] + rest)[1..] == rest;
  }

  lemma {:induction false} ScanPlain(c: char, rest: string, token: string, quoted: bool, started: bool)
    requires c != BACKSLASH && c != QUOTE && (quoted || !IsWhitespace(c))
    ensures Scan([c] + rest, token, quoted, started) == Scan(rest, token + [c], quoted, true)
  {
    assert ([c] + rest)[1..] == rest;
  }

  /** A bare argument splits into whitespace-free tokens, the last one still open. */
  lemma {:induction false} ScanBare(bare: string, rest: string, token: string, started: bool)
      returns (done: seq<string>, open: string, nowStarted: bool)
    requires QUOTE !in bare
    requires rest == [] || rest[0] == ' '
    requires NoWhitespace(token) && (!started ==> token == [])
    ensures Scan(bare + rest, token, false, started) == done + Scan(rest, open, false, nowStarted)
    ensures NoWhitespace(open) && (!nowStarted ==> open == [])
    ensures forall i | 0 <= i < |done| :: NoWhitespace(done[i])
    ensures NoWhitespace(bare) ==> done == [] && open == token + bare && nowStarted == (started || bare != [])
    decreases |bare|
  {
    var n := Backslashes(bare);
    if bare == [] {
      done, open, nowStarted := [], token, started;
      assert bare + rest == rest;
    } else if n > 0 {
      done, open, nowStarted := ScanBareBackslashes(bare, rest, token, started);
    } else {
      var c, tail := bare[0], bare[1..];
      assert bare + rest == [c] + (tail + rest);
      assert NoWhitespace(bare) ==> NoWhitespace(tail) && !IsWhitespace(c);
      if IsWhitespace(c) {
        ScanSpace(c, tail + rest, token, started);
        done, open, nowStarted := ScanBare(tail, rest, [], false);
        var ended := if started then [token] else [];
        AppendIsAssociative(ended, done, Scan(rest, open, false, nowStarted));
        done := ended + done;
      } else {
        ScanPlain(c, tail + rest, token, false, started);
        done, open, nowStarted := ScanBare(tail, rest, token + [c], true);
        assert token + bare == token + [c] + tail;
      }
    }
  }

  lemma {:induction false} ScanBareBackslashes(bare: string, rest: string, token: string, started: bool)
      returns (done: seq<string>, open: string, nowStarted: bool)
    requires QUOTE !in bare && Backslashes(bare) > 0
    requires rest == [] || rest[0] == ' '
    requires NoWhitespace(token) && (!started ==> token == [])
    ensures Scan(bare + rest, token, false, started) == done + Scan(rest, open, false, nowStarted)
    ensures NoWhitespace(open) && (!nowStarted ==> open == [])
    ensures forall i | 0 <= i < |done| :: NoWhitespace(done[i])
    ensures NoWhitespace(bare) ==> done == [] && open == token + bare && nowStarted == (started || bare != [])
    decreases |bare|, 0
  {
    var n := Backslashes(bare);
    var tail := bare[n..];
    assert bare == Repeat(BACKSLASH, n) + tail;
    assert bare + rest == Repeat(BACKSLASH, n) + (tail + rest);
    assert tail == [] ==> tail + rest == rest;
    ScanBackslashes(n, tail + rest, token, false, started);
    assert NoWhitespace(bare) ==> NoWhitespace(tail) by {
      assert forall i | 0 <= i < |tail| :: tail[i] == bare[n + i];
    }
    done, open, nowStarted := ScanBare(tail, rest, token + Repeat(BACKSLASH, n), true);
    assert token + bare == token + Repeat(BACKSLASH, n) + tail;
  }

  lemma {:induction false} ScanOne(arg: string, rest: string) returns (done: seq<string>, open: string, started: bool)
    requires rest == [] || rest[0] == ' '
    ensures Scan(Quoted(arg) + rest, [], false, false) == done + Scan(rest, open, false, started)
    ensures forall i | 0 <= i < |done| :: Recoverable(done[i])
    ensures Recoverable(open) && (!started ==> open == [])
    ensures Recoverable(arg) ==> done == [] && open == arg && started
  {
    if NeedsQuotes(arg) {
      assert Quoted(arg) + rest == [QUOTE] + Closing(arg, rest);
      assert ([QUOTE] + Closing(arg, rest))[1..] == Closing(arg, rest);
      ScanQuotedBody(arg, rest, []);
      assert [] + arg == arg;
      done, open, started := [], arg, true;
    } else {
      done, open, started := ScanBare(arg, rest, [], false);
      assert [] + arg == arg;
    }
  }

  lemma {:induction false} ScanNextArgument(others: string, open: string, started: bool)
    requires !started ==> open == []
    ensures Scan([' '] + others, open, false, started) == (if started then [open] else []) + Tokens(others)
    ensures Scan([], open, false, started) == if started then [open] else []
  {
    ScanSpace(' ', others, open, started);
  }

  /** The first argument's tokens, then those of the others. */
  lemma {:induction false} ScanFirst(args: seq<string>) returns (first: seq<string>)
    requires args != []
    ensures Tokens(JoinQuoted(args)) == first + Tokens(JoinQuoted(args[1..]))
    ensures forall i | 0 <= i < |first| :: Recoverable(first[i])
    ensures Recoverable(args[0]) ==> first == [args[0]]
  {
    var others := JoinQuoted(args[1..]);
    var rest := if |args| == 1 then [] else [' '] + others;
    assert JoinQuoted(args) == Quoted(args[0]) + rest;
    var done, open, started := ScanOne(args[0], rest);
    ScanNextArgument(others, open, started);
    var ended := if started then [open] else [];
    first := done + ended;
    AppendIsAssociative(done, ended, Tokens(others));
  }

  /** Splitting the canonically quoted command line gives back the arguments exactly
      when none of them stands bare with a space the canonical rules do not know,
      such as a no-break space: every other one, empty, quoted or full of
      backslashes, comes back. */
  lemma {:induction false} TokensInvertQuotingIff(args: seq<string>)
    ensures Tokens(JoinQuoted(args)) == args <==> forall i | 0 <= i < |args| :: Recoverable(args[i])
  {
    var tokens := Tokens(JoinQuoted(args));
    AllTokensRecoverable(args);
    if tokens == args {
      forall i | 0 <= i < |args| ensures Recoverable(args[i]) {
        assert tokens[i] == args[i];
      }
    }
    if forall i | 0 <= i < |args| :: Recoverable(args[i]) {
      RecoverableComeBack(args);
    }
  }

  lemma {:induction false} AllTokensRecoverable(args: seq<string>)
    ensures forall i | 0 <= i < |Tokens(JoinQuoted(args))| :: Recoverable(Tokens(JoinQuoted(args))[i])
    decreases |args|
  {
    if args != [] {
      var first := ScanFirst(args);
      AllTokensRecoverable(args[1..]);
    }
  }

  lemma {:induction false} RecoverableComeBack(args: seq<string>)
    requires forall i | 0 <= i < |args| :: Recoverable(args[i])
    ensures Tokens(JoinQuoted(args)) == args
    decreases |args|
  {
    if args != [] {
      var first := ScanFirst(args);
      RecoverableComeBack(args[1..]);
    }
  }

  /** A bare no-break space splits an argument in two. */
  lemma BareNoBreakSpaceIsLost()
    ensures Tokens(JoinQuoted(["a\U{00A0}b"])) != ["a\U{00A0}b"]
  {
    TokensInvertQuotingIff(["a\U{00A0}b"]);
    assert "a\U{00A0}b"[1] == '\U{00A0}';
    assert !Recoverable(["a\U{00A0}b"][0]);
  }
}
