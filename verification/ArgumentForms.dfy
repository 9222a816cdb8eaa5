/**
  Every way of writing an argument on a command line (`command_tokens` in
  src/detect.rs): bare stretches and quoted ones in any mix, with any whitespace
  between arguments. Canonical quoting is one of these ways.
*/
module ArgumentForms {
  import opened Text
  import opened CommandLine

  /** A stretch of an argument: outside quotes or inside. */
  datatype Piece = Bare(text: string) | InQuotes(text: string)

  type Argument = seq<Piece>

  /** Outside quotes a quote is escaped, with the backslashes before it doubled. */
  function BareForm(s: string): string {
    var n := Backslashes(s);
    if n == |s| then s
    else if s[n] == QUOTE then Repeat(BACKSLASH, 2 * n + 1) + [QUOTE] + BareForm(s[n + 1..])
    else Repeat(BACKSLASH, n) + [s[n]] + BareForm(s[n + 1..])
  }

  function Form(piece: Piece): string {
    match piece
    case Bare(text) => BareForm(text)
    case InQuotes(text) => [QUOTE] + QuotedBody(text) + [QUOTE]
  }

  function Written(arg: Argument): string {
    if arg == [] then [] else Form(arg[0]) + Written(arg[1..])
  }

  function Meant(arg: Argument): string {
    if arg == [] then [] else arg[0].text + Meant(arg[1..])
  }

  predicate EndsInBackslash(s: string) {
    s != [] && s[|s| - 1] == BACKSLASH
  }

  /** Bare stretches hold no whitespace, and neither stand side by side nor end in a
      backslash right before a quoted one. */
  predicate IsWritable(arg: Argument) {
    arg != [] ==>
      && (arg[0].Bare? ==>
            && IsWord(arg[0].text)
            && (|arg| > 1 ==> arg[1].InQuotes? && !EndsInBackslash(arg[0].text)))
      && IsWritable(arg[1..])
  }

  predicate IsGap(s: string) {
    s != [] && IsBlankLine(s)
  }

  lemma {:induction false} RunThenPlain(n: nat, c: char, rest: string, token: string, started: bool)
    requires c != BACKSLASH && c != QUOTE && !IsWhitespace(c)
    ensures Scan(Repeat(BACKSLASH, n) + ([c] + rest), token, false, started) ==
            Scan(rest, token + Repeat(BACKSLASH, n) + [c], false, true)
  {
    var next := [c] + rest;
    if n == 0 {
      assert Repeat(BACKSLASH, 0) + next == next && token + Repeat(BACKSLASH, 0) == token;
      ScanPlain(c, rest, token, false, started);
    } else {
      ScanBackslashes(n, next, token, false, started);
      ScanPlain(c, rest, token + Repeat(BACKSLASH, n), false, true);
    }
  }

  lemma {:induction false} EscapedQuote(n: nat, rest: string, token: string, started: bool)
    ensures Scan(Repeat(BACKSLASH, 2 * n + 1) + ([QUOTE] + rest), token, false, started) ==
            Scan(rest, token + Repeat(BACKSLASH, n) + [QUOTE], false, true)
  {
    var next := [QUOTE] + rest;
    assert next[1..] == rest;
    ScanBackslashes(2 * n + 1, next, token, false, started);
    assert (2 * n + 1) / 2 == n && (2 * n + 1) % 2 == 1;
  }

  lemma {:induction false} ScanBareForm(s: string, rest: string, token: string, started: bool)
    requires NoWhitespace(s) && (rest == [] || rest[0] != BACKSLASH)
    requires EndsInBackslash(s) ==> rest == [] || rest[0] != QUOTE
    ensures Scan(BareForm(s) + rest, token, false, started) == Scan(rest, token + s, false, started || s != [])
    decreases |s|, 1
  {
    var n := Backslashes(s);
    if s == [] {
      assert BareForm(s) + rest == rest && token + s == token;
    } else if n == |s| {
      assert s == Repeat(BACKSLASH, n);
      ScanBackslashes(n, rest, token, false, started);
    } else {
      BareFormStep(s, rest, token, started);
    }
  }

  lemma {:induction false} BareFormUnfolds(s: string, n: nat, c: char, tail: string, rest: string)
    requires n == Backslashes(s) < |s| && c == s[n] && tail == s[n + 1..]
    ensures BareForm(s) + rest ==
            Repeat(BACKSLASH, if c == QUOTE then 2 * n + 1 else n) + ([c] + (BareForm(tail) + rest))
  {
    var run := Repeat(BACKSLASH, if c == QUOTE then 2 * n + 1 else n);
    assert BareForm(s) == run + [c] + BareForm(tail);
    AppendIsAssociative(run + [c], BareForm(tail), rest);
    AppendIsAssociative(run, [c], BareForm(tail) + rest);
  }

  lemma TailOfBare(s: string, n: nat)
    requires NoWhitespace(s) && n < |s|
    ensures !IsWhitespace(s[n]) && NoWhitespace(s[n + 1..])
    ensures EndsInBackslash(s[n + 1..]) ==> EndsInBackslash(s)
  {
    var tail := s[n + 1..];
    assert forall i | 0 <= i < |tail| :: tail[i] == s[n + 1 + i];
  }

  /** A run, a character that is none, and what follows. */
  lemma {:induction false} ScanRunAndChar(n: nat, c: char, after: string, token: string, started: bool)
    requires c != BACKSLASH && !IsWhitespace(c)
    ensures Scan(Repeat(BACKSLASH, if c == QUOTE then 2 * n + 1 else n) + ([c] + after), token, false, started) ==
            Scan(after, token + Repeat(BACKSLASH, n) + [c], false, true)
  {
    if c == QUOTE {
      EscapedQuote(n, after, token, started);
    } else {
      RunThenPlain(n, c, after, token, started);
    }
  }

  lemma {:induction false} ScanRunAndTail(n: nat, c: char, tail: string, rest: string, token: string, started: bool)
    requires c != BACKSLASH && !IsWhitespace(c) && NoWhitespace(tail) && (rest == [] || rest[0] != BACKSLASH)
    requires EndsInBackslash(tail) ==> rest == [] || rest[0] != QUOTE
    ensures Scan(Repeat(BACKSLASH, if c == QUOTE then 2 * n + 1 else n) + ([c] + (BareForm(tail) + rest)),
                 token, false, started) ==
            Scan(rest, token + Repeat(BACKSLASH, n) + [c] + tail, false, true)
    decreases |tail|, 2
  {
    ScanRunAndChar(n, c, BareForm(tail) + rest, token, started);
    ScanBareForm(tail, rest, token + Repeat(BACKSLASH, n) + [c], true);
  }

  lemma {:induction false} BareFormStep(s: string, rest: string, token: string, started: bool)
    requires NoWhitespace(s) && (rest == [] || rest[0] != BACKSLASH) && Backslashes(s) < |s|
    requires EndsInBackslash(s) ==> rest == [] || rest[0] != QUOTE
    ensures Scan(BareForm(s) + rest, token, false, started) == Scan(rest, token + s, false, true)
    decreases |s|, 0
  {
    var n := Backslashes(s);
    var c, tail := s[n], s[n + 1..];
    TailOfBare(s, n);
    RejoinRun(s, n, token);
    BareFormUnfolds(s, n, c, tail, rest);
    ScanRunAndTail(n, c, tail, rest, token, started);
  }

  lemma RejoinRun(s: string, n: nat, token: string)
    requires n < |s| && forall i | 0 <= i < n :: s[i] == BACKSLASH
    ensures token + Repeat(BACKSLASH, n) + [s[n]] + s[n + 1..] == token + s
  {
    SplitAtRun(s, n);
    assert token + Repeat(BACKSLASH, n) + [s[n]] + s[n + 1..] ==
           token + (Repeat(BACKSLASH, n) + [s[n]] + s[n + 1..]);
  }

  lemma {:induction false} ScanInQuotes(text: string, rest: string, token: string, started: bool)
    ensures Scan([QUOTE] + QuotedBody(text) + [QUOTE] + rest, token, false, started) ==
            Scan(rest, token + text, false, true)
  {
    var s := [QUOTE] + QuotedBody(text) + [QUOTE] + rest;
    assert s == [QUOTE] + Closing(text, rest);
    assert ([QUOTE] + Closing(text, rest))[1..] == Closing(text, rest);
    ScanQuotedBody(text, rest, token);
  }

  lemma {:induction false} ScanForm(piece: Piece, after: string, token: string, started: bool)
    requires piece.Bare? ==>
               && IsWord(piece.text) && (after == [] || after[0] != BACKSLASH)
               && (EndsInBackslash(piece.text) ==> after == [] || after[0] != QUOTE)
    ensures Scan(Form(piece) + after, token, false, started) == Scan(after, token + piece.text, false, true)
  {
    if piece.Bare? {
      ScanBareForm(piece.text, after, token, started);
    } else {
      ScanInQuotes(piece.text, after, token, started);
    }
  }

  lemma WrittenUnfolds(arg: Argument, rest: string, token: string)
    requires arg != []
    ensures Written(arg) + rest == Form(arg[0]) + (Written(arg[1..]) + rest)
    ensures token + arg[0].text + Meant(arg[1..]) == token + Meant(arg)
  {
    AppendIsAssociative(Form(arg[0]), Written(arg[1..]), rest);
    AppendIsAssociative(token, arg[0].text, Meant(arg[1..]));
  }

  /** One argument, in whatever form, up to its end. */
  lemma {:induction false} ScanWritten(arg: Argument, rest: string, token: string, started: bool)
    requires IsWritable(arg) && (rest == [] || IsWhitespace(rest[0]))
    ensures Scan(Written(arg) + rest, token, false, started) ==
            Scan(rest, token + Meant(arg), false, started || arg != [])
    decreases |arg|
  {
    if arg == [] {
      assert Written(arg) + rest == rest && token + Meant(arg) == token;
    } else {
      WrittenUnfolds(arg, rest, token);
      if arg[0].Bare? {
        AfterBare(arg, rest);
      }
      ScanForm(arg[0], Written(arg[1..]) + rest, token, started);
      ScanWritten(arg[1..], rest, token + arg[0].text, true);
    }
  }

  /** Behind a bare stretch comes a quote, a gap or the end. */
  lemma AfterBare(arg: Argument, rest: string)
    requires arg != [] && IsWritable(arg) && arg[0].Bare? && (rest == [] || IsWhitespace(rest[0]))
    ensures var after := Written(arg[1..]) + rest;
            && (after == [] || after[0] != BACKSLASH)
            && (EndsInBackslash(arg[0].text) ==> after == [] || after[0] != QUOTE)
  {
    if |arg| > 1 {
      assert arg[1..][0] == arg[1];
      assert Form(arg[1])[0] == QUOTE;
    } else {
      assert Written(arg[1..]) + rest == rest;
    }
  }

  lemma {:induction false} ScanGap(gap: string, rest: string)
    requires IsBlankLine(gap)
    ensures Tokens(gap + rest) == Tokens(rest)
    decreases |gap|
  {
    if gap == [] {
      assert gap + rest == rest;
    } else {
      assert gap + rest == [gap[0]] + (gap[1..] + rest);
      ScanSpace(gap[0], gap[1..] + rest, [], false);
      assert [] + Tokens(gap[1..] + rest) == Tokens(gap[1..] + rest);
      ScanGap(gap[1..], rest);
    }
  }

  lemma {:induction false} ArgumentEnds(gap: string, rest: string, token: string)
    requires IsGap(gap)
    ensures Scan(gap + rest, token, false, true) == [token] + Tokens(rest)
  {
    assert gap + rest == [gap[0]] + (gap[1..] + rest);
    ScanSpace(gap[0], gap[1..] + rest, token, true);
    ScanGap(gap[1..], rest);
  }

  /** Arguments with a gap behind each. */
  function Line(args: seq<Argument>, gaps: seq<string>): string
    requires |args| == |gaps|
  {
    if args == [] then [] else Written(args[0]) + gaps[0] + Line(args[1..], gaps[1..])
  }

  function MeantEach(args: seq<Argument>): seq<string> {
    if args == [] then [] else [Meant(args[0])] + MeantEach(args[1..])
  }

  /** Whitespace behind each argument but the last, where it may be missing. */
  predicate AreGaps(gaps: seq<string>) {
    gaps != [] ==> (IsGap(gaps[0]) || gaps == [[]]) && AreGaps(gaps[1..])
  }

  predicate AreWritable(args: seq<Argument>) {
    forall i | 0 <= i < |args| :: args[i] != [] && IsWritable(args[i])
  }

  lemma {:induction false} FirstIsRead(arg: Argument, gap: string, others: string)
    requires arg != [] && IsWritable(arg) && (IsGap(gap) || (gap == [] && others == []))
    ensures Tokens(Written(arg) + (gap + others)) == [Meant(arg)] + Tokens(others)
  {
    if gap == [] {
      assert gap + others == [];
    } else {
      assert (gap + others)[0] == gap[0];
      ArgumentEnds(gap, others, Meant(arg));
    }
    ScanWritten(arg, gap + others, [], false);
    assert [] + Meant(arg) == Meant(arg);
  }

  lemma {:induction false} LineIsRead(args: seq<Argument>, gaps: seq<string>)
    requires |args| == |gaps| && AreWritable(args) && AreGaps(gaps)
    ensures Tokens(Line(args, gaps)) == MeantEach(args)
    decreases |args|
  {
    if args != [] {
      var others := Line(args[1..], gaps[1..]);
      LineIsRead(args[1..], gaps[1..]);
      AppendIsAssociative(Written(args[0]), gaps[0], others);
      FirstIsRead(args[0], gaps[0], others);
    }
  }

  /** However its arguments are written, and whatever whitespace stands before, between
      and behind them, a command line splits into what they mean. */
  lemma {:induction false} AnyFormIsRead(indent: string, args: seq<Argument>, gaps: seq<string>)
    requires |args| == |gaps| && IsBlankLine(indent) && AreWritable(args) && AreGaps(gaps)
    ensures Tokens(indent + Line(args, gaps)) == MeantEach(args)
  {
    ScanGap(indent, Line(args, gaps));
    LineIsRead(args, gaps);
  }
}
