/**
  Splitting a command into words by the quoting rules of the POSIX shell command
  language (XCU sections 2.2 and 2.3), and the single-quoting that resume commands
  use (src/agent.rs).

  Only the part of the language that makes words is modelled. Text that an
  operator, a comment, an expansion or an open quote would give another meaning
  has no word list (`None`).
*/
module ShellWords {
  import opened Options

  datatype Mode = Bare | Single | Double

  predicate IsBlank(c: char) { c == ' ' || c == '\t' }

  /** Characters an unquoted word may not hold: operators, expansions, patterns. */
  predicate IsActive(c: char) {
    c in {'\n', '|', '&', ';', '<', '>', '(', ')', '$', '`', '*', '?', '['}
  }

  function Before(done: seq<string>, rest: Option<seq<string>>): Option<seq<string>> {
    if rest.Some? then Some(done + rest.value) else None
  }

  function Words(rest: string, mode: Mode, word: string, started: bool): Option<seq<string>>
    decreases |rest|
  {
    if rest == [] then
      if mode != Bare then None else Some(if started then [word] else [])
    else
      var c, tail := rest[0], rest[1..];
      match mode
      case Single =>
        // Section 2.2.2: every character keeps its literal value.
        if c == '\'' then Words(tail, Bare, word, true) else Words(tail, Single, word + [c], true)
      case Double =>
        // Section 2.2.3.
        if c == '"' then Words(tail, Bare, word, true)
        else if c == '$' || c == '`' then None
        else if c == '\\' && tail != [] && tail[0] in {'$', '`', '"', '\\', '\n'} then
          Words(tail[1..], Double, if tail[0] == '\n' then word else word + [tail[0]], true)
        else Words(tail, Double, word + [c], true)
      case Bare =>
        if c == '\'' then Words(tail, Single, word, true)
        else if c == '"' then Words(tail, Double, word, true)
        else if c == '\\' then
          // Section 2.2.1: keeps the next character; removes a newline.
          if tail == [] then None
          else if tail[0] == '\n' then Words(tail[1..], Bare, word, started)
          else Words(tail[1..], Bare, word + [tail[0]], true)
        else if IsBlank(c) then
          Before(if started then [word] else [], Words(tail, Bare, [], false))
        else if IsActive(c) || (!started && (c == '#' || c == '~')) then None
        else Words(tail, Bare, word + [c], true)
  }

  function ShellSplit(line: string): Option<seq<string>> {
    Words(line, Bare, [], false)
  }

  // ---- quoting ----

  function Escaped(s: string): string {
    if s == [] then []
    else (if s[0] == '\'' then "'\\''" else [s[0]]) + Escaped(s[1..])
  }

  function ShellQuoted(s: string): string {
    "'" + Escaped(s) + "'"
  }

  function JoinShellQuoted(args: seq<string>): string {
    if args == [] then []
    else if |args| == 1 then ShellQuoted(args[0])
    else ShellQuoted(args[0]) + " " + JoinShellQuoted(args[1..])
  }

  /** From inside the opening quote on. */
  function Closing(s: string, rest: string): string {
    Escaped(s) + "'" + rest
  }

  /** Inside single quotes, the four characters that stand for one quote. */
  lemma {:induction false} QuoteEscape(after: string, word: string)
    ensures Words("'\\''" + after, Single, word, true) == Words(after, Single, word + ['\''], true)
  {
    var r, r1 := "'\\''" + after, "\\''" + after;
    var r2, r3 := "''" + after, "'" + after;
    assert r[1..] == r1 && r1[1..] == r2 && r2[1..] == r3 && r3[1..] == after;
    assert Words(r, Single, word, true) == Words(r1, Bare, word, true);
    assert Words(r1, Bare, word, true) == Words(r3, Bare, word + ['\''], true);
  }

  lemma {:induction false} SingleQuotedChar(c: char, after: string, word: string)
    requires c != '\''
    ensures Words([c] + after, Single, word, true) == Words(after, Single, word + [c], true)
  {
    assert ([c] + after)[1..] == after;
  }

  lemma {:induction false} WordsOfEscaped(s: string, rest: string, word: string)
    ensures Words(Closing(s, rest), Single, word, true) == Words(rest, Bare, word + s, true)
    decreases |s|
  {
    if s == [] {
      assert Closing(s, rest) == ['\''] + rest;
      assert (['\''] + rest)[1..] == rest && word + s == word;
    } else {
      var c, tail := s[0], s[1..];
      if c == '\'' {
        assert Closing(s, rest) == "'\\''" + Closing(tail, rest);
        QuoteEscape(Closing(tail, rest), word);
      } else {
        assert Closing(s, rest) == [c] + Closing(tail, rest);
        SingleQuotedChar(c, Closing(tail, rest), word);
      }
      WordsOfEscaped(tail, rest, word + [c]);
      assert word + [c] + tail == word + s;
    }
  }

  lemma {:induction false} WordsOfQuoted(s: string, rest: string, word: string, started: bool)
    ensures Words(ShellQuoted(s) + rest, Bare, word, started) == Words(rest, Bare, word + s, true)
  {
    assert ShellQuoted(s) + rest == ['\''] + Closing(s, rest);
    assert (['\''] + Closing(s, rest))[1..] == Closing(s, rest);
    assert Words(['\''] + Closing(s, rest), Bare, word, started) == Words(Closing(s, rest), Single, word, true);
    WordsOfEscaped(s, rest, word);
  }

  lemma {:induction false} WordsAfterBlank(rest: string, word: string)
    ensures Words([' '] + rest, Bare, word, true) == Before([word], ShellSplit(rest))
  {
    assert ([' '] + rest)[1..] == rest;
  }

  lemma {:induction false} SplitFirstQuoted(arg: string, rest: string)
    ensures ShellSplit(ShellQuoted(arg) + ([' '] + rest)) == Before([arg], ShellSplit(rest))
    ensures ShellSplit(ShellQuoted(arg)) == Some([arg])
  {
    assert [] + arg == arg;
    WordsOfQuoted(arg, [' '] + rest, [], false);
    WordsAfterBlank(rest, arg);
    assert ShellQuoted(arg) + [] == ShellQuoted(arg);
    WordsOfQuoted(arg, [], [], false);
  }

  /** Splitting quoted words joined by spaces gives the words back, whatever they hold. */
  lemma {:induction false} SplitInvertsQuoting(args: seq<string>)
    ensures ShellSplit(JoinShellQuoted(args)) == Some(args)
    decreases |args|
  {
    if |args| == 1 {
      SplitFirstQuoted(args[0], []);
      assert args == [args[0]];
    } else if |args| > 1 {
      var others := JoinShellQuoted(args[1..]);
      assert JoinShellQuoted(args) == ShellQuoted(args[0]) + ([' '] + others);
      SplitFirstQuoted(args[0], others);
      SplitInvertsQuoting(args[1..]);
      assert [args[0]] + args[1..] == args;
    }
  }

  /** Text with no quoting and nothing active: letters, digits, dashes, `=`, spaces. */
  predicate IsPlainText(s: string) {
    forall c | c in s :: IsBlank(c) || IsPlainChar(c)
  }

  predicate IsPlainChar(c: char) {
    c == '-' || c == '=' || c == '_' || 'a' <= c <= 'z' || 'A' <= c <= 'Z' || '0' <= c <= '9'
  }

  lemma {:induction false} PlainWordChar(c: char, rest: string, word: string, started: bool)
    requires IsPlainChar(c)
    ensures Words([c] + rest, Bare, word, started) == Words(rest, Bare, word + [c], true)
  {
    assert ([c] + rest)[1..] == rest;
    assert !IsActive(c) && !IsBlank(c) && c != '\'' && c != '"' && c != '\\';
  }

  /** The words plain text ends, the word it leaves open, and whether one is open. */
  function PlainEnd(s: string, word: string, started: bool): (seq<string>, string, bool) {
    if s == [] then ([], word, started)
    else if IsBlank(s[0]) then
      var (done, open, now) := PlainEnd(s[1..], [], false);
      ((if started then [word] else []) + done, open, now)
    else PlainEnd(s[1..], word + [s[0]], true)
  }

  lemma {:induction false} PlainEndWorks(s: string, rest: string, word: string, started: bool)
    requires IsPlainText(s)
    ensures var (done, open, now) := PlainEnd(s, word, started);
            Words(s + rest, Bare, word, started) == Before(done, Words(rest, Bare, open, now))
    decreases |s|
  {
    if s == [] {
      assert s + rest == rest;
      var r := Words(rest, Bare, word, started);
      assert r.Some? ==> [] + r.value == r.value;
    } else {
      assert s[0] in s;
      assert (s + rest)[1..] == s[1..] + rest && (s + rest)[0] == s[0];
      if IsBlank(s[0]) {
        PlainEndWorks(s[1..], rest, [], false);
        var (done, open, now) := PlainEnd(s[1..], [], false);
        var r := Words(rest, Bare, open, now);
        var ended := if started then [word] else [];
        assert r.Some? ==> ended + (done + r.value) == (ended + done) + r.value;
      } else {
        assert s + rest == [s[0]] + (s[1..] + rest);
        PlainWordChar(s[0], s[1..] + rest, word, started);
        PlainEndWorks(s[1..], rest, word + [s[0]], true);
      }
    }
  }
}
