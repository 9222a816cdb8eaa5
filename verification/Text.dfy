/** Characters and strings, as far as the models need them. */
module Text {
  /** A class of characters whose Unicode table is not part of the models. */
  type CharClass = char -> bool

  /** Unicode `White_Space`. */
  predicate IsWhitespace(c: char) {
    || '\U{0009}' <= c <= '\U{000D}' || c == ' ' || c == '\U{0085}' || c == '\U{00A0}' || c == '\U{1680}'
    || '\U{2000}' <= c <= '\U{200A}' || c == '\U{2028}' || c == '\U{2029}' || c == '\U{202F}'
    || c == '\U{205F}' || c == '\U{3000}'
  }

  predicate NoWhitespace(s: string) {
    forall i | 0 <= i < |s| :: !IsWhitespace(s[i])
  }

  function Repeat(c: char, n: nat): (s: string)
    ensures |s| == n && forall i | 0 <= i < n :: s[i] == c
  {
    seq(n, _ => c)
  }

  lemma AppendIsAssociative<T>(a: seq<T>, b: seq<T>, c: seq<T>)
    ensures a + (b + c) == (a + b) + c
  {
  }

  predicate StartsWithDash(s: string) { s != [] && s[0] == '-' }

  function TrimStart(s: string): string {
    if s != [] && IsWhitespace(s[0]) then TrimStart(s[1..]) else s
  }

  function TrimEnd(s: string): string
    decreases |s|
  {
    if s != [] && IsWhitespace(s[|s| - 1]) then TrimEnd(s[..|s| - 1]) else s
  }

  lemma {:induction false} TrimEndStays(s: string)
    ensures TrimEnd(TrimEnd(s)) == TrimEnd(s) && TrimEnd(s) <= s
    decreases |s|
  {
    if s != [] && IsWhitespace(s[|s| - 1]) {
      TrimEndStays(s[..|s| - 1]);
    }
  }

  function Trim(s: string): string {
    TrimEnd(TrimStart(s))
  }

  predicate IsBlankLine(line: string) {
    forall i | 0 <= i < |line| :: IsWhitespace(line[i])
  }

  lemma {:induction false} TrimEndOfBlank(line: string)
    ensures TrimEnd(line) == [] <==> IsBlankLine(line)
    decreases |line|
  {
    if line != [] && IsWhitespace(line[|line| - 1]) {
      TrimEndOfBlank(line[..|line| - 1]);
    }
  }

  /** Where the text of a line starts. */
  lemma {:induction false} TrimStartMeans(line: string) returns (k: nat)
    ensures k <= |line| && TrimStart(line) == line[k..]
    ensures forall m | 0 <= m < k :: IsWhitespace(line[m])
    ensures k < |line| ==> !IsWhitespace(line[k])
    decreases |line|
  {
    k := 0;
    if line != [] && IsWhitespace(line[0]) {
      k := TrimStartMeans(line[1..]);
      k := k + 1;
    }
  }

  /** Where the text of a line ends. */
  lemma {:induction false} TrimEndMeans(line: string) returns (k: nat)
    ensures k <= |line| && TrimEnd(line) == line[..k]
    ensures forall m | k <= m < |line| :: IsWhitespace(line[m])
    ensures k > 0 ==> !IsWhitespace(line[k - 1])
    decreases |line|
  {
    k := |line|;
    if line != [] && IsWhitespace(line[|line| - 1]) {
      var front := line[..|line| - 1];
      k := TrimEndMeans(front);
      assert front[..k] == line[..k];
      assert forall m | k <= m < |front| :: front[m] == line[m];
    }
  }

  lemma {:induction false} TrimOfBlank(line: string)
    ensures Trim(line) == [] <==> IsBlankLine(line)
  {
    var k := TrimStartMeans(line);
    TrimEndOfBlank(line[k..]);
    if k < |line| {
      assert line[k..][0] == line[k];
    }
  }

  /** The first whitespace-free stretch of a string. */
  function FirstWord(s: string): string {
    if s == [] || IsWhitespace(s[0]) then [] else [s[0]] + FirstWord(s[1..])
  }

  function AfterFirstWord(s: string): (rest: string)
    ensures |rest| <= |s|
    ensures s != [] && !IsWhitespace(s[0]) ==> |rest| < |s|
  {
    if s == [] || IsWhitespace(s[0]) then s else AfterFirstWord(s[1..])
  }

  function WordAt(s: string, n: nat): string
    decreases n
  {
    var t := TrimStart(s);
    if n == 0 then FirstWord(t) else WordAt(AfterFirstWord(t), n - 1)
  }

  predicate IsWord(s: string) {
    s != [] && NoWhitespace(s)
  }

  /** What may follow a word. */
  predicate EndsWord(rest: string) {
    rest == [] || IsWhitespace(rest[0])
  }

  lemma {:induction false} FirstWordIsRead(word: string, rest: string)
    requires NoWhitespace(word) && EndsWord(rest)
    ensures FirstWord(word + rest) == word && AfterFirstWord(word + rest) == rest
    decreases |word|
  {
    if word == [] {
      assert word + rest == rest;
    } else {
      assert (word + rest)[1..] == word[1..] + rest && word == [word[0]] + word[1..];
      FirstWordIsRead(word[1..], rest);
    }
  }

  lemma {:induction false} GapIsTrimmed(gap: string, rest: string)
    requires IsBlankLine(gap) && (rest == [] || !IsWhitespace(rest[0]))
    ensures TrimStart(gap + rest) == rest
    decreases |gap|
  {
    if gap == [] {
      assert gap + rest == rest;
    } else {
      assert (gap + rest)[1..] == gap[1..] + rest;
      GapIsTrimmed(gap[1..], rest);
    }
  }

  /** Words are counted past any gaps before them. */
  lemma {:induction false} WordsAreCounted(gap: string, word: string, rest: string, n: nat)
    requires IsBlankLine(gap) && IsWord(word) && EndsWord(rest)
    ensures WordAt(gap + (word + rest), 0) == word
    ensures WordAt(gap + (word + rest), n + 1) == WordAt(rest, n)
  {
    assert (word + rest)[0] == word[0];
    GapIsTrimmed(gap, word + rest);
    FirstWordIsRead(word, rest);
  }

  predicate Occurs(needle: string, hay: string) {
    exists i | 0 <= i <= |hay| :: needle <= hay[i..]
  }

  predicate OccursAny(needles: seq<string>, hay: string) {
    exists i | 0 <= i < |needles| :: Occurs(needles[i], hay)
  }

  // ---- lines ----

  /** Where the first line ends: its newline, or the end of the text. */
  function LineEnd(s: string): (n: nat)
    ensures n <= |s|
    ensures n < |s| ==> s[n] == '\n'
    ensures forall i | 0 <= i < n :: s[i] != '\n'
  {
    if s == [] || s[0] == '\n' then 0 else 1 + LineEnd(s[1..])
  }

  predicate EndsInReturn(line: string) {
    line != [] && line[|line| - 1] == '\r'
  }

  /** A line without the carriage return before its newline. */
  function WithoutReturn(line: string): string {
    if EndsInReturn(line) then line[..|line| - 1] else line
  }

  /** The lines of a text; a newline ends a line and takes a carriage return
      before it along. */
  function Lines(s: string): seq<string>
    decreases |s|
  {
    if s == [] then []
    else if LineEnd(s) == |s| then [s]
    else [WithoutReturn(s[..LineEnd(s)])] + Lines(s[LineEnd(s) + 1..])
  }

  /** How many carriage returns splitting into lines drops. */
  function DroppedReturns(s: string): nat
    decreases |s|
  {
    if LineEnd(s) == |s| then 0
    else (if EndsInReturn(s[..LineEnd(s)]) then 1 else 0) + DroppedReturns(s[LineEnd(s) + 1..])
  }

  /** Text made of whole lines. */
  predicate NewlineEnded(s: string) {
    s == [] || s[|s| - 1] == '\n'
  }

  lemma {:induction false} LineEndOfAppend(s: string, t: string)
    ensures LineEnd(s + t) == if LineEnd(s) < |s| then LineEnd(s) else |s| + LineEnd(t)
    decreases |s|
  {
    if s == [] {
      assert s + t == t;
    } else if s[0] != '\n' {
      assert (s + t)[1..] == s[1..] + t;
      LineEndOfAppend(s[1..], t);
    }
  }

  lemma OneLine(line: string, rest: string)
    requires '\n' !in line && !EndsInReturn(line)
    ensures Lines(line + ['\n'] + rest) == [line] + Lines(rest)
    ensures DroppedReturns(line + ['\n'] + rest) == DroppedReturns(rest)
  {
    var text := line + ['\n'] + rest;
    LineEndOfAppend(line, ['\n'] + rest);
    assert text == line + (['\n'] + rest);
    assert LineEnd(line) == |line|;
    assert text[..|line|] == line && text[|line| + 1..] == rest;
  }

  /** The first line of whole lines, and the others. */
  lemma {:induction false} WholeFirstLine(s: string)
    requires s != [] && NewlineEnded(s)
    ensures LineEnd(s) < |s| && NewlineEnded(s[LineEnd(s) + 1..])
    ensures Lines(s) == [WithoutReturn(s[..LineEnd(s)])] + Lines(s[LineEnd(s) + 1..])
  {
    assert s[|s| - 1] == '\n';
  }

  lemma {:induction false} LinesAppendStep(s: string, t: string)
    requires s != [] && NewlineEnded(s) && LineEnd(s) < |s|
    ensures Lines(s + t) == [WithoutReturn(s[..LineEnd(s)])] + Lines(s[LineEnd(s) + 1..] + t)
  {
    var n := LineEnd(s);
    LineEndOfAppend(s, t);
    assert (s + t)[..n] == s[..n] && (s + t)[n + 1..] == s[n + 1..] + t;
  }

  lemma {:induction false} LinesAppend(s: string, t: string)
    requires NewlineEnded(s)
    ensures Lines(s + t) == Lines(s) + Lines(t)
    decreases |s|
  {
    if s == [] {
      assert s + t == t;
    } else {
      WholeFirstLine(s);
      LinesAppendStep(s, t);
      var first, rest := [WithoutReturn(s[..LineEnd(s)])], s[LineEnd(s) + 1..];
      LinesAppend(rest, t);
      AppendIsAssociative(first, Lines(rest), Lines(t));
    }
  }

  // ---- bytes ----

  /** The length of a character in UTF-8. */
  function Width(c: char): nat {
    if c < '\U{0080}' then 1 else if c < '\U{0800}' then 2 else if c < '\U{10000}' then 3 else 4
  }

  function Bytes(s: string): nat {
    if s == [] then 0 else Width(s[0]) + Bytes(s[1..])
  }

  lemma {:induction false} BytesAppend(s: string, t: string)
    ensures Bytes(s + t) == Bytes(s) + Bytes(t)
    decreases |s|
  {
    if s == [] {
      assert s + t == t;
    } else {
      assert (s + t)[1..] == s[1..] + t;
      BytesAppend(s[1..], t);
    }
  }
}
