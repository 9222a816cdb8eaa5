/**
  Cutting a Claude screen down to its live part (`claude_live_screen` in
  src/detect.rs), so that what the conversation shows above the status block
  cannot pass for the agent's state.
*/
module LiveScreen {
  import opened Options
  import opened Text
  import opened Lowercase
  import opened RuleEngine
  import opened ScreenText
  import opened PaneIdentity
  import opened ProcessIdentity
  import opened WordSearch

  const RAIL: char := '\U{2500}'
  const PROMPT: char := '\U{276F}'
  const ELLIPSIS: char := '\U{2026}'

  const STATUS_GLYPHS: set<char> := {
    '\U{00B7}', '\U{2722}', '\U{2733}', '\U{2736}', '\U{273B}', '\U{273D}', '*',
    '\U{25D0}', '\U{25D1}', '\U{25D2}', '\U{25D3}'
  }

  predicate IsRail(line: string) {
    Trim(line) != [] && forall i | 0 <= i < |Trim(line)| :: Trim(line)[i] == RAIL
  }

  predicate IsPrompt(line: string) {
    exists i | 0 <= i < |line| && i < 3 :: line[i] == PROMPT || line[i] == '>'
  }

  /** Rails without a gap, and nothing else but blanks around them. */
  predicate ShowsRail(line: string) {
    && (exists i | 0 <= i < |line| :: line[i] == RAIL)
    && (forall i | 0 <= i < |line| :: line[i] == RAIL || IsWhitespace(line[i]))
    && forall i, j, k | 0 <= i < j < k < |line| && line[i] == RAIL && line[k] == RAIL :: line[j] == RAIL
  }

  lemma RailsInBlanks(line: string, from: nat, to: nat)
    requires from < to <= |line| && forall i | from <= i < to :: line[i] == RAIL
    requires forall i | 0 <= i < from :: IsWhitespace(line[i])
    requires forall i | to <= i < |line| :: IsWhitespace(line[i])
    ensures ShowsRail(line)
  {
    assert line[from] == RAIL;
  }

  lemma {:induction false} RailMeans(line: string)
    ensures IsRail(line) <==> ShowsRail(line)
  {
    var from := TrimStartMeans(line);
    var shown := line[from..];
    var to := TrimEndMeans(shown);
    assert Trim(line) == shown[..to] == line[from..from + to];
    if IsRail(line) {
      assert forall i | from <= i < from + to :: line[i] == Trim(line)[i - from] == RAIL;
      forall i | from + to <= i < |line| ensures IsWhitespace(line[i]) {
        assert line[i] == shown[i - from];
      }
      assert line[from] == RAIL;
      RailsInBlanks(line, from, from + to);
    }
    if ShowsRail(line) {
      var r :| 0 <= r < |line| && line[r] == RAIL;
      assert from <= r && shown[r - from] == RAIL;
      assert line[from] == RAIL;
      assert r - from < to;
      assert line[from + to - 1] == shown[to - 1] == RAIL;
      forall i | 0 <= i < |Trim(line)| ensures Trim(line)[i] == RAIL {
        assert Trim(line)[i] == line[from + i];
      }
    }
  }

  /** A status glyph and a space, then a busy verb or a finished turn. */
  predicate IsStatusLine(alphabetic: CharClass, line: string) {
    var shown := TrimStart(line);
    && |shown| >= 2
    && (shown[0] in STATUS_GLYPHS || IsSpinnerGlyph(shown[0]))
    && shown[1] == ' '
    && var first := WordAt(shown[2..], 0);
       && first != []
       && (first[|first| - 1] == ELLIPSIS || IsFinishedTurn(alphabetic, first, shown[2..]))
  }

  predicate IsFinishedTurn(alphabetic: CharClass, first: string, text: string) {
    && (forall i | 0 <= i < |first| :: alphabetic(first[i]))
    && WordAt(text, 1) == "for"
    && WordAt(text, 2) != [] && '0' <= WordAt(text, 2)[0] <= '9'
  }

  /** A status line, told by its parts: behind any indent a glyph of the list and a space,
      then a word that ends in an ellipsis, or letters followed by `for` and a number. */
  lemma {:induction false} StatusIff(alphabetic: CharClass, indent: string, glyph: char, gap: string, word: string,
                                     rest: string)
    requires IsBlankLine(indent) && !IsWhitespace(glyph) && IsBlankLine(gap) && IsWord(word) && EndsWord(rest)
    ensures IsStatusLine(alphabetic, indent + ([glyph, ' '] + (gap + (word + rest)))) <==>
            && (glyph in STATUS_GLYPHS || IsSpinnerGlyph(glyph))
            && (|| word[|word| - 1] == ELLIPSIS
                || (&& (forall i | 0 <= i < |word| :: alphabetic(word[i]))
                    && WordAt(rest, 0) == "for"
                    && WordAt(rest, 1) != [] && '0' <= WordAt(rest, 1)[0] <= '9'))
  {
    var text := gap + (word + rest);
    var shown := [glyph, ' '] + text;
    assert shown[0] == glyph && shown[1] == ' ' && shown[2..] == text;
    GapIsTrimmed(indent, shown);
    WordsAreCounted(gap, word, rest, 0);
    WordsAreCounted(gap, word, rest, 1);
  }

  /** Without the space behind the glyph, or without a word, a line is none. */
  lemma {:induction false} NoStatusWithoutWord(alphabetic: CharClass, indent: string, shown: string)
    requires IsBlankLine(indent) && (shown == [] || !IsWhitespace(shown[0]))
    requires |shown| < 2 || shown[1] != ' ' || IsBlankLine(shown[2..])
    ensures !IsStatusLine(alphabetic, indent + shown)
  {
    GapIsTrimmed(indent, shown);
    if |shown| >= 2 && IsBlankLine(shown[2..]) {
      GapIsTrimmed(shown[2..], []);
      assert shown[2..] + [] == shown[2..];
    }
  }

  predicate StartsAtColumnZero(line: string) {
    line == [] || !IsWhitespace(line[0])
  }

  /** An input box's line holds a prompt character among its first three; a line of the
      conversation starts without a blank, and so does an empty one. */
  lemma {:induction false} LineStartsMean(start: string, rest: string, blank: char)
    requires |start| == 3 && IsWhitespace(blank)
    ensures IsPrompt(start + rest) <==> PROMPT in start || '>' in start
    ensures !StartsAtColumnZero([blank] + rest) && StartsAtColumnZero([])
    ensures rest != [] && !IsWhitespace(rest[0]) ==> StartsAtColumnZero(rest)
  {
    var line := start + rest;
    assert forall i | 0 <= i < 3 :: line[i] == start[i];
    assert IsPrompt(line) <==> exists i | 0 <= i < 3 :: start[i] == PROMPT || start[i] == '>';
  }

  /** The three line tests the search uses; nothing else about a line matters to it. */
  datatype Marks = Marks(rail: string -> bool, prompt: string -> bool, status: string -> bool)

  function ClaudeMarks(alphabetic: CharClass): Marks {
    Marks(IsRail, IsPrompt, (line: string) => IsStatusLine(alphabetic, line))
  }

  /** A line the search for the status line does not go past. */
  predicate IsStopper(marks: Marks, line: string) {
    marks.status(line) || StartsAtColumnZero(line)
  }

  predicate IsInputBox(marks: Marks, lines: seq<string>, i: int) {
    0 <= i < |lines| - 1 && marks.rail(lines[i]) && marks.prompt(lines[i + 1])
  }

  /** The last rail below `bound` that sits on a prompt. */
  function LastRailBelow(marks: Marks, lines: seq<string>, bound: nat): (rail: Option<nat>)
    ensures rail.Some? ==> rail.value < bound && IsInputBox(marks, lines, rail.value)
    ensures forall i | (if rail.Some? then rail.value + 1 else 0) <= i < bound :: !IsInputBox(marks, lines, i)
  {
    if bound == 0 then None
    else if IsInputBox(marks, lines, bound - 1) then Some(bound - 1)
    else LastRailBelow(marks, lines, bound - 1)
  }

  function LastRail(marks: Marks, lines: seq<string>): (rail: Option<nat>)
    ensures rail.Some? ==> IsInputBox(marks, lines, rail.value)
  {
    LastRailBelow(marks, lines, |lines|)
  }

  /** Where the live part starts, looking upwards from line `i`. */
  function BlockStart(marks: Marks, lines: seq<string>, rail: nat, i: nat): (start: nat)
    requires i <= rail < |lines|
    ensures start <= rail
  {
    if i == 0 then rail
    else if marks.status(lines[i - 1]) then i - 1
    else if StartsAtColumnZero(lines[i - 1]) then rail
    else BlockStart(marks, lines, rail, i - 1)
  }

  /** Byte lengths of the first `n` lines, each with one byte for its newline. */
  function LineBytes(lines: seq<string>, n: nat): nat
    requires n <= |lines|
  {
    if n == 0 then 0 else LineBytes(lines, n - 1) + Bytes(lines[n - 1]) + 1
  }

  /** The text from a byte offset on; none inside a character or past the end. */
  function FromByte(s: string, offset: nat): Option<string> {
    if offset == 0 then Some(s)
    else if s == [] || offset < Width(s[0]) then None
    else FromByte(s[1..], offset - Width(s[0]))
  }

  /** The byte offset at which the live part starts. */
  function Cut(marks: Marks, lines: seq<string>, rail: nat): nat
    requires rail < |lines|
  {
    LineBytes(lines, BlockStart(marks, lines, rail, rail))
  }

  function LiveScreen(marks: Marks, screen: string): Option<string> {
    var lines := Lines(screen);
    var rail := LastRail(marks, lines);
    if rail.None? then None else FromByte(screen, Cut(marks, lines, rail.value))
  }

  /** The two upward searches of the source. */
  method ClaudeLiveScreen(marks: Marks, screen: string) returns (live: Option<string>)
    ensures live == LiveScreen(marks, screen)
  {
    var lines := Lines(screen);
    var rail: nat := |lines|;
    while rail > 0 && !IsInputBox(marks, lines, rail - 1)
      invariant rail <= |lines| && LastRail(marks, lines) == LastRailBelow(marks, lines, rail)
    {
      rail := rail - 1;
    }
    if rail == 0 {
      return None;
    }
    rail := rail - 1;
    var start, i: nat := rail, rail;
    while i > 0
      invariant i <= rail && start == rail
      invariant BlockStart(marks, lines, rail, rail) == BlockStart(marks, lines, rail, i)
    {
      i := i - 1;
      if marks.status(lines[i]) {
        start := i;
        break;
      }
      if StartsAtColumnZero(lines[i]) {
        break;
      }
    }
    live := FromByte(screen, LineBytes(lines, start));
  }

  // ---- the transcript above the block ----

  /** The text shows an input box with a stopper somewhere above it. */
  predicate Anchored(marks: Marks, screen: string) {
    var lines := Lines(screen);
    var rail := LastRail(marks, lines);
    rail.Some? && exists i | 0 <= i < rail.value :: IsStopper(marks, lines[i])
  }

  lemma {:induction false} LineBytesAppend(a: seq<string>, b: seq<string>, n: nat)
    requires n <= |b|
    ensures LineBytes(a + b, |a| + n) == LineBytes(a, |a|) + LineBytes(b, n)
    decreases n
  {
    if n > 0 {
      LineBytesAppend(a, b, n - 1);
    } else {
      LineBytesPrefix(a, b, |a|);
    }
  }

  lemma {:induction false} LineBytesPrefix(a: seq<string>, b: seq<string>, n: nat)
    requires n <= |a|
    ensures LineBytes(a + b, n) == LineBytes(a, n)
    decreases n
  {
    if n > 0 {
      LineBytesPrefix(a, b, n - 1);
    }
  }

  lemma {:induction false} LineBytesOfFirst(first: string, others: seq<string>)
    ensures LineBytes([first] + others, 1 + |others|) == Bytes(first) + 1 + LineBytes(others, |others|)
  {
    LineBytesAppend([first], others, |others|);
    assert LineBytes([first], 1) == LineBytes([first], 0) + Bytes(first) + 1;
  }

  /** Counting a newline for each line misses the dropped carriage returns. */
  lemma {:induction false} LineBytesOfWhole(t: string)
    requires NewlineEnded(t)
    ensures LineBytes(Lines(t), |Lines(t)|) + DroppedReturns(t) == Bytes(t)
    decreases |t|
  {
    if t != [] {
      var n := LineEnd(t);
      WholeFirstLine(t);
      LineBytesOfFirst(WithoutReturn(t[..n]), Lines(t[n + 1..]));
      LineBytesOfWhole(t[n + 1..]);
      FirstLineBytes(t, n);
    }
  }

  lemma FirstLineBytes(t: string, n: nat)
    requires n < |t| && t[n] == '\n'
    ensures Bytes(t) ==
            Bytes(WithoutReturn(t[..n])) + (if EndsInReturn(t[..n]) then 1 else 0) + 1 + Bytes(t[n + 1..])
  {
    assert t == t[..n] + (['\n'] + t[n + 1..]);
    BytesAppend(t[..n], ['\n'] + t[n + 1..]);
    BytesAppend(['\n'], t[n + 1..]);
    assert Bytes(['\n']) == 1;
    if EndsInReturn(t[..n]) {
      assert t[..n] == WithoutReturn(t[..n]) + ['\r'];
      BytesAppend(WithoutReturn(t[..n]), ['\r']);
      assert Bytes(['\r']) == 1;
    }
  }

  lemma {:induction false} FromByteAppend(t: string, s: string, offset: nat)
    ensures FromByte(t + s, Bytes(t) + offset) == FromByte(s, offset)
    decreases |t|
  {
    if t == [] {
      assert t + s == s;
    } else {
      assert (t + s)[1..] == t[1..] + s;
      FromByteAppend(t[1..], s, offset);
    }
  }

  lemma {:induction false} FromByteLength(s: string, offset: nat)
    ensures FromByte(s, offset).Some? ==> Bytes(FromByte(s, offset).value) + offset == Bytes(s)
    decreases |s|
  {
    if offset > 0 && s != [] && offset >= Width(s[0]) {
      FromByteLength(s[1..], offset - Width(s[0]));
    }
  }

  lemma {:induction false} LastRailOfAppend(marks: Marks, a: seq<string>, b: seq<string>, bound: nat)
    requires bound <= |b| && LastRailBelow(marks, b, bound).Some?
    ensures LastRailBelow(marks, a + b, |a| + bound) == Some(|a| + LastRailBelow(marks, b, bound).value)
    decreases bound
  {
    assert IsInputBox(marks, a + b, |a| + bound - 1) == IsInputBox(marks, b, bound - 1);
    if !IsInputBox(marks, b, bound - 1) {
      LastRailOfAppend(marks, a, b, bound - 1);
    }
  }

  lemma {:induction false} BlockStartOfAppend(marks: Marks, a: seq<string>, b: seq<string>, rail: nat, i: nat)
    requires i <= rail < |b| && exists j | 0 <= j < i :: IsStopper(marks, b[j])
    ensures BlockStart(marks, a + b, |a| + rail, |a| + i) == |a| + BlockStart(marks, b, rail, i)
    decreases i
  {
    assert (a + b)[|a| + i - 1] == b[i - 1];
    if !IsStopper(marks, b[i - 1]) {
      BlockStartOfAppend(marks, a, b, rail, i - 1);
    }
  }

  lemma {:induction false} CutOfAppend(marks: Marks, above: seq<string>, lines: seq<string>)
    requires LastRail(marks, lines).Some?
    requires exists i | 0 <= i < LastRail(marks, lines).value :: IsStopper(marks, lines[i])
    ensures LastRail(marks, above + lines) == Some(|above| + LastRail(marks, lines).value)
    ensures Cut(marks, above + lines, LastRail(marks, above + lines).value) ==
            LineBytes(above, |above|) + Cut(marks, lines, LastRail(marks, lines).value)
  {
    LastRailOfAppend(marks, above, lines, |lines|);
    var rail := LastRail(marks, lines).value;
    BlockStartOfAppend(marks, above, lines, rail, rail);
    LineBytesAppend(above, lines, BlockStart(marks, lines, rail, rail));
  }

  lemma LiveScreenFromLines(marks: Marks, screen: string, lines: seq<string>)
    requires Lines(screen) == lines && LastRail(marks, lines).Some?
    ensures LiveScreen(marks, screen) == FromByte(screen, Cut(marks, lines, LastRail(marks, lines).value))
  {
  }

  /** Lines put above an anchored screen move its cut by exactly their byte count,
      short by one for each carriage return dropped from them. */
  lemma {:induction false} CutUnderTranscript(marks: Marks, transcript: string, screen: string)
      returns (cut: nat, shift: nat)
    requires NewlineEnded(transcript) && Anchored(marks, screen)
    ensures shift + DroppedReturns(transcript) == Bytes(transcript)
    ensures LiveScreen(marks, screen) == FromByte(screen, cut)
    ensures LiveScreen(marks, transcript + screen) == FromByte(transcript + screen, shift + cut)
  {
    var above, lines := Lines(transcript), Lines(screen);
    LineBytesOfWhole(transcript);
    LinesAppend(transcript, screen);
    shift, cut := CutUnderLines(marks, transcript + screen, above, lines);
    LiveScreenFromLines(marks, screen, lines);
  }

  lemma {:induction false} CutUnderLines(marks: Marks, whole: string, above: seq<string>, lines: seq<string>)
      returns (shift: nat, cut: nat)
    requires Lines(whole) == above + lines
    requires LastRail(marks, lines).Some?
    requires exists i | 0 <= i < LastRail(marks, lines).value :: IsStopper(marks, lines[i])
    ensures shift == LineBytes(above, |above|) && cut == Cut(marks, lines, LastRail(marks, lines).value)
    ensures LiveScreen(marks, whole) == FromByte(whole, shift + cut)
  {
    CutOfAppend(marks, above, lines);
    LiveScreenFromLines(marks, whole, above + lines);
    shift, cut := LineBytes(above, |above|), Cut(marks, lines, LastRail(marks, lines).value);
  }

  /** Transcript lines put above an anchored screen leave the live part alone. */
  lemma {:induction false} TranscriptIsIgnored(marks: Marks, transcript: string, screen: string)
    requires NewlineEnded(transcript) && DroppedReturns(transcript) == 0 && Anchored(marks, screen)
    ensures LiveScreen(marks, transcript + screen) == LiveScreen(marks, screen)
  {
    var cut, shift := CutUnderTranscript(marks, transcript, screen);
    FromByteAppend(transcript, screen, cut);
  }

  /** With carriage returns before its newlines, the transcript does reach into the
      live part: the cut counts one byte for each line end. */
  lemma {:induction false} IgnoredIffNoReturns(marks: Marks, transcript: string, screen: string)
    requires NewlineEnded(transcript) && Anchored(marks, screen) && LiveScreen(marks, screen).Some?
    ensures LiveScreen(marks, transcript + screen) == LiveScreen(marks, screen) <==>
            DroppedReturns(transcript) == 0
  {
    if DroppedReturns(transcript) == 0 {
      TranscriptIsIgnored(marks, transcript, screen);
    } else {
      var cut, shift := CutUnderTranscript(marks, transcript, screen);
      FromByteLength(screen, cut);
      FromByteLength(transcript + screen, shift + cut);
      BytesAppend(transcript, screen);
    }
  }

  /** Line `k` is a status line with only indented text between it and the rail. */
  predicate IsLiveStatus(marks: Marks, lines: seq<string>, rail: nat, k: nat)
    requires k < rail < |lines|
  {
    marks.status(lines[k]) && forall j | k < j < rail :: !IsStopper(marks, lines[j])
  }

  /** The live part starts at a status line with only indented text under it, or, if
      there is none, at the input box. */
  lemma {:induction false} BlockStartMeans(marks: Marks, lines: seq<string>, rail: nat, i: nat)
    requires i <= rail < |lines| && forall j | i <= j < rail :: !IsStopper(marks, lines[j])
    ensures var start := BlockStart(marks, lines, rail, i);
            if exists k | 0 <= k < rail :: IsLiveStatus(marks, lines, rail, k)
            then start < rail && IsLiveStatus(marks, lines, rail, start)
            else start == rail
    decreases i
  {
    if i > 0 && !IsStopper(marks, lines[i - 1]) {
      BlockStartMeans(marks, lines, rail, i - 1);
    }
  }

  /** With plain newlines the live part is the screen's own lines from there on. */
  lemma {:induction false} LiveScreenIsTheLastLines(marks: Marks, screen: string)
    requires DroppedReturns(screen) == 0 && LastRail(marks, Lines(screen)).Some?
    ensures var rail := LastRail(marks, Lines(screen)).value;
            var live := LiveScreen(marks, screen);
            live.Some? && Lines(live.value) == Lines(screen)[BlockStart(marks, Lines(screen), rail, rail)..]
  {
    var rail := LastRail(marks, Lines(screen)).value;
    LinesFromCut(screen, BlockStart(marks, Lines(screen), rail, rail));
  }

  lemma {:induction false} PlainFirstLine(s: string)
    requires DroppedReturns(s) == 0 && |Lines(s)| > 1
    ensures LineEnd(s) < |s| && Lines(s) == [s[..LineEnd(s)]] + Lines(s[LineEnd(s) + 1..])
    ensures DroppedReturns(s[LineEnd(s) + 1..]) == 0
  {
  }

  lemma {:induction false} CutBehindFirstLine(line: string, rest: string, n: nat)
    requires n <= |Lines(rest)|
    ensures FromByte((line + ['\n']) + rest, LineBytes([line] + Lines(rest), n + 1)) ==
            FromByte(rest, LineBytes(Lines(rest), n))
  {
    LineBytesAppend([line], Lines(rest), n);
    assert LineBytes([line], 1) == LineBytes([line], 0) + Bytes(line) + 1;
    BytesAppend(line, ['\n']);
    assert Bytes(['\n']) == 1;
    FromByteAppend(line + ['\n'], rest, LineBytes(Lines(rest), n));
  }

  /** Cutting before line `n` gives the lines from there on. */
  predicate CutsAt(s: string, n: nat) {
    && n <= |Lines(s)|
    && var cut := FromByte(s, LineBytes(Lines(s), n));
       cut.Some? && Lines(cut.value) == Lines(s)[n..]
  }

  lemma {:induction false} CutsOneFurther(s: string, line: string, rest: string, n: nat)
    requires s == (line + ['\n']) + rest && Lines(s) == [line] + Lines(rest) && CutsAt(rest, n)
    ensures CutsAt(s, n + 1)
  {
    CutBehindFirstLine(line, rest, n);
    assert ([line] + Lines(rest))[n + 1..] == Lines(rest)[n..];
  }

  lemma RejoinAt<T>(s: seq<T>, n: nat)
    requires n < |s|
    ensures s == (s[..n] + [s[n]]) + s[n + 1..]
  {
    assert s[..n] + [s[n]] == s[..n + 1];
  }

  lemma {:induction false} LinesFromCut(s: string, n: nat)
    requires DroppedReturns(s) == 0 && n < |Lines(s)|
    ensures CutsAt(s, n)
    decreases n
  {
    if n == 0 {
      assert LineBytes(Lines(s), 0) == 0;
      assert FromByte(s, 0) == Some(s);
    } else {
      PlainFirstLine(s);
      var line, rest := s[..LineEnd(s)], s[LineEnd(s) + 1..];
      assert |Lines(s)| == 1 + |Lines(rest)|;
      LinesFromCut(rest, n - 1);
      RejoinAt(s, LineEnd(s));
      CutsOneFurther(s, line, rest, n - 1);
    }
  }

  /** Up to a status line with nothing but indented lines under it. */
  lemma {:induction false} StatusAbove(marks: Marks, status: string, lines: seq<string>, rail: nat, i: nat)
    requires i <= rail < |lines| && marks.status(status)
    requires forall j | 0 <= j < i :: !IsStopper(marks, lines[j])
    ensures BlockStart(marks, [status] + lines, 1 + rail, 1 + i) == 0
    decreases i
  {
    assert ([status] + lines)[i] == if i == 0 then status else lines[i - 1];
    if i > 0 {
      StatusAbove(marks, status, lines, rail, i - 1);
    }
  }

  /** A busy status line and an empty input box. */
  const BUSY: string := ['*', ' ', ELLIPSIS]
  const EMPTY_BOX: string := [RAIL, '\n', '>', '\n']

  lemma BusyLine(alphabetic: CharClass)
    ensures IsStatusLine(alphabetic, BUSY) && Lines(BUSY + ['\n']) == [BUSY]
    ensures DroppedReturns(BUSY + ['\n']) == 0
  {
    assert BUSY + ['\n'] + [] == BUSY + ['\n'];
    OneLine(BUSY, []);
    assert TrimStart(BUSY) == BUSY;
    assert BUSY[2..] == [ELLIPSIS];
    assert TrimStart([ELLIPSIS]) == [ELLIPSIS];
    assert [ELLIPSIS][1..] == [];
    assert FirstWord([ELLIPSIS]) == [ELLIPSIS];
  }

  lemma EmptyBoxLines()
    ensures Lines(EMPTY_BOX) == [[RAIL], ['>']] && IsRail([RAIL]) && IsPrompt(['>']) && !IsRail(['>'])
    ensures DroppedReturns(EMPTY_BOX) == 0
  {
    var rest := ['>', '\n'];
    assert EMPTY_BOX == [RAIL] + ['\n'] + rest && rest == ['>'] + ['\n'] + [];
    OneLine(['>'], []);
    OneLine([RAIL], rest);
    assert [RAIL][0] == RAIL && ['>'][0] == '>';
    assert TrimStart([RAIL]) == [RAIL] && TrimEnd([RAIL]) == [RAIL];
    assert TrimStart(['>']) == ['>'] && TrimEnd(['>']) == ['>'];
  }

  lemma RowsOfTranscripts()
    ensures AreRows([BUSY]) && EndedRows([BUSY]) == BUSY + ['\n']
    ensures AreRows([[RAIL], ['>']]) && EndedRows([[RAIL], ['>']]) == EMPTY_BOX
  {
    var box: seq<string> := [[RAIL], ['>']];
    assert [BUSY][1..] == [] && box[1..] == [['>']] && [['>']][1..] == [];
    assert TrimEnd(BUSY) == BUSY && TrimEnd([RAIL]) == [RAIL] && TrimEnd(['>']) == ['>'];
  }

  /** Rows that change the live part of a screen without an anchor. */
  lemma {:induction false} UnanchoredIsReached(marks: Marks, screen: string) returns (above: seq<string>)
    requires marks.rail([RAIL]) && marks.prompt(['>']) && !marks.rail(['>']) && marks.status(BUSY)
    requires Lines(BUSY + ['\n']) == [BUSY] && DroppedReturns(BUSY + ['\n']) == 0
    requires Lines(EMPTY_BOX) == [[RAIL], ['>']] && DroppedReturns(EMPTY_BOX) == 0
    requires !Anchored(marks, screen)
    ensures AreRows(above) && LiveScreen(marks, EndedRows(above) + screen) != LiveScreen(marks, screen)
  {
    var lines := Lines(screen);
    RowsOfTranscripts();
    if LastRail(marks, lines).None? {
      above := [[RAIL], ['>']];
      var transcript := EMPTY_BOX;
      LinesAppend(transcript, screen);
      BoxAboveNothing(marks, [[RAIL], ['>']], lines, |lines|);
      LiveScreenFromLines(marks, transcript + screen, [[RAIL], ['>']] + lines);
    } else {
      above := [BUSY];
      var transcript := BUSY + ['\n'];
      LinesAppend(transcript, screen);
      BusyAboveUnanchored(marks, lines);
      LiveScreenFromLines(marks, transcript + screen, [BUSY] + lines);
      FromByteLength(screen, Cut(marks, lines, LastRail(marks, lines).value));
      BytesAppend(transcript, screen);
      assert Bytes(transcript) > 0;
    }
  }

  lemma {:induction false} BusyAboveUnanchored(marks: Marks, lines: seq<string>)
    requires LastRail(marks, lines).Some? && marks.status(BUSY)
    requires forall i | 0 <= i < LastRail(marks, lines).value :: !IsStopper(marks, lines[i])
    ensures LastRail(marks, [BUSY] + lines).Some?
    ensures Cut(marks, [BUSY] + lines, LastRail(marks, [BUSY] + lines).value) == 0
  {
    LastRailOfAppend(marks, [BUSY], lines, |lines|);
    StatusAbove(marks, BUSY, lines, LastRail(marks, lines).value, LastRail(marks, lines).value);
  }

  lemma {:induction false} BoxAboveNothing(marks: Marks, box: seq<string>, lines: seq<string>, bound: nat)
    requires |box| == 2 && IsInputBox(marks, box, 0) && !marks.rail(box[1]) && bound <= |lines|
    requires forall i | 0 <= i < |lines| :: !IsInputBox(marks, lines, i)
    ensures LastRailBelow(marks, box + lines, 2 + bound) == Some(0)
    decreases bound
  {
    var all := box + lines;
    if bound > 0 {
      assert IsInputBox(marks, all, bound + 1) == IsInputBox(marks, lines, bound - 1);
      BoxAboveNothing(marks, box, lines, bound - 1);
    } else {
      assert all[0] == box[0] && all[1] == box[1];
      assert LastRailBelow(marks, all, 1) == Some(0);
    }
  }

  /** No transcript can reach the live part of a Claude screen exactly when the
      screen is anchored, and that is so even of the rows a terminal can show. */
  lemma {:induction false} SafeFromTranscriptsIffAnchored(alphabetic: CharClass, screen: string)
    ensures var marks := ClaudeMarks(alphabetic);
            Anchored(marks, screen) <==>
            forall transcript: string | NewlineEnded(transcript) && DroppedReturns(transcript) == 0 ::
              LiveScreen(marks, transcript + screen) == LiveScreen(marks, screen)
    ensures var marks := ClaudeMarks(alphabetic);
            Anchored(marks, screen) <==>
            forall above: seq<string> | AreRows(above) ::
              LiveScreen(marks, EndedRows(above) + screen) == LiveScreen(marks, screen)
  {
    var marks := ClaudeMarks(alphabetic);
    forall above: seq<string> | AreRows(above)
      ensures NewlineEnded(EndedRows(above)) && DroppedReturns(EndedRows(above)) == 0
    {
      NoReturnsInEnded(above);
    }
    if Anchored(marks, screen) {
      forall transcript: string | NewlineEnded(transcript) && DroppedReturns(transcript) == 0
        ensures LiveScreen(marks, transcript + screen) == LiveScreen(marks, screen)
      {
        TranscriptIsIgnored(marks, transcript, screen);
      }
    } else {
      BusyLine(alphabetic);
      EmptyBoxLines();
      var above := UnanchoredIsReached(marks, screen);
    }
  }

  // ---- verdicts ----

  datatype PromptEvidence = NoEvidence | PromptBlocked

  /** The rules in effect, how agents are identified, and the character table of the
      status line. */
  datatype Detector = Detector(rules: seq<Rule>, identifier: Identifier, alphabetic: CharClass)
  {
    function Low(s: string): string {
      identifier.Low(s)
    }

    /** While Claude's input box is live, it is at its prompt. */
    predicate TranscriptCannotBlock(agent: string, liveComposer: Option<bool>) {
      Lower(AsciiLower, agent) == "claude" && liveComposer == Some(true)
    }

    function StateText(agent: string, bottom: string, liveComposer: Option<bool>): string {
      var live := if TranscriptCannotBlock(agent, liveComposer) then LiveScreen(ClaudeMarks(alphabetic), bottom)
                  else None;
      if live.Some? then live.value else bottom
    }

    function Matched(agent: string, title: string, bottom: string, liveComposer: Option<bool>): Option<RuleMatch> {
      var regions := Regions(Low(StateText(agent, bottom, liveComposer)), Low(title));
      Evaluate(rules, ApplicableTo(agent, regions, TranscriptCannotBlock(agent, liveComposer)))
    }

    /** A pane's agent, its state, and whether it blocks a prompt. */
    function Classify(pane: Pane, bottom: string, recentActivity: bool, recentInput: bool,
                      liveComposer: Option<bool>): (string, State, PromptEvidence)
    {
      var agent := identifier.Identity(pane, bottom);
      var (state, evidence) := Verdict(agent, pane.title, bottom, recentActivity, recentInput, liveComposer);
      (agent, state, evidence)
    }

    /** The state of a pane taken for this agent. */
    function Verdict(agent: string, title: string, bottom: string, recentActivity: bool, recentInput: bool,
                     liveComposer: Option<bool>): (State, PromptEvidence)
    {
      var fallback := if !identifier.IsAgent(agent) && recentActivity && !recentInput then Working else Idle;
      var matched := Matched(agent, title, bottom, liveComposer);
      (if matched.Some? then matched.value.state else fallback,
       if matched.Some? && matched.value.state.Blocked? then PromptBlocked else NoEvidence)
    }

    function PromptEvidenceOf(agent: string, title: string, bottom: string, liveComposer: Option<bool>)
      : PromptEvidence
    {
      var matched := Matched(Low(agent), title, bottom, liveComposer);
      if matched.Some? && matched.value.state.Blocked? then PromptBlocked else NoEvidence
    }

    /** The verdict is the winning rule's: its state, and blocked evidence exactly if that
        is blocked. Where no rule applies, an unrecognised program works while it has
        recent output and no recent input, and all else idles. Rules read the whole bottom
        text, and none is skipped, unless the agent is Claude and its input box is live:
        then they read the live part, where there is one, and the screen's blocked rules
        are skipped. */
    lemma {:induction false} VerdictMeans(agent: string, title: string, bottom: string, recentActivity: bool,
                                          recentInput: bool, liveComposer: Option<bool>)
      ensures var atPrompt := Lower(AsciiLower, agent) == "claude" && liveComposer == Some(true);
              var live := LiveScreen(ClaudeMarks(alphabetic), bottom);
              var text := if atPrompt && live.Some? then live.value else bottom;
              var applies := ApplicableTo(agent, Regions(Low(text), Low(title)), atPrompt);
              var recognised := exists i | 0 <= i < |identifier.manifests.agents| ::
                  identifier.manifests.agents[i].name == Low(agent);
              var (state, evidence) := Verdict(agent, title, bottom, recentActivity, recentInput, liveComposer);
              if NoneApplies(rules, applies) then
                && evidence == NoEvidence
                && state == if !recognised && recentActivity && !recentInput then Working else Idle
              else
                exists i | 0 <= i < |rules| ::
                  WinsAt(rules, applies, i) && state == rules[i].state &&
                  (evidence == PromptBlocked <==> rules[i].state == Blocked)
    {
      var regions := Regions(Low(StateText(agent, bottom, liveComposer)), Low(title));
      EvaluateIsVerdict(rules, ApplicableTo(agent, regions, TranscriptCannotBlock(agent, liveComposer)));
    }

    /** The evidence taken again before a prompt, of the agent in lower case. */
    lemma {:induction false} PromptEvidenceMeans(agent: string, title: string, bottom: string,
                                                 liveComposer: Option<bool>)
      ensures var atPrompt := Lower(AsciiLower, Low(agent)) == "claude" && liveComposer == Some(true);
              var live := LiveScreen(ClaudeMarks(alphabetic), bottom);
              var text := if atPrompt && live.Some? then live.value else bottom;
              var applies := ApplicableTo(Low(agent), Regions(Low(text), Low(title)), atPrompt);
              PromptEvidenceOf(agent, title, bottom, liveComposer) == PromptBlocked <==>
              exists i | 0 <= i < |rules| :: WinsAt(rules, applies, i) && rules[i].state == Blocked
    {
      var regions := Regions(Low(StateText(Low(agent), bottom, liveComposer)), Low(title));
      var applies := ApplicableTo(Low(agent), regions, TranscriptCannotBlock(Low(agent), liveComposer));
      EvaluateIsVerdict(rules, applies);
      var ours := Evaluate(rules, applies);
      if ours.Some? {
        var i :| 0 <= i < |rules| && WinsAt(rules, applies, i) && ours.value == MatchOf(rules[i]);
        forall j | 0 <= j < |rules| && WinsAt(rules, applies, j) ensures j == i {
        }
      }
    }

    /** A pane is judged as the agent it is taken for. */
    lemma ClassifyMeans(pane: Pane, bottom: string, recentActivity: bool, recentInput: bool,
                        liveComposer: Option<bool>)
      ensures var (agent, state, evidence) := Classify(pane, bottom, recentActivity, recentInput, liveComposer);
              && agent == identifier.Identity(pane, bottom)
              && (state, evidence) == Verdict(agent, pane.title, bottom, recentActivity, recentInput, liveComposer)
    {
    }

    lemma {:induction false} StateTextKept(agent: string, transcript: string, screen: string)
      requires Lower(AsciiLower, agent) == "claude"
      requires NewlineEnded(transcript) && DroppedReturns(transcript) == 0
      requires DroppedReturns(screen) == 0 && Anchored(ClaudeMarks(alphabetic), screen)
      ensures StateText(agent, transcript + screen, Some(true)) == StateText(agent, screen, Some(true))
    {
      var marks := ClaudeMarks(alphabetic);
      var rail := LastRail(marks, Lines(screen)).value;
      LinesFromCut(screen, BlockStart(marks, Lines(screen), rail, rail));
      TranscriptIsIgnored(marks, transcript, screen);
    }

    /** A screen with rows above it, as the text of its `n` last rows. */
    lemma {:induction false} RowsAboveKeepStateText(agent: string, above: seq<string>, screen: seq<string>, n: nat,
                                                    nonEmpty: bool)
      requires NoNewlines(above) && NoNewlines(screen)
      requires Lower(AsciiLower, agent) == "claude"
      requires Anchored(ClaudeMarks(alphabetic), DetectionText(screen, n, nonEmpty))
      ensures StateText(agent, DetectionText(above + screen, n, nonEmpty), Some(true)) ==
              StateText(agent, DetectionText(screen, n, nonEmpty), Some(true))
    {
      var transcript := TextBelowRows(above, screen, n, nonEmpty);
      StateTextKept(agent, transcript, DetectionText(screen, n, nonEmpty));
    }

    /** What stands in rows above Claude's live status block changes its state and the
        evidence about its prompt only by changing which agent the pane is taken for. */
    lemma {:induction false} TranscriptActsByIdentityOnly(agent: string, title: string, above: seq<string>,
                                                          screen: seq<string>, n: nat, nonEmpty: bool,
                                                          recentActivity: bool, recentInput: bool)
      requires NoNewlines(above) && NoNewlines(screen) && Lower(AsciiLower, agent) == "claude"
      requires Anchored(ClaudeMarks(alphabetic), DetectionText(screen, n, nonEmpty))
      ensures var text, whole := DetectionText(screen, n, nonEmpty), DetectionText(above + screen, n, nonEmpty);
              Verdict(agent, title, whole, recentActivity, recentInput, Some(true)) ==
              Verdict(agent, title, text, recentActivity, recentInput, Some(true))
    {
      RowsAboveKeepStateText(agent, above, screen, n, nonEmpty);
    }

    /** Where the screen has no say in that, they change nothing: not the agent, not its
        state, not the evidence about its prompt. */
    lemma {:induction false} TranscriptCannotInfluence(pane: Pane, above: seq<string>, screen: seq<string>, n: nat,
                                                       nonEmpty: bool, recentActivity: bool, recentInput: bool)
      requires NoNewlines(above) && NoNewlines(screen) && identifier.IsDecided(pane)
      requires Anchored(ClaudeMarks(alphabetic), DetectionText(screen, n, nonEmpty))
      requires Lower(AsciiLower, identifier.Identity(pane, DetectionText(screen, n, nonEmpty))) == "claude"
      ensures Classify(pane, DetectionText(above + screen, n, nonEmpty), recentActivity, recentInput, Some(true)) ==
              Classify(pane, DetectionText(screen, n, nonEmpty), recentActivity, recentInput, Some(true))
    {
      identifier.ScreenHasNoSay(pane, DetectionText(above + screen, n, nonEmpty), DetectionText(screen, n, nonEmpty));
      TranscriptActsByIdentityOnly(identifier.Identity(pane, DetectionText(screen, n, nonEmpty)), pane.title,
                                   above, screen, n, nonEmpty, recentActivity, recentInput);
    }

    /** In general they change nothing exactly when they leave the pane what it was taken
        for: by themselves they name no agent, or none that beats the screen's own. */
    lemma {:induction false} TranscriptHarmlessIff(pane: Pane, above: seq<string>, screen: seq<string>, n: nat,
                                                   nonEmpty: bool, recentActivity: bool, recentInput: bool)
        returns (transcript: string)
      requires NoNewlines(above) && NoNewlines(screen) && identifier.ReadsLines()
      requires Anchored(ClaudeMarks(alphabetic), DetectionText(screen, n, nonEmpty))
      requires Lower(AsciiLower, identifier.Identity(pane, DetectionText(screen, n, nonEmpty))) == "claude"
      ensures NewlineEnded(transcript)
      ensures DetectionText(above + screen, n, nonEmpty) == transcript + DetectionText(screen, n, nonEmpty)
      ensures Classify(pane, DetectionText(above + screen, n, nonEmpty), recentActivity, recentInput, Some(true)) ==
              Classify(pane, DetectionText(screen, n, nonEmpty), recentActivity, recentInput, Some(true)) <==>
              identifier.IsDecided(pane) ||
              identifier.KeepsIdentity(pane, transcript, DetectionText(screen, n, nonEmpty))
    {
      transcript := TextBelowRows(above, screen, n, nonEmpty);
      identifier.TranscriptKeepsIdentityIff(pane, transcript, DetectionText(screen, n, nonEmpty));
      TranscriptActsByIdentityOnly(identifier.Identity(pane, DetectionText(screen, n, nonEmpty)), pane.title,
                                   above, screen, n, nonEmpty, recentActivity, recentInput);
    }

    /** Nor do they change the evidence taken again before a prompt is sent. */
    lemma {:induction false} TranscriptCannotOpenOrClosePrompt(agent: string, title: string, above: seq<string>,
                                                               screen: seq<string>, n: nat, nonEmpty: bool)
      requires NoNewlines(above) && NoNewlines(screen) && Lower(AsciiLower, Low(agent)) == "claude"
      requires Anchored(ClaudeMarks(alphabetic), DetectionText(screen, n, nonEmpty))
      ensures PromptEvidenceOf(agent, title, DetectionText(above + screen, n, nonEmpty), Some(true)) ==
              PromptEvidenceOf(agent, title, DetectionText(screen, n, nonEmpty), Some(true))
    {
      RowsAboveKeepStateText(Low(agent), above, screen, n, nonEmpty);
    }

    /** Nor can anything on the screen block it: only a title rule still may. */
    lemma {:induction false} OnlyTitlesBlockLiveClaude(agent: string, title: string, screen: string)
      requires Lower(AsciiLower, agent) == "claude"
      ensures var matched := Matched(agent, title, screen, Some(true));
              matched.Some? && matched.value.state.Blocked? ==> matched.value.region.Title?
    {
      var regions := Regions(Low(StateText(agent, screen, Some(true))), Low(title));
      EvaluateIsVerdict(rules, ApplicableTo(agent, regions, true));
    }
  }

  // ---- a row that renames a pane ----

  /** A busy Claude screen without a letter on it. */
  function BusyScreen(): seq<string> {
    [BUSY, [RAIL], ['>']]
  }

  predicate IsAsciiAlphanumeric(c: char) {
    'a' <= c <= 'z' || 'A' <= c <= 'Z' || '0' <= c <= '9'
  }

  /** Two agents, known by their names. */
  function TwoAgents(one: string, other: string): Identifier {
    var agents := [Agent(one, [one], [], None, None, [], 0), Agent(other, [other], [], None, None, [], 0)];
    Identifier(Manifests(agents, AsciiLower, (flags: seq<string>) => flags), IsAsciiAlphanumeric)
  }

  lemma BusyRows()
    ensures AreRows(BusyScreen()) && forall i | 0 <= i < 3 :: BusyScreen()[i] != []
  {
    assert TrimEnd(BUSY) == BUSY && TrimEnd([RAIL]) == [RAIL] && TrimEnd(['>']) == ['>'];
  }

  lemma {:induction false} BusyScreenIsAnchored(alphabetic: CharClass)
    ensures Anchored(ClaudeMarks(alphabetic), JoinRows(BusyScreen()))
  {
    var rows, marks := BusyScreen(), ClaudeMarks(alphabetic);
    BusyRows();
    NoReturnsInJoined(rows);
    BusyLine(alphabetic);
    EmptyBoxLines();
    assert IsInputBox(marks, rows, 1) && !IsInputBox(marks, rows, 2);
    assert LastRailBelow(marks, rows, 2) == Some(1);
    assert IsStopper(marks, rows[0]);
  }

  /** Neither a letter nor anything lowercasing changes. */
  predicate HasNoLetters(s: string) {
    forall c | c in s :: AsciiLower(c) == [c] && !('a' <= c <= 'z')
  }

  lemma BusyScreenHasNoLetters()
    ensures HasNoLetters(JoinRows(BusyScreen()))
  {
    var rows := BusyScreen();
    assert rows[1..] == [[RAIL], ['>']] && rows[1..][1..] == [['>']];
    assert JoinRows(rows[1..]) == [RAIL] + ['\n'] + ['>'];
    assert JoinRows(rows) == BUSY + ['\n'] + ([RAIL] + ['\n'] + ['>']);
  }

  lemma ShownByName(one: string, other: string, text: string, name: string)
    requires IsSimpleName(one) && IsSimpleName(other) && name in {one, other}
    ensures TwoAgents(one, other).ShowsAgent(text, Agent(name, [name], [], None, None, [], 0)) <==>
            ContainsAgentWord(IsAsciiAlphanumeric, text, name)
  {
    assert name != "arc-studio" by {
      assert "arc-studio"[3] == '-';
    }
    assert [name][0] == name;
  }

  lemma FirstLetterIsThere(text: string, name: string, k: nat)
    requires name != [] && OccursAt(text, name, k)
    ensures name[0] in text
  {
    assert text[k..k + |name|][0] == text[k];
  }

  lemma {:induction false} NoLettersNoName(text: string, name: string)
    requires IsSimpleName(name) && HasNoLetters(text)
    ensures !ContainsAgentWord(IsAsciiAlphanumeric, text, name)
  {
    if ContainsAgentWord(IsAsciiAlphanumeric, text, name) {
      FoundIsStandalone(IsAsciiAlphanumeric, text, name, 0);
      var k :| 0 <= k <= |text| && IsStandaloneAt(IsAsciiAlphanumeric, text, name, k);
      FirstLetterIsThere(text, name, k);
    }
  }

  lemma {:induction false} NoLettersNameNobody(one: string, other: string, text: string)
    requires IsSimpleName(one) && IsSimpleName(other) && HasNoLetters(text)
    ensures TwoAgents(one, other).OnScreen(text) == None
  {
    var identifier := TwoAgents(one, other);
    ShownByName(one, other, text, one);
    ShownByName(one, other, text, other);
    NoLettersNoName(text, one);
    NoLettersNoName(text, other);
    BestIndexIsBest(identifier.manifests.agents, (agent: Agent) => identifier.ShowsAgent(text, agent));
  }

  lemma {:induction false} FirstNameIsNamed(one: string, other: string)
    requires IsSimpleName(one) && IsSimpleName(other)
    ensures TwoAgents(one, other).OnScreen(one + ['\n']) == Some(0)
  {
    var identifier, text := TwoAgents(one, other), one + ['\n'];
    ShownByName(one, other, text, one);
    assert text[0..|one|] == one && OccursAt(text, one, 0);
    assert IsBoundedAt(IsAsciiAlphanumeric, text, one, 0);
    BestIndexIsBest(identifier.manifests.agents, (agent: Agent) => identifier.ShowsAgent(text, agent));
  }

  lemma {:induction false} TextsOfBusyScreen(shown: string)
    requires IsSimpleName(shown)
    ensures DetectionText(BusyScreen(), 4, true) == JoinRows(BusyScreen())
    ensures DetectionText([shown] + BusyScreen(), 4, true) == (shown + ['\n']) + JoinRows(BusyScreen())
  {
    BusyRows();
    ShownStay(BusyScreen());
    SimpleNameIsRow(shown);
    ShownStay([shown] + BusyScreen());
    JoinedBelow([shown], BusyScreen());
    assert EndedRows([shown]) == shown + ['\n'] + EndedRows([shown][1..]);
  }

  lemma SimpleNameIsRow(name: string)
    requires IsSimpleName(name)
    ensures IsRow(name)
  {
    assert !IsWhitespace(name[|name| - 1]);
    assert forall i | 0 <= i < |name| :: name[i] != '\n';
  }

  lemma {:induction false} NamedAboveText(pane: Pane, shown: string, known: string, text: string)
    requires IsSimpleName(known) && IsSimpleName(shown) && !TwoAgents(shown, known).IsDecided(pane)
    requires HasNoLetters(text)
    ensures TwoAgents(shown, known).Identity(pane, (shown + ['\n']) + text) == shown
  {
    var identifier, line := TwoAgents(shown, known), shown + ['\n'];
    NoLettersNameNobody(shown, known, text);
    FirstNameIsNamed(shown, known);
    SimpleName(shown);
    LowerAppends(AsciiLower, shown, ['\n']);
    LowerOne(AsciiLower, '\n');
    LowerAppends(AsciiLower, line, text);
    LowerOnFixed(AsciiLower, text);
    identifier.OnScreenBelowLines(line, text);
    identifier.IdentityByScreen(pane, line + text);
  }

  lemma {:induction false} UnnamedStaysKnown(pane: Pane, shown: string, known: string, text: string)
    requires IsSimpleName(known) && IsSimpleName(shown) && !TwoAgents(shown, known).IsDecided(pane)
    requires HasNoLetters(text) && pane.knownAgent == known
    ensures TwoAgents(shown, known).Identity(pane, text) == known
  {
    var identifier := TwoAgents(shown, known);
    NoLettersNameNobody(shown, known, text);
    LowerOnFixed(AsciiLower, text);
    SimpleName(known);
    assert identifier.manifests.agents[1].name == identifier.Low(known);
    identifier.IdentityByScreen(pane, text);
  }

  /** One row with the name of an agent, above an anchored screen that names none, makes
      of a pane known as another agent a pane of the first. */
  lemma {:induction false} RowRenamesPane(pane: Pane, known: string, shown: string, alphabetic: CharClass)
    requires IsSimpleName(known) && IsSimpleName(shown) && known != shown
    requires pane.knownAgent == known && !TwoAgents(shown, known).IsDecided(pane)
    ensures Anchored(ClaudeMarks(alphabetic), DetectionText(BusyScreen(), 4, true))
    ensures TwoAgents(shown, known).Identity(pane, DetectionText(BusyScreen(), 4, true)) == known
    ensures TwoAgents(shown, known).Identity(pane, DetectionText([shown] + BusyScreen(), 4, true)) == shown
  {
    BusyScreenIsAnchored(alphabetic);
    TextsOfBusyScreen(shown);
    BusyScreenHasNoLetters();
    UnnamedStaysKnown(pane, shown, known, JoinRows(BusyScreen()));
    NamedAboveText(pane, shown, known, JoinRows(BusyScreen()));
  }
}
