/**
  What the conditions of a screen rule mean (src/detect.rs), told by places in the
  text, and for whom a rule applies.
*/
module RuleConditions {
  import opened Text
  import opened RuleEngine

  /** `text` holds `part` from place `k` on. */
  predicate FoundAt(text: string, part: string, k: nat) {
    k + |part| <= |text| && text[k..k + |part|] == part
  }

  predicate IsFound(text: string, part: string) {
    exists k | 0 <= k <= |text| :: FoundAt(text, part, k)
  }

  predicate FoundAny(text: string, parts: seq<string>) {
    exists i | 0 <= i < |parts| :: IsFound(text, parts[i])
  }

  lemma {:induction false} OccursIffFound(part: string, text: string)
    ensures Occurs(part, text) <==> IsFound(text, part)
  {
    if Occurs(part, text) {
      var k :| 0 <= k <= |text| && part <= text[k..];
      assert text[k..][..|part|] == text[k..k + |part|];
      assert FoundAt(text, part, k);
    }
    if k :| 0 <= k <= |text| && FoundAt(text, part, k) {
      assert text[k..][..|part|] == text[k..k + |part|];
    }
  }

  lemma {:induction false} OccursAnyIffFound(parts: seq<string>, text: string)
    ensures OccursAny(parts, text) <==> FoundAny(text, parts)
  {
    forall i | 0 <= i < |parts| ensures Occurs(parts[i], text) <==> IsFound(text, parts[i]) {
      OccursIffFound(parts[i], text);
    }
  }

  /** The conditions on a whole text: some, every, no one of the parts is in it; it starts
      with one of them. */
  lemma {:induction false} TextConditionsMean(parts: seq<string>, low: string)
    ensures Any(parts).Holds(low) <==> FoundAny(low, parts)
    ensures Not(parts).Holds(low) <==> !FoundAny(low, parts)
    ensures All(parts).Holds(low) <==> forall i | 0 <= i < |parts| :: IsFound(low, parts[i])
    ensures StartsWith(parts).Holds(low) <==> exists i | 0 <= i < |parts| :: FoundAt(low, parts[i], 0)
  {
    OccursAnyIffFound(parts, low);
    forall i | 0 <= i < |parts| ensures Occurs(parts[i], low) <==> IsFound(low, parts[i]) {
      OccursIffFound(parts[i], low);
    }
    assert forall i | 0 <= i < |parts| :: parts[i] <= low <==> FoundAt(low, parts[i], 0);
  }

  /** Line `k` shows something and at most `more` of the lines below it do. */
  predicate IsAmongLast(lines: seq<string>, k: nat, more: nat)
    requires k < |lines|
  {
    !IsBlankLine(lines[k]) && |NonBlank(lines[k + 1..])| <= more
  }

  lemma {:induction false} NonBlankMeans(lines: seq<string>)
    ensures NonBlank(lines) == [] <==> forall i | 0 <= i < |lines| :: IsBlankLine(lines[i])
    decreases |lines|
  {
    if lines != [] {
      TrimOfBlank(lines[0]);
      NonBlankMeans(lines[1..]);
      assert forall i | 0 < i < |lines| :: lines[i] == lines[1..][i - 1];
    }
  }

  lemma {:induction false} LastShown(lines: seq<string>, i: nat) returns (k: nat)
    requires i < |NonBlank(lines)|
    ensures k < |lines| && lines[k] == NonBlank(lines)[i] && !IsBlankLine(lines[k])
    ensures |NonBlank(lines[k + 1..])| == |NonBlank(lines)| - 1 - i
    decreases |lines|
  {
    TrimOfBlank(lines[0]);
    if Trim(lines[0]) != [] && i == 0 {
      k := 0;
    } else {
      k := LastShown(lines[1..], if Trim(lines[0]) == [] then i else i - 1);
      assert lines[1..][k + 1..] == lines[k + 1 + 1..];
      k := k + 1;
    }
  }

  lemma {:induction false} ShownLast(lines: seq<string>, k: nat) returns (i: nat)
    requires k < |lines| && !IsBlankLine(lines[k])
    ensures i < |NonBlank(lines)| && lines[k] == NonBlank(lines)[i]
    ensures |NonBlank(lines[k + 1..])| == |NonBlank(lines)| - 1 - i
    decreases |lines|
  {
    TrimOfBlank(lines[0]);
    if k == 0 {
      i := 0;
    } else {
      assert lines[1..][k - 1 + 1..] == lines[k + 1..];
      i := ShownLast(lines[1..], k - 1);
      i := if Trim(lines[0]) == [] then i else i + 1;
    }
  }

  lemma {:induction false} AmongShown(parts: seq<string>, lines: seq<string>, more: nat)
    ensures (exists i | |NonBlank(lines)| - 1 - more <= i < |NonBlank(lines)| && 0 <= i ::
               OccursAny(parts, NonBlank(lines)[i])) <==>
            exists k | 0 <= k < |lines| :: IsAmongLast(lines, k, more) && FoundAny(lines[k], parts)
  {
    var shown := NonBlank(lines);
    if i :| |shown| - 1 - more <= i < |shown| && 0 <= i && OccursAny(parts, shown[i]) {
      var k := LastShown(lines, i);
      OccursAnyIffFound(parts, lines[k]);
      assert IsAmongLast(lines, k, more);
    }
    if k :| 0 <= k < |lines| && IsAmongLast(lines, k, more) && FoundAny(lines[k], parts) {
      var i := ShownLast(lines, k);
      OccursAnyIffFound(parts, lines[k]);
      assert OccursAny(parts, shown[i]);
    }
  }

  lemma {:induction false} LastShownFound(parts: seq<string>, lines: seq<string>) returns (k: nat)
    requires NonBlank(lines) != [] && OccursAny(parts, NonBlank(lines)[|NonBlank(lines)| - 1])
    ensures k < |lines| && IsAmongLast(lines, k, 0) && FoundAny(lines[k], parts)
  {
    k := LastShown(lines, |NonBlank(lines)| - 1);
    OccursAnyIffFound(parts, lines[k]);
  }

  lemma {:induction false} FoundIsLastShown(parts: seq<string>, lines: seq<string>, k: nat)
    requires k < |lines| && IsAmongLast(lines, k, 0) && FoundAny(lines[k], parts)
    ensures NonBlank(lines) != [] && OccursAny(parts, NonBlank(lines)[|NonBlank(lines)| - 1])
  {
    var i := ShownLast(lines, k);
    OccursAnyIffFound(parts, lines[k]);
  }

  lemma {:induction false} LastLineMeans(parts: seq<string>, low: string)
    ensures LastLine(parts).Holds(low) <==>
              exists k | 0 <= k < |Lines(low)| :: IsAmongLast(Lines(low), k, 0) && FoundAny(Lines(low)[k], parts)
  {
    var lines := Lines(low);
    if LastLine(parts).Holds(low) {
      var k := LastShownFound(parts, lines);
    }
    if k :| 0 <= k < |lines| && IsAmongLast(lines, k, 0) && FoundAny(lines[k], parts) {
      FoundIsLastShown(parts, lines, k);
    }
  }

  /** The line conditions look at the last line that shows something, or at the last two. */
  lemma {:induction false} LineConditionsMean(parts: seq<string>, low: string)
    ensures LastLine(parts).Holds(low) <==>
              exists k | 0 <= k < |Lines(low)| :: IsAmongLast(Lines(low), k, 0) && FoundAny(Lines(low)[k], parts)
    ensures LastTwoLines(parts).Holds(low) <==>
              exists k | 0 <= k < |Lines(low)| :: IsAmongLast(Lines(low), k, 1) && FoundAny(Lines(low)[k], parts)
  {
    LastLineMeans(parts, low);
    AmongShown(parts, Lines(low), 1);
  }

  /** From place `k` on, behind blanks only, the line shows a spinner after the prefix. */
  predicate SpinsAt(line: string, k: nat, prefix: string) {
    && k + |prefix| < |line| && (forall m | 0 <= m < k :: IsWhitespace(line[m])) && !IsWhitespace(line[k])
    && FoundAt(line, prefix, k) && IsSpinnerGlyph(line[k + |prefix|])
  }

  predicate Spins(line: string, prefix: string) {
    exists k | 0 <= k < |line| :: SpinsAt(line, k, prefix)
  }

  lemma {:induction false} SpinnerOnLine(line: string, prefix: string)
    ensures prefix <= TrimStart(line) && StartsWithSpinner(TrimStart(line)[|prefix|..]) <==> Spins(line, prefix)
  {
    var k := TrimStartMeans(line);
    var shown := TrimStart(line);
    if prefix <= shown && StartsWithSpinner(shown[|prefix|..]) {
      assert shown[..|prefix|] == line[k..k + |prefix|];
      assert shown[|prefix|..][0] == line[k + |prefix|];
      assert SpinsAt(line, k, prefix);
    }
    if j :| 0 <= j < |line| && SpinsAt(line, j, prefix) {
      assert j == k;
      assert shown[..|prefix|] == line[k..k + |prefix|];
      assert shown[|prefix|..][0] == line[k + |prefix|];
    }
  }

  lemma {:induction false} PlainSpinnerOnLine(line: string)
    ensures StartsWithSpinner(TrimStart(line)) <==> Spins(line, [])
  {
    SpinnerOnLine(line, []);
    assert TrimStart(line)[0..] == TrimStart(line);
  }

  /** The spinner conditions: some line starts with a spinner, or with one of the prefixes
      and then a spinner. */
  lemma {:induction false} SpinnerConditionsMean(prefixes: seq<string>, low: string)
    ensures Spinner.Holds(low) <==> exists i | 0 <= i < |Lines(low)| :: Spins(Lines(low)[i], [])
    ensures SpinnerAfterPrefix(prefixes).Holds(low) <==>
              exists i, j | 0 <= i < |Lines(low)| && 0 <= j < |prefixes| :: Spins(Lines(low)[i], prefixes[j])
  {
    forall i | 0 <= i < |Lines(low)|
      ensures StartsWithSpinner(TrimStart(Lines(low)[i])) <==> Spins(Lines(low)[i], [])
    {
      PlainSpinnerOnLine(Lines(low)[i]);
    }
    forall i, j | 0 <= i < |Lines(low)| && 0 <= j < |prefixes|
      ensures (prefixes[j] <= TrimStart(Lines(low)[i]) &&
               StartsWithSpinner(TrimStart(Lines(low)[i])[|prefixes[j]|..])) <==> Spins(Lines(low)[i], prefixes[j])
    {
      SpinnerOnLine(Lines(low)[i], prefixes[j]);
    }
  }

  /** A rule of one agent is silent for every other, and a screen's blocked rule is silent
      while such rules are skipped; any other rule applies exactly when all its conditions
      hold in its region. */
  lemma {:induction false} RuleAppliesIff(r: Rule, agent: string, screen: string, title: string, skip: bool)
    ensures r.agent != "" && r.agent != agent ==> !ApplicableTo(agent, Regions(screen, title), skip)(r)
    ensures skip && r.state.Blocked? && r.region.Screen? ==> !ApplicableTo(agent, Regions(screen, title), skip)(r)
    ensures (r.agent == "" || r.agent == agent) && !(skip && r.state.Blocked? && r.region.Screen?) ==>
              (ApplicableTo(agent, Regions(screen, title), skip)(r) <==>
               forall i | 0 <= i < |r.conds| ::
                 CondHolds(r.conds[i], agent, r.region, if r.region.Title? then title else screen))
  {
  }

  /** Something but blanks and braille stands on the line. */
  predicate ShowsText(line: string) {
    exists m | 0 <= m < |line| :: !IsWhitespace(line[m]) && !('\U{2800}' <= line[m] <= '\U{28FF}')
  }

  lemma {:induction false} SpinnerOfLine(line: string)
    requires Lines(line) == if line == [] then [] else [line]
    ensures Spinner.Holds(line) <==> Spins(line, [])
  {
    PlainSpinnerOnLine(line);
    if Spinner.Holds(line) {
      var i :| 0 <= i < |Lines(line)| && StartsWithSpinner(TrimStart(Lines(line)[i]));
    }
    if Spins(line, []) {
      assert Lines(line)[0] == line;
    }
  }

  /** Codex's screen spinner needs something but braille on its line; nothing else is
      special. */
  lemma {:induction false} OnlyCodexSpinnerDiffers(c: Cond, agent: string, region: Region, text: string)
    ensures !(c.Spinner? && agent == "codex" && region.Screen?) ==>
              (CondHolds(c, agent, region, text) <==> c.Holds(text))
    ensures CondHolds(Spinner, "codex", Screen, text) <==>
              exists i | 0 <= i < |Lines(text)| :: Spins(Lines(text)[i], []) && ShowsText(Lines(text)[i])
  {
    forall i | 0 <= i < |Lines(text)| ensures Spinner.Holds(Lines(text)[i]) <==> Spins(Lines(text)[i], []) {
      OneLineOfLine(text, i);
      SpinnerOfLine(Lines(text)[i]);
    }
    forall i | 0 <= i < |Lines(text)|
      ensures (exists ch | ch in Lines(text)[i] :: !IsWhitespace(ch) && !('\U{2800}' <= ch <= '\U{28FF}')) <==>
              ShowsText(Lines(text)[i])
    {
    }
  }

  /** A line holds no line end, so it is its own only line. */
  lemma {:induction false} OneLineOfLine(text: string, i: nat)
    requires i < |Lines(text)|
    ensures Lines(Lines(text)[i]) == if Lines(text)[i] == [] then [] else [Lines(text)[i]]
    decreases |text|
  {
    var n := LineEnd(text);
    if n == |text| {
      assert Lines(text) == [text];
    } else if i == 0 {
      var line := WithoutReturn(text[..n]);
      assert forall k | 0 <= k < |line| :: line[k] == text[k];
      assert LineEnd(line) == |line|;
    } else {
      OneLineOfLine(text[n + 1..], i - 1);
    }
  }
}
