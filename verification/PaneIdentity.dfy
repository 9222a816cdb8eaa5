/**
  Which agent a pane runs (`identity` in src/detect.rs): by its processes where
  these could be listed, otherwise by text, in decreasing order of how deliberate
  the text is: the launch command, the title, the screen.
*/
module PaneIdentity {
  import opened Options
  import opened Text
  import opened Lowercase
  import opened ProcessIdentity
  import opened WordSearch
  import opened AgentNaming

  /** A row of Arc Studio's banner shows its name and its slogan. */
  const ARC_STUDIO: string := "arc studio"
  const SLOGAN: string := "build onchain apps \U{00B7}"

  /** What is known of a pane besides its screen. */
  datatype Pane = Pane(title: string, command: string, knownAgent: string, running: seq<string>)

  datatype Identifier = Identifier(manifests: Manifests, alphanumeric: CharClass)
  {
    function Low(s: string): string {
      Lower(manifests.lower, s)
    }

    predicate IsAgent(name: string) {
      exists i | 0 <= i < |manifests.agents| :: manifests.agents[i].name == Low(name)
    }

    predicate HasWord(patterns: seq<string>, text: string) {
      exists i | 0 <= i < |patterns| :: ContainsAgentWord(alphanumeric, text, patterns[i])
    }

    /** Any of the agent's names counts in a command or a title. */
    function NamedIn(text: string): Option<string> {
      NameOf(BestAgent(manifests.agents, (agent: Agent) => HasWord(agent.distinct + agent.ambiguous, text)))
    }

    predicate ShowsBanner(low: string) {
      exists i | 0 <= i < |Lines(low)| ::
        && ContainsAgentWord(alphanumeric, Lines(low)[i], ARC_STUDIO)
        && ContainsAgentWord(alphanumeric, Lines(low)[i], SLOGAN)
    }

    /** On a screen only names that are no ordinary words count. */
    predicate ShowsAgent(low: string, agent: Agent) {
      if agent.name == "arc-studio" then ShowsBanner(low) else HasWord(agent.distinct, low)
    }

    /** The agent a screen names, by its place in the list. */
    function OnScreen(low: string): Option<nat> {
      BestIndex(manifests.agents, (agent: Agent) => ShowsAgent(low, agent))
    }

    function NamedOnScreen(low: string): Option<string> {
      NameOf(BestAgent(manifests.agents, (agent: Agent) => ShowsAgent(low, agent)))
    }

    /** The agent a command or a title names. */
    function Deliberate(pane: Pane): Option<string> {
      OrElse(NamedIn(Low(pane.command)), NamedIn(Low(pane.title)))
    }

    function TextIdentity(pane: Pane, low: string): string {
      var detected := OrElse(Deliberate(pane), NamedOnScreen(low));
      if detected.Some? then detected.value else Fallback(pane)
    }

    /** What a pane is taken for when nothing names an agent. */
    function Fallback(pane: Pane): string {
      if IsAgent(pane.knownAgent) then pane.knownAgent else pane.command
    }

    function Identity(pane: Pane, bottom: string): string {
      if pane.running == [] then TextIdentity(pane, Low(bottom))
      else
        var agent := manifests.Walks().AgentInProcesses(pane.running);
        if agent.Some? then agent.value else pane.command
    }

    /** Something other than the screen decides. */
    predicate IsDecided(pane: Pane) {
      pane.running != [] || Deliberate(pane).Some?
    }

    /** With a process list, or a command or title that names an agent, the screen has
        no say, whatever it shows. */
    lemma {:induction false} ScreenHasNoSay(pane: Pane, one: string, other: string)
      requires IsDecided(pane)
      ensures Identity(pane, one) == Identity(pane, other)
    {
    }

    /** Where processes are listed, the first of them that is an agent decides; and if none
        is, the pane is its command, whatever it was known as and whatever it shows. */
    lemma {:induction false} ListedProcessesDecide(pane: Pane, bottom: string) returns (i: nat)
      requires pane.running != []
      ensures i <= |pane.running|
      ensures forall j | 0 <= j < i :: manifests.Walks().AgentInProcessCommand(pane.running[j]) == None
      ensures if i == |pane.running| then Identity(pane, bottom) == pane.command
              else manifests.Walks().AgentInProcessCommand(pane.running[i]) == Some(Identity(pane, bottom))
    {
      i := FirstSomeMeans(pane.running, manifests.Walks().AgentInProcessCommand);
    }

    /** Any of its names, in a command or a title. */
    function WordTest(text: string): Test {
      (agent: Agent) => exists w | w in agent.distinct + agent.ambiguous :: ContainsAgentWord(alphanumeric, text, w)
    }

    /** A distinctive name, or Arc Studio's banner on one line, on a screen. */
    function ScreenTest(text: string): Test {
      (agent: Agent) =>
        if agent.name == "arc-studio" then
          exists i | 0 <= i < |Lines(text)| ::
            && ContainsAgentWord(alphanumeric, Lines(text)[i], "arc studio")
            && ContainsAgentWord(alphanumeric, Lines(text)[i], "build onchain apps \U{00B7}")
        else exists w | w in agent.distinct :: ContainsAgentWord(alphanumeric, text, w)
    }

    /** Where no processes are listed: the agent named by the command, else by the title,
        else by the screen; else the one it was known as, if that is one; else the command. */
    lemma {:induction false} TextDecides(pane: Pane, bottom: string) returns (named: Option<string>)
      requires pane.running == []
      ensures ChosenBy(manifests.agents,
                       [WordTest(Low(pane.command)), WordTest(Low(pane.title)), ScreenTest(Low(bottom))], named)
      ensures Identity(pane, bottom) ==
              if named.Some? then named.value
              else if exists i | 0 <= i < |manifests.agents| :: manifests.agents[i].name == Low(pane.knownAgent)
              then pane.knownAgent else pane.command
    {
      var c, t, s := WordTest(Low(pane.command)), WordTest(Low(pane.title)), ScreenTest(Low(bottom));
      named := OrElse(Deliberate(pane), NamedOnScreen(Low(bottom)));
      NamedInIsChosen(Low(pane.command));
      NamedInIsChosen(Low(pane.title));
      ScreenIsChosen(Low(bottom));
      ChosenFirst(manifests.agents, s, [], None);
      ChosenFirst(manifests.agents, t, [s] + [], NameOf(BestAgent(manifests.agents, s)));
      ChosenFirst(manifests.agents, c, [t] + ([s] + []),
                  OrElse(NameOf(BestAgent(manifests.agents, t)), NameOf(BestAgent(manifests.agents, s))));
      assert [c] + ([t] + ([s] + [])) == [c, t, s];
    }

    lemma {:induction false} HasWordMeans(patterns: seq<string>, text: string)
      ensures HasWord(patterns, text) <==> exists w | w in patterns :: ContainsAgentWord(alphanumeric, text, w)
    {
      if HasWord(patterns, text) {
        var i :| 0 <= i < |patterns| && ContainsAgentWord(alphanumeric, text, patterns[i]);
        assert patterns[i] in patterns;
      }
    }

    lemma {:induction false} NamedInIsChosen(text: string)
      ensures NamedIn(text) == NameOf(BestAgent(manifests.agents, WordTest(text)))
    {
      forall i | 0 <= i < |manifests.agents|
        ensures HasWord(manifests.agents[i].distinct + manifests.agents[i].ambiguous, text) ==
                WordTest(text)(manifests.agents[i])
      {
        HasWordMeans(manifests.agents[i].distinct + manifests.agents[i].ambiguous, text);
      }
      SameTest(manifests.agents, (agent: Agent) => HasWord(agent.distinct + agent.ambiguous, text), WordTest(text));
    }

    lemma {:induction false} ScreenIsChosen(text: string)
      ensures NamedOnScreen(text) == NameOf(BestAgent(manifests.agents, ScreenTest(text)))
    {
      forall i | 0 <= i < |manifests.agents|
        ensures ShowsAgent(text, manifests.agents[i]) == ScreenTest(text)(manifests.agents[i])
      {
        HasWordMeans(manifests.agents[i].distinct, text);
      }
      SameTest(manifests.agents, (agent: Agent) => ShowsAgent(text, agent), ScreenTest(text));
    }

    /** A screen that shows just an agent's name names an agent. */
    lemma {:induction false} NameOnScreenCounts(k: nat, name: string)
      requires k < |manifests.agents| && manifests.agents[k].name != "arc-studio"
      requires name in manifests.agents[k].distinct
      ensures NamedOnScreen(name).Some?
    {
      assert OccursAt(name, name, 0) && IsBoundedAt(alphanumeric, name, name, 0);
      BestIndexIsBest(manifests.agents, (agent: Agent) => ShowsAgent(name, agent));
      assert ShowsAgent(name, manifests.agents[k]);
    }

    /** Every distinctive name fits on a line. */
    predicate HasLineWords() {
      forall i, j | 0 <= i < |manifests.agents| && 0 <= j < |manifests.agents[i].distinct| ::
        IsLineWord(manifests.agents[i].distinct[j])
    }

    ghost predicate ReadsLines() {
      HasLineWords() && RespectsSyntax(manifests.lower) && IsBoundary(alphanumeric, '\n')
    }

    lemma {:induction false} BannerInLinesAndText(t: string, s: string)
      requires NewlineEnded(t)
      ensures ShowsBanner(t + s) <==> ShowsBanner(t) || ShowsBanner(s)
    {
      LinesAppend(t, s);
      var n := |Lines(t)|;
      assert forall i | 0 <= i < n :: Lines(t + s)[i] == Lines(t)[i];
      assert forall i | 0 <= i < |Lines(s)| :: Lines(t + s)[n + i] == Lines(s)[i];
    }

    lemma {:induction false} WordsInLinesAndText(patterns: seq<string>, t: string, s: string)
      requires NewlineEnded(t) && IsBoundary(alphanumeric, '\n')
      requires forall j | 0 <= j < |patterns| :: IsLineWord(patterns[j])
      ensures HasWord(patterns, t + s) <==> HasWord(patterns, t) || HasWord(patterns, s)
    {
      forall j | 0 <= j < |patterns|
        ensures ContainsAgentWord(alphanumeric, t + s, patterns[j]) <==>
                ContainsAgentWord(alphanumeric, t, patterns[j]) || ContainsAgentWord(alphanumeric, s, patterns[j])
      {
        WordInLinesAndText(alphanumeric, t, s, patterns[j]);
      }
    }

    /** Whole lines and a text below them name the better of the agents each names. */
    lemma {:induction false} OnScreenBelowLines(t: string, s: string)
      requires NewlineEnded(t) && HasLineWords() && IsBoundary(alphanumeric, '\n')
      ensures OnScreen(t + s) == Better(manifests.agents, OnScreen(t), OnScreen(s))
    {
      BannerInLinesAndText(t, s);
      forall i | 0 <= i < |manifests.agents|
        ensures ShowsAgent(t + s, manifests.agents[i]) <==>
                ShowsAgent(t, manifests.agents[i]) || ShowsAgent(s, manifests.agents[i])
      {
        WordsInLinesAndText(manifests.agents[i].distinct, t, s);
      }
      BestOfUnion(manifests.agents, (agent: Agent) => ShowsAgent(t, agent), (agent: Agent) => ShowsAgent(s, agent),
                  (agent: Agent) => ShowsAgent(t + s, agent));
    }

    lemma {:induction false} LowKeepsLines(t: string)
      requires NewlineEnded(t) && RespectsSyntax(manifests.lower)
      ensures NewlineEnded(Low(t))
    {
      if t != [] {
        assert t == t[..|t| - 1] + ['\n'];
        LowerAppends(manifests.lower, t[..|t| - 1], ['\n']);
        LowerOne(manifests.lower, '\n');
      }
    }

    /** The transcript by itself names no agent, or one that does not beat the agent named
        on the text; where the text names none, only what the pane is taken for anyway. */
    predicate KeepsIdentity(pane: Pane, transcript: string, text: string) {
      var above, here := OnScreen(Low(transcript)), OnScreen(Low(text));
      above.Some? ==>
        var name := manifests.agents[above.value].name;
        if here.None? then name == Fallback(pane)
        else !Beats(manifests.agents, above.value, here.value) || name == manifests.agents[here.value].name
    }

    /** Exactly when a transcript above a text leaves a pane what it was taken for. */
    lemma {:induction false} TranscriptKeepsIdentityIff(pane: Pane, transcript: string, text: string)
      requires ReadsLines() && NewlineEnded(transcript)
      ensures Identity(pane, transcript + text) == Identity(pane, text) <==>
              IsDecided(pane) || KeepsIdentity(pane, transcript, text)
    {
      if IsDecided(pane) {
        ScreenHasNoSay(pane, transcript + text, text);
      } else {
        LowerAppends(manifests.lower, transcript, text);
        LowKeepsLines(transcript);
        OnScreenBelowLines(Low(transcript), Low(text));
        IdentityByScreen(pane, transcript + text);
        IdentityByScreen(pane, text);
      }
    }

    lemma {:induction false} IdentityByScreen(pane: Pane, bottom: string)
      requires !IsDecided(pane)
      ensures var best := OnScreen(Low(bottom));
              Identity(pane, bottom) == if best.Some? then manifests.agents[best.value].name else Fallback(pane)
    {
    }
  }
}
