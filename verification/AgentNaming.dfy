/**
  Who a command line is, told agent by agent (src/detect.rs): the tests a loaded
  agent can pass, in the order in which they decide, and what identity and capture
  make of them.
*/
module AgentNaming {
  import opened Options
  import opened Text
  import opened CommandLine
  import opened Lowercase
  import opened ProcessIdentity

  type Test = Agent -> bool

  predicate NobodyPasses(agents: seq<Agent>, test: Test) {
    forall i | 0 <= i < |agents| :: !test(agents[i])
  }

  /** The first test that any agent passes decides: for the earliest of those agents
      that have the highest priority. Where nobody passes any, nobody is named. */
  predicate ChosenBy(agents: seq<Agent>, tests: seq<Test>, name: Option<string>) {
    if tests == [] then name.None?
    else if NobodyPasses(agents, tests[0]) then ChosenBy(agents, tests[1..], name)
    else exists i | 0 <= i < |agents| :: IsBestAt(agents, tests[0], i) && name == Some(agents[i].name)
  }

  /** At most one name is chosen. */
  lemma {:induction false} ChosenIsUnique(agents: seq<Agent>, tests: seq<Test>, a: Option<string>, b: Option<string>)
    requires ChosenBy(agents, tests, a) && ChosenBy(agents, tests, b)
    ensures a == b
    decreases |tests|
  {
    if tests != [] {
      if NobodyPasses(agents, tests[0]) {
        ChosenIsUnique(agents, tests[1..], a, b);
      } else {
        var i :| 0 <= i < |agents| && IsBestAt(agents, tests[0], i) && a == Some(agents[i].name);
        var j :| 0 <= j < |agents| && IsBestAt(agents, tests[0], j) && b == Some(agents[j].name);
        OneBest(agents, tests[0], i, j);
      }
    }
  }

  lemma {:induction false} ChosenFirst(agents: seq<Agent>, test: Test, others: seq<Test>, name: Option<string>)
    requires ChosenBy(agents, others, name)
    ensures ChosenBy(agents, [test] + others, OrElse(NameOf(BestAgent(agents, test)), name))
  {
    var tests := [test] + others;
    assert tests[0] == test && tests[1..] == others;
    BestIndexIsBest(agents, test);
    if !NobodyPasses(agents, test) {
      var i := BestIndex(agents, test).value;
      assert IsBestAt(agents, tests[0], i);
    }
  }

  lemma {:induction false} ChosenThen(agents: seq<Agent>, first: seq<Test>, others: seq<Test>,
                                      a: Option<string>, b: Option<string>)
    requires ChosenBy(agents, first, a) && ChosenBy(agents, others, b)
    ensures ChosenBy(agents, first + others, OrElse(a, b))
    decreases |first|
  {
    if first == [] {
      assert first + others == others;
    } else {
      assert (first + others)[0] == first[0] && (first + others)[1..] == first[1..] + others;
      if NobodyPasses(agents, first[0]) {
        ChosenThen(agents, first[1..], others, a, b);
      }
    }
  }

  // ---- the tests ----

  /** An agent's own binary check, then any of its names. */
  function BinaryTests(base: string): seq<Test> {
    [(agent: Agent) => agent.binaryMatcher.Some? && agent.binaryMatcher.value(base),
     (agent: Agent) => base in agent.distinct || base in agent.ambiguous]
  }

  /** The npm package in full. */
  function PackageTests(package: Option<(string, string)>): seq<Test> {
    [(agent: Agent) => package.Some? && package.value.0 in agent.interpreterPackages]
  }

  /** Any name for the script without its extension, a distinctive one for the package. */
  function FileTests(script: string, package: Option<(string, string)>): seq<Test> {
    [(agent: Agent) => script in agent.distinct || script in agent.ambiguous,
     (agent: Agent) => package.Some? && package.value.1 in agent.distinct]
  }

  function ScriptTests(m: Manifests, token: string): seq<Test> {
    var segments := SlashSegments(Lower(m.lower, token));
    var package := NodePackage(segments);
    PackageTests(package) +
    (BinaryTests(BinaryName(token)) + FileTests(StripScriptExtension(segments[|segments| - 1]), package))
  }

  /** An adapter's check of the whole argv. */
  function AdapterTests(argv: seq<string>): seq<Test> {
    [(agent: Agent) => agent.argvScript.Some? && agent.argvScript.value(argv).Some?]
  }

  lemma {:induction false} BinaryIsChosen(m: Manifests, base: string)
    ensures ChosenBy(m.agents, BinaryTests(base), m.MatchBinary(base))
  {
    var accepts := (agent: Agent) => agent.binaryMatcher.Some? && agent.binaryMatcher.value(base);
    var names := (agent: Agent) => agent.Names(base);
    var tests := BinaryTests(base);
    SameTest(m.agents, accepts, tests[0]);
    SameTest(m.agents, names, tests[1]);
    ChosenFirst(m.agents, tests[1], [], None);
    ChosenFirst(m.agents, tests[0], [tests[1]] + [], NameOf(BestAgent(m.agents, tests[1])));
    assert [tests[0]] + ([tests[1]] + []) == tests;
  }

  lemma {:induction false} SameTest(agents: seq<Agent>, one: Test, other: Test)
    requires forall i | 0 <= i < |agents| :: one(agents[i]) == other(agents[i])
    ensures BestAgent(agents, one) == BestAgent(agents, other)
  {
    BestIndexIsBest(agents, one);
    BestIndexIsBest(agents, other);
    if BestIndex(agents, one).Some? {
      OneBest(agents, other, BestIndex(agents, one).value, BestIndex(agents, other).value);
    }
  }

  lemma {:induction false} ScriptIsChosen(m: Manifests, token: string)
    ensures ChosenBy(m.agents, ScriptTests(m, token), m.MatchInterpreterScript(token))
  {
    var segments := SlashSegments(Lower(m.lower, token));
    var package, script := NodePackage(segments), StripScriptExtension(segments[|segments| - 1]);
    FileIsChosen(m, script, package);
    BinaryIsChosen(m, BinaryName(token));
    ChosenThen(m.agents, BinaryTests(BinaryName(token)), FileTests(script, package),
               m.MatchBinary(BinaryName(token)), FileMatch(m, script, package));
    PackageIsChosen(m, package);
    ChosenThen(m.agents, PackageTests(package), BinaryTests(BinaryName(token)) + FileTests(script, package),
               PackageMatch(m, package), OrElse(m.MatchBinary(BinaryName(token)), FileMatch(m, script, package)));
  }

  function PackageMatch(m: Manifests, package: Option<(string, string)>): Option<string> {
    if package.None? then None
    else NameOf(BestAgent(m.agents, (agent: Agent) => package.value.0 in agent.interpreterPackages))
  }

  function FileMatch(m: Manifests, script: string, package: Option<(string, string)>): Option<string> {
    OrElse(NameOf(BestAgent(m.agents, (agent: Agent) => agent.Names(script))),
           if package.None? then None
           else NameOf(BestAgent(m.agents, (agent: Agent) => package.value.1 in agent.distinct)))
  }

  lemma {:induction false} PackageIsChosen(m: Manifests, package: Option<(string, string)>)
    ensures ChosenBy(m.agents, PackageTests(package), PackageMatch(m, package))
  {
    var test := PackageTests(package)[0];
    ChosenFirst(m.agents, test, [], None);
    assert [test] + [] == PackageTests(package);
    if package.None? {
      BestIndexIsBest(m.agents, test);
    } else {
      SameTest(m.agents, (agent: Agent) => package.value.0 in agent.interpreterPackages, test);
    }
  }

  lemma {:induction false} FileIsChosen(m: Manifests, script: string, package: Option<(string, string)>)
    ensures ChosenBy(m.agents, FileTests(script, package), FileMatch(m, script, package))
  {
    var tests := FileTests(script, package);
    SameTest(m.agents, (agent: Agent) => agent.Names(script), tests[0]);
    if package.None? {
      BestIndexIsBest(m.agents, tests[1]);
    } else {
      SameTest(m.agents, (agent: Agent) => package.value.1 in agent.distinct, tests[1]);
    }
    ChosenFirst(m.agents, tests[1], [], None);
    ChosenFirst(m.agents, tests[0], [tests[1]] + [], NameOf(BestAgent(m.agents, tests[1])));
    assert [tests[0]] + ([tests[1]] + []) == tests;
  }

  function AdapterMatch(m: Manifests, argv: seq<string>): Option<string> {
    if m.MatchArgvScript(argv).Some? then Some(m.MatchArgvScript(argv).value.0) else None
  }

  lemma {:induction false} AdapterIsChosen(m: Manifests, argv: seq<string>)
    ensures ChosenBy(m.agents, AdapterTests(argv), AdapterMatch(m, argv))
  {
    var test := AdapterTests(argv)[0];
    SameTest(m.agents, (agent: Agent) => agent.argvScript.Some? && agent.argvScript.value(argv).Some?, test);
    BestIndexIsBest(m.agents, test);
    ChosenFirst(m.agents, test, [], None);
    assert [test] + [] == AdapterTests(argv);
  }

  /** The agent whose check decides, and where it points. */
  lemma {:induction false} AdapterIndex(m: Manifests, argv: seq<string>) returns (i: nat)
    requires m.MatchArgvScript(argv).Some?
    ensures i < |m.agents| && IsBestAt(m.agents, AdapterTests(argv)[0], i)
    ensures m.agents[i].argvScript.value(argv) == Some(m.MatchArgvScript(argv).value.1)
  {
    var test := AdapterTests(argv)[0];
    SameTest(m.agents, (agent: Agent) => agent.argvScript.Some? && agent.argvScript.value(argv).Some?, test);
    BestIndexIsBest(m.agents, test);
    i := BestIndex(m.agents, test).value;
  }

  // ---- command lines ----

  /** The tests a command line is put to once `env` is unwrapped. */
  function CommandTests(m: Manifests, tokens: seq<string>): seq<Test>
    requires tokens != []
  {
    var slot := InterpreterScriptSlot(tokens[1..]);
    BinaryTests(BinaryName(tokens[0])) +
    ((if BinaryName(tokens[0]) in INTERPRETERS && slot.Some? then ScriptTests(m, tokens[1..][slot.value]) else []) +
     AdapterTests(tokens))
  }

  /** Identity names the agent these tests choose: by argv[0], else by an interpreter's
      script, else by an adapter; and nobody where nobody passes any. */
  lemma {:induction false} ProcessIsNamed(m: Manifests, command: string)
    ensures var tokens := m.Walks().UnwrapLeadingEnv(Tokens(Lower(m.lower, command)));
            if tokens == [] then m.Walks().AgentInProcessCommand(command) == None
            else ChosenBy(m.agents, CommandTests(m, tokens), m.Walks().AgentInProcessCommand(command))
  {
    var tokens := m.Walks().UnwrapLeadingEnv(Tokens(Lower(m.lower, command)));
    if tokens != [] {
      var first, slot := BinaryName(tokens[0]), InterpreterScriptSlot(tokens[1..]);
      var hasScript := first in INTERPRETERS && slot.Some?;
      var script := if hasScript then m.MatchInterpreterScript(tokens[1..][slot.value]) else None;
      var scripts := if hasScript then ScriptTests(m, tokens[1..][slot.value]) else [];
      BinaryIsChosen(m, first);
      AdapterIsChosen(m, tokens);
      if hasScript {
        ScriptIsChosen(m, tokens[1..][slot.value]);
      }
      ChosenThen(m.agents, scripts, AdapterTests(tokens), script, AdapterMatch(m, tokens));
      ChosenThen(m.agents, BinaryTests(first), scripts + AdapterTests(tokens),
                 m.MatchBinary(first), OrElse(script, AdapterMatch(m, tokens)));
      NamedInTurn(m, tokens);
    }
  }

  lemma NamedInTurn(m: Manifests, tokens: seq<string>)
    requires tokens != []
    ensures var first, slot := BinaryName(tokens[0]), InterpreterScriptSlot(tokens[1..]);
            var script := if first in INTERPRETERS && slot.Some?
                          then m.MatchInterpreterScript(tokens[1..][slot.value]) else None;
            var found := m.Walks().IdentifyUnwrapped(tokens);
            (if found.Some? then Some(found.value.name) else None) ==
            OrElse(m.MatchBinary(first), OrElse(script, AdapterMatch(m, tokens)))
  {
    var slot := InterpreterScriptSlot(tokens[1..]);
    assert slot.Some? ==> tokens[slot.value + 1] == tokens[1..][slot.value];
  }

  /** What Codex keeps of its flags; every other agent keeps all. */
  function KeptFlags(m: Manifests, agent: string, flags: seq<string>): seq<string> {
    if agent == "codex" then m.codexPersistentFlags(flags) else flags
  }

  /** The flags an adapter's check points behind. */
  predicate BehindAdapter(m: Manifests, tokens: seq<string>, flags: Option<seq<string>>) {
    var lowered := LowerEach(m.lower, tokens);
    exists i | 0 <= i < |m.agents| ::
      && IsBestAt(m.agents, AdapterTests(lowered)[0], i)
      && m.agents[i].argvScript.value(lowered).Some?
      && flags == Some(SkipTokens(tokens, m.agents[i].argvScript.value(lowered).value + 1))
  }

  /** The original arguments behind argv[0] where the tests of argv[0] choose the agent,
      else those behind the script where its tests do, else those an adapter's check
      points behind; and nothing for any other agent. */
  predicate IsCapture(m: Manifests, tokens: seq<string>, agent: string, captured: Option<seq<string>>)
    requires tokens != []
  {
    var first, slot := BinaryName(Lower(m.lower, tokens[0])), InterpreterScriptSlot(tokens[1..]);
    if ChosenBy(m.agents, BinaryTests(first), Some(agent)) then
      captured == Some(KeptFlags(m, agent, tokens[1..]))
    else if first in INTERPRETERS && slot.Some? &&
            ChosenBy(m.agents, ScriptTests(m, Lower(m.lower, tokens[1..][slot.value])), Some(agent)) then
      captured == Some(KeptFlags(m, agent, tokens[1..][slot.value + 1..]))
    else if ChosenBy(m.agents, AdapterTests(LowerEach(m.lower, tokens)), Some(agent)) then
      BehindAdapter(m, tokens, captured)
    else
      captured == None
  }

  lemma {:induction false} ProcessIsCaptured(m: Manifests, command: string, agent: string)
    ensures var tokens := m.Walks().UnwrapLeadingEnv(Tokens(command));
            var captured := m.Walks().Capture(command, agent);
            if tokens == [] then captured == None else IsCapture(m, tokens, agent, captured)
  {
    var tokens := m.Walks().UnwrapLeadingEnv(Tokens(command));
    if tokens != [] {
      TokensAreCaptured(m, tokens, LowerEach(m.lower, tokens), agent);
    }
  }

  lemma {:induction false} TokensAreCaptured(m: Manifests, tokens: seq<string>, lowered: seq<string>, agent: string)
    requires tokens != [] && lowered == LowerEach(m.lower, tokens)
    ensures IsCapture(m, tokens, agent, m.Walks().CaptureUnwrapped(tokens, agent))
  {
    var first, slot := BinaryName(Lower(m.lower, tokens[0])), InterpreterScriptSlot(tokens[1..]);
    CapturedInTurn(m, tokens, lowered, agent);
    BinaryChoosesIff(m, first, agent);
    if m.MatchBinary(first) != Some(agent) {
      if slot.Some? {
        ScriptChoosesIff(m, Lower(m.lower, tokens[1..][slot.value]), agent);
      }
      AdapterCaptures(m, tokens, lowered, agent);
    }
  }

  lemma {:induction false} AdapterCaptures(m: Manifests, tokens: seq<string>, lowered: seq<string>, agent: string)
    requires lowered == LowerEach(m.lower, tokens)
    ensures AdapterMatch(m, lowered) == Some(agent) <==> ChosenBy(m.agents, AdapterTests(lowered), Some(agent))
    ensures AdapterMatch(m, lowered) == Some(agent) ==>
              BehindAdapter(m, tokens, Some(SkipTokens(tokens, m.MatchArgvScript(lowered).value.1 + 1)))
  {
    AdapterChoosesIff(m, lowered, agent);
    if m.MatchArgvScript(lowered).Some? {
      AdapterPointsBehind(m, tokens);
    }
  }

  lemma {:induction false} AdapterPointsBehind(m: Manifests, tokens: seq<string>)
    requires m.MatchArgvScript(LowerEach(m.lower, tokens)).Some?
    ensures BehindAdapter(m, tokens,
                          Some(SkipTokens(tokens, m.MatchArgvScript(LowerEach(m.lower, tokens)).value.1 + 1)))
  {
    var i := AdapterIndex(m, LowerEach(m.lower, tokens));
  }

  lemma CaptureInTurn(w: Walk, tokens: seq<string>, lowered: seq<string>, agent: string)
    requires w.IsSound() && tokens != [] && lowered == LowerEach(w.lower, tokens)
    ensures var first, slot := BinaryName(Lower(w.lower, tokens[0])), InterpreterScriptSlot(tokens[1..]);
            var adapter := w.matchAdapter(lowered);
            w.CaptureUnwrapped(tokens, agent) ==
            if w.matchBinary(first) == Some(agent) then Some(w.PersistentLaunchFlags(agent, tokens[1..]))
            else if first in w.interpreters && slot.Some? &&
                    w.matchScript(Lower(w.lower, tokens[1..][slot.value])) == Some(agent) then
              Some(w.PersistentLaunchFlags(agent, tokens[1..][slot.value + 1..]))
            else if adapter.Some? && adapter.value.0 == agent then Some(SkipTokens(tokens, adapter.value.1 + 1))
            else None
  {
  }

  lemma {:induction false} CapturedInTurn(m: Manifests, tokens: seq<string>, lowered: seq<string>, agent: string)
    requires tokens != [] && lowered == LowerEach(m.lower, tokens)
    ensures var first, slot := BinaryName(Lower(m.lower, tokens[0])), InterpreterScriptSlot(tokens[1..]);
            m.Walks().CaptureUnwrapped(tokens, agent) ==
            if m.MatchBinary(first) == Some(agent) then Some(KeptFlags(m, agent, tokens[1..]))
            else if first in INTERPRETERS && slot.Some? &&
                    m.MatchInterpreterScript(Lower(m.lower, tokens[1..][slot.value])) == Some(agent) then
              Some(KeptFlags(m, agent, tokens[1..][slot.value + 1..]))
            else if AdapterMatch(m, lowered) == Some(agent) then
              Some(SkipTokens(tokens, m.MatchArgvScript(lowered).value.1 + 1))
            else None
  {
    m.WalksAreSound();
    CaptureInTurn(m.Walks(), tokens, lowered, agent);
  }

  lemma {:induction false} BinaryChoosesIff(m: Manifests, base: string, agent: string)
    ensures ChosenBy(m.agents, BinaryTests(base), Some(agent)) <==> m.MatchBinary(base) == Some(agent)
  {
    BinaryIsChosen(m, base);
    if ChosenBy(m.agents, BinaryTests(base), Some(agent)) {
      ChosenIsUnique(m.agents, BinaryTests(base), Some(agent), m.MatchBinary(base));
    }
  }

  lemma {:induction false} ScriptChoosesIff(m: Manifests, token: string, agent: string)
    ensures ChosenBy(m.agents, ScriptTests(m, token), Some(agent)) <==> m.MatchInterpreterScript(token) == Some(agent)
  {
    ScriptIsChosen(m, token);
    if ChosenBy(m.agents, ScriptTests(m, token), Some(agent)) {
      ChosenIsUnique(m.agents, ScriptTests(m, token), Some(agent), m.MatchInterpreterScript(token));
    }
  }

  lemma {:induction false} AdapterChoosesIff(m: Manifests, argv: seq<string>, agent: string)
    ensures ChosenBy(m.agents, AdapterTests(argv), Some(agent)) <==> AdapterMatch(m, argv) == Some(agent)
  {
    AdapterIsChosen(m, argv);
    if ChosenBy(m.agents, AdapterTests(argv), Some(agent)) {
      ChosenIsUnique(m.agents, AdapterTests(argv), Some(agent), AdapterMatch(m, argv));
    }
  }

  // ---- scripts ----

  /** The extensions a script's name is told without. */
  const EXTENSIONS: set<string> := {".js", ".cjs", ".mjs", ".py"}

  lemma EndingAt(token: string, suffix: string, k: nat)
    requires HasSuffix(token, suffix) && k < |suffix|
    ensures token[|token| - 1 - k] == suffix[|suffix| - 1 - k]
  {
    assert token[|token| - |suffix|..][|suffix| - 1 - k] == token[|token| - 1 - k];
  }

  lemma NotBothEndings(token: string, one: string, other: string, k: nat)
    requires k < |one| && k < |other| && one[|one| - 1 - k] != other[|other| - 1 - k]
    requires HasSuffix(token, one)
    ensures !HasSuffix(token, other)
  {
    EndingAt(token, one, k);
    if HasSuffix(token, other) {
      EndingAt(token, other, k);
    }
  }

  /** The extension goes, and nothing else of the name. */
  lemma {:induction false} ExtensionIsStripped(token: string, extension: string)
    requires extension in EXTENSIONS && HasSuffix(token, extension)
    ensures StripScriptExtension(token) == token[..|token| - |extension|]
  {
    if extension == ".js" || extension == ".py" {
      NotBothEndings(token, extension, ".cjs", 2);
      NotBothEndings(token, extension, ".mjs", 2);
    }
  }

  lemma OtherNamesStay(name: string)
    requires forall extension | extension in EXTENSIONS :: !HasSuffix(name, extension)
    ensures StripScriptExtension(name) == name
  {
  }

  /** The last part of a path, whichever way its separators lean. */
  lemma {:induction false} LastSegment(directory: string, separator: char, file: string)
    requires IsSeparator(separator) && forall c | c in file :: !IsSeparator(c)
    ensures var segments := SlashSegments(directory + [separator] + file); segments[|segments| - 1] == file
    decreases |directory|
  {
    var path := directory + [separator] + file;
    if directory == [] {
      assert path[1..] == file;
      FileIsOneSegment(file);
    } else {
      assert path[1..] == directory[1..] + [separator] + file;
      LastSegment(directory[1..], separator, file);
      TwoSegments(directory[1..] + [separator] + file, |directory[1..]|);
    }
  }

  lemma {:induction false} FileIsOneSegment(file: string)
    requires forall c | c in file :: !IsSeparator(c)
    ensures SlashSegments(file) == [file]
    decreases |file|
  {
    if file != [] {
      FileIsOneSegment(file[1..]);
      assert file == [file[0]] + file[1..];
    }
  }

  lemma {:induction false} TwoSegments(s: string, k: nat)
    requires k < |s| && IsSeparator(s[k])
    ensures |SlashSegments(s)| > 1
    decreases k
  {
    if k > 0 && !IsSeparator(s[0]) {
      TwoSegments(s[1..], k - 1);
    }
  }
}
