/**
  Which agent a process command line runs, and the flags it was launched with
  (src/detect.rs). Two independent walks: identity reads the lowercased command
  line, capture reads the original one and lowercases argument by argument.

  Adapter checks (a binary matcher, a whole-argv script matcher) and the Codex
  flag filter are other files' code and enter as functions.
*/
module ProcessIdentity {
  import opened Options
  import opened Text
  import opened CommandLine
  import opened Lowercase

  datatype Agent = Agent(
    name: string,
    distinct: seq<string>,
    ambiguous: seq<string>,
    binaryMatcher: Option<string -> bool>,
    argvScript: Option<seq<string> -> Option<nat>>,
    interpreterPackages: seq<string>,
    overlapPriority: nat)
  {
    /** Every identifying string. */
    predicate Names(pattern: string) {
      pattern in distinct || pattern in ambiguous
    }
  }

  /** One pass over the agents: a later one wins only by a higher priority. */
  function BestIndex(agents: seq<Agent>, matches: Agent -> bool): (best: Option<nat>)
    ensures best.Some? ==> best.value < |agents|
  {
    if agents == [] then
      None
    else
      var last := |agents| - 1;
      var before := BestIndex(agents[..last], matches);
      if matches(agents[last]) &&
         (before.None? || agents[last].overlapPriority > agents[before.value].overlapPriority)
      then Some(last)
      else before
  }

  function BestAgent(agents: seq<Agent>, matches: Agent -> bool): Option<Agent> {
    var best := BestIndex(agents, matches);
    if best.Some? then Some(agents[best.value]) else None
  }

  /** Agent `i` matches, outranks every match before it and is not outranked after. */
  predicate IsBestAt(agents: seq<Agent>, matches: Agent -> bool, i: nat)
    requires i < |agents|
  {
    && matches(agents[i])
    && forall j | 0 <= j < |agents| && matches(agents[j]) ::
         if j < i then agents[j].overlapPriority < agents[i].overlapPriority
         else agents[j].overlapPriority <= agents[i].overlapPriority
  }

  /** Found exactly when some agent matches; the earliest of highest priority. */
  lemma {:induction false} BestIndexIsBest(agents: seq<Agent>, matches: Agent -> bool)
    ensures BestIndex(agents, matches).None? <==> forall j | 0 <= j < |agents| :: !matches(agents[j])
    ensures BestIndex(agents, matches).Some? ==> IsBestAt(agents, matches, BestIndex(agents, matches).value)
    decreases |agents|
  {
    if agents != [] {
      var front := agents[..|agents| - 1];
      BestIndexIsBest(front, matches);
      assert forall j | 0 <= j < |front| :: front[j] == agents[j];
    }
  }

  lemma {:induction false} BestAgentIsBest(agents: seq<Agent>, matches: Agent -> bool) returns (i: nat)
    ensures BestAgent(agents, matches).None? <==> forall j | 0 <= j < |agents| :: !matches(agents[j])
    ensures BestAgent(agents, matches).Some? ==>
        i < |agents| && BestAgent(agents, matches).value == agents[i] && IsBestAt(agents, matches, i)
  {
    BestIndexIsBest(agents, matches);
    i := if BestIndex(agents, matches).Some? then BestIndex(agents, matches).value else 0;
  }

  /** Of two matching agents the first one given is chosen: by priority, then by place. */
  predicate Beats(agents: seq<Agent>, i: nat, j: nat)
    requires i < |agents| && j < |agents|
  {
    || agents[i].overlapPriority > agents[j].overlapPriority
    || (agents[i].overlapPriority == agents[j].overlapPriority && i <= j)
  }

  predicate IsChosen(agents: seq<Agent>, best: Option<nat>) {
    best.Some? ==> best.value < |agents|
  }

  function Better(agents: seq<Agent>, a: Option<nat>, b: Option<nat>): Option<nat>
    requires IsChosen(agents, a) && IsChosen(agents, b)
  {
    if a.None? then b else if b.None? || Beats(agents, a.value, b.value) then a else b
  }

  /** The best agent of a union of matches is the better one of the two bests. */
  lemma {:induction false} BestOfUnion(agents: seq<Agent>, one: Agent -> bool, other: Agent -> bool,
                                       either: Agent -> bool)
    requires forall i | 0 <= i < |agents| :: either(agents[i]) <==> one(agents[i]) || other(agents[i])
    ensures BestIndex(agents, either) == Better(agents, BestIndex(agents, one), BestIndex(agents, other))
  {
    BestIndexIsBest(agents, one);
    BestIndexIsBest(agents, other);
    BestIndexIsBest(agents, either);
    var better := Better(agents, BestIndex(agents, one), BestIndex(agents, other));
    if better.Some? {
      assert IsBestAt(agents, either, better.value);
      OneBest(agents, either, better.value, BestIndex(agents, either).value);
    }
  }

  lemma OneBest(agents: seq<Agent>, matches: Agent -> bool, i: nat, j: nat)
    requires i < |agents| && j < |agents| && IsBestAt(agents, matches, i) && IsBestAt(agents, matches, j)
    ensures i == j
  {
  }

  // ---- names out of tokens ----

  predicate IsSeparator(c: char) { c == '/' || c == BACKSLASH }

  function AfterLastSeparator(s: string): string {
    if s == [] then []
    else if exists i | 0 <= i < |s| :: IsSeparator(s[i]) then AfterLastSeparator(s[1..])
    else s
  }

  function TrimLeadingDashes(s: string): string {
    if s != [] && s[0] == '-' then TrimLeadingDashes(s[1..]) else s
  }

  predicate HasSuffix(s: string, suffix: string) {
    |suffix| <= |s| && s[|s| - |suffix|..] == suffix
  }

  function TrimTrailingExe(s: string): string
    decreases |s|
  {
    if HasSuffix(s, ".exe") then TrimTrailingExe(s[..|s| - 4]) else s
  }

  /** No directory, no leading dash of a login shell, no `.exe`. */
  function BinaryName(token: string): string {
    TrimTrailingExe(TrimLeadingDashes(AfterLastSeparator(token)))
  }

  lemma {:induction false} AfterSeparatorIsBare(s: string)
    ensures forall c | c in AfterLastSeparator(s) :: !IsSeparator(c)
    decreases |s|
  {
    if s != [] && exists i | 0 <= i < |s| :: IsSeparator(s[i]) {
      AfterSeparatorIsBare(s[1..]);
    }
  }

  lemma {:induction false} TrimmedDashes(s: string)
    ensures !StartsWithDash(TrimLeadingDashes(s)) && forall c | c in TrimLeadingDashes(s) :: c in s
    decreases |s|
  {
    if StartsWithDash(s) {
      TrimmedDashes(s[1..]);
    }
  }

  lemma {:induction false} TrimmedExe(s: string)
    ensures !HasSuffix(TrimTrailingExe(s), ".exe") && TrimTrailingExe(s) <= s
    decreases |s|
  {
    if HasSuffix(s, ".exe") {
      TrimmedExe(s[..|s| - 4]);
    }
  }

  /** A binary name holds no directory, no login dash and no `.exe`. */
  lemma {:induction false} BinaryNameIsBare(token: string)
    ensures var name := BinaryName(token);
            !StartsWithDash(name) && !HasSuffix(name, ".exe") && forall c | c in name :: !IsSeparator(c)
  {
    var last := AfterLastSeparator(token);
    AfterSeparatorIsBare(token);
    TrimmedDashes(last);
    TrimmedExe(TrimLeadingDashes(last));
  }

  lemma {:induction false} DashesGo(dashes: string, name: string)
    requires (forall c | c in dashes :: c == '-') && !StartsWithDash(name)
    ensures TrimLeadingDashes(dashes + name) == name
    decreases |dashes|
  {
    if dashes == [] {
      assert dashes + name == name;
    } else {
      assert (dashes + name)[1..] == dashes[1..] + name && dashes[0] in dashes;
      assert forall c | c in dashes[1..] :: c in dashes;
      DashesGo(dashes[1..], name);
    }
  }

  lemma ExeGoes(name: string)
    requires !HasSuffix(name, ".exe")
    ensures TrimTrailingExe(name + ".exe") == name && TrimTrailingExe(name) == name
  {
    assert (name + ".exe")[..|name|] == name;
  }

  /** The dashes of a login shell and a trailing `.exe` go; nothing else of a name does. */
  lemma {:induction false} DecorationsAreIgnored(dashes: string, name: string)
    requires (forall c | c in dashes :: c == '-') && !StartsWithDash(name) && name != []
    requires (forall c | c in name :: !IsSeparator(c)) && !HasSuffix(name, ".exe")
    ensures BinaryName(dashes + name) == name
    ensures BinaryName(dashes + (name + ".exe")) == name
  {
    assert forall i | 0 <= i < |dashes + name| :: !IsSeparator((dashes + name)[i]) by {
      assert forall c | c in dashes + name :: c in dashes || c in name;
      assert forall i | 0 <= i < |dashes + name| :: (dashes + name)[i] in dashes + name;
    }
    NoSeparatorNoCut(dashes + name);
    DashesGo(dashes, name);
    ExeGoes(name);
    var exe := name + ".exe";
    assert !StartsWithDash(exe);
    assert forall c | c in ".exe" :: !IsSeparator(c);
    assert forall i | 0 <= i < |dashes + exe| :: !IsSeparator((dashes + exe)[i]) by {
      assert forall c | c in dashes + exe :: c in dashes || c in name || c in ".exe";
      assert forall i | 0 <= i < |dashes + exe| :: (dashes + exe)[i] in dashes + exe;
    }
    NoSeparatorNoCut(dashes + exe);
    DashesGo(dashes, exe);
  }

  lemma NoSeparatorNoCut(s: string)
    requires forall i | 0 <= i < |s| :: !IsSeparator(s[i])
    ensures AfterLastSeparator(s) == s
  {
  }

  lemma {:induction false} AfterSeparatorOfPath(directory: string, separator: char, file: string)
    requires IsSeparator(separator) && forall c | c in file :: !IsSeparator(c)
    ensures AfterLastSeparator(directory + [separator] + file) == file
    decreases |directory|
  {
    var path := directory + [separator] + file;
    assert path[|directory|] == separator;
    if directory == [] {
      assert path[1..] == file;
    } else {
      assert path[1..] == directory[1..] + [separator] + file;
      AfterSeparatorOfPath(directory[1..], separator, file);
    }
  }

  /** The directory a program is run from does not change its name. */
  lemma {:induction false} DirectoryIsIgnored(directory: string, separator: char, file: string)
    requires IsSeparator(separator) && forall c | c in file :: !IsSeparator(c)
    ensures BinaryName(directory + [separator] + file) == BinaryName(file)
  {
    AfterSeparatorOfPath(directory, separator, file);
    if file != [] {
      assert forall i | 0 <= i < |file| :: file[i] in file;
    }
    assert AfterLastSeparator(file) == file;
  }

  function StripScriptExtension(token: string): string {
    if HasSuffix(token, ".cjs") then token[..|token| - 4]
    else if HasSuffix(token, ".mjs") then token[..|token| - 4]
    else if HasSuffix(token, ".js") then token[..|token| - 3]
    else if HasSuffix(token, ".py") then token[..|token| - 3]
    else token
  }

  /** Runtimes whose script is the name to look for. */
  const INTERPRETERS: set<string> := {
    "node", "nodejs", "bun", "deno", "npx", "pnpm", "yarn", "python", "python3", "py", "uv", "uvx",
    "ruby", "perl", "sh", "bash", "zsh", "fish"
  }

  function SlashSegments(s: string): (segments: seq<string>)
    ensures segments != []
  {
    if s == [] then [[]]
    else
      var others := SlashSegments(s[1..]);
      if IsSeparator(s[0]) then [[]] + others else [[s[0]] + others[0]] + others[1..]
  }

  function LastIndexOf(segments: seq<string>, name: string): (found: Option<nat>)
    ensures found.Some? ==> found.value < |segments|
  {
    if segments == [] then None
    else if segments[|segments| - 1] == name then Some(|segments| - 1)
    else LastIndexOf(segments[..|segments| - 1], name)
  }

  /** The npm package under the last `node_modules`: its full name and base name. */
  function NodePackage(segments: seq<string>): Option<(string, string)> {
    var modules := LastIndexOf(segments, "node_modules");
    if modules.None? || modules.value + 1 >= |segments| then None
    else
      var first := segments[modules.value + 1];
      if first != [] && first[0] == '@' then
        if modules.value + 2 >= |segments| then None
        else
          var basename := segments[modules.value + 2];
          Some((first + "/" + basename, basename))
      else Some((first, first))
  }

  lemma {:induction false} LastIndexFound(front: seq<string>, name: string, back: seq<string>)
    requires name !in back
    ensures LastIndexOf(front + [name] + back, name) == Some(|front|)
    decreases |back|
  {
    var all := front + [name] + back;
    if back == [] {
      assert all[|all| - 1] == name;
    } else {
      assert all[|all| - 1] == back[|back| - 1] && back[|back| - 1] in back;
      assert all[..|all| - 1] == front + [name] + back[..|back| - 1];
      LastIndexFound(front, name, back[..|back| - 1]);
    }
  }

  /** The package is what follows the innermost `node_modules`, with its scope. */
  lemma {:induction false} NodePackageMeans(front: seq<string>, back: seq<string>)
    requires "node_modules" !in back
    ensures var isScoped := back != [] && back[0] != [] && back[0][0] == '@';
            NodePackage(front + ["node_modules"] + back) ==
            if back == [] || (isScoped && |back| == 1) then None
            else if isScoped then Some((back[0] + "/" + back[1], back[1]))
            else Some((back[0], back[0]))
  {
    LastIndexFound(front, "node_modules", back);
  }

  function NameOf(agent: Option<Agent>): Option<string> {
    if agent.Some? then Some(agent.value.name) else None
  }

  function OrElse<T>(first: Option<T>, second: Option<T>): Option<T> {
    if first.Some? then first else second
  }

  /** The first answer over a list of command lines. */
  function FirstSome<T>(commands: seq<string>, answer: string -> Option<T>): Option<T> {
    if commands == [] then None else OrElse(answer(commands[0]), FirstSome(commands[1..], answer))
  }

  lemma {:induction false} FirstSomeMeans<T>(commands: seq<string>, answer: string -> Option<T>) returns (i: nat)
    ensures i <= |commands| && (i < |commands| <==> FirstSome(commands, answer).Some?)
    ensures i < |commands| ==> FirstSome(commands, answer) == answer(commands[i])
    ensures forall j | 0 <= j < i :: answer(commands[j]).None?
    decreases |commands|
  {
    i := 0;
    if commands != [] && answer(commands[0]).None? {
      var k := FirstSomeMeans(commands[1..], answer);
      assert forall j | 0 < j < k + 1 :: commands[j] == commands[1..][j - 1];
      i := k + 1;
    }
  }

  /** The agents known to this process and the code it calls out to. */
  datatype Manifests = Manifests(
    agents: seq<Agent>,
    lower: CaseMap,
    codexPersistentFlags: seq<string> -> seq<string>)
  {
    function MatchBinary(base: string): Option<string> {
      OrElse(
        NameOf(BestAgent(agents, (agent: Agent) => agent.binaryMatcher.Some? && agent.binaryMatcher.value(base))),
        NameOf(BestAgent(agents, (agent: Agent) => agent.Names(base))))
    }

    function MatchInterpreterScript(token: string): Option<string> {
      var segments := SlashSegments(Lower(lower, token));
      var script := StripScriptExtension(segments[|segments| - 1]);
      var package := NodePackage(segments);
      OrElse(
        if package.None? then None
        else NameOf(BestAgent(agents, (agent: Agent) => package.value.0 in agent.interpreterPackages)),
        OrElse(MatchBinary(BinaryName(token)),
        OrElse(NameOf(BestAgent(agents, (agent: Agent) => agent.Names(script))),
        if package.None? then None
        else NameOf(BestAgent(agents, (agent: Agent) => package.value.1 in agent.distinct)))))
    }

    /** The full package name decides before any base name: two owners' packages of
        the same base name are told apart. */
    lemma {:induction false} PackageDecides(token: string, k: nat) returns (i: nat)
      requires NodePackage(SlashSegments(Lower(lower, token))).Some?
      requires k < |agents|
      requires NodePackage(SlashSegments(Lower(lower, token))).value.0 in agents[k].interpreterPackages
      ensures i < |agents| && MatchInterpreterScript(token) == Some(agents[i].name)
      ensures NodePackage(SlashSegments(Lower(lower, token))).value.0 in agents[i].interpreterPackages
      ensures agents[i].overlapPriority >= agents[k].overlapPriority
    {
      var package := NodePackage(SlashSegments(Lower(lower, token)));
      i := BestAgentIsBest(agents, (agent: Agent) => package.value.0 in agent.interpreterPackages);
    }

    /** An adapter's whole-argv check: the agent and the index of its script token. */
    function MatchArgvScript(argv: seq<string>): Option<(string, nat)> {
      var agent := BestAgent(agents, (agent: Agent) => agent.argvScript.Some? && agent.argvScript.value(argv).Some?);
      if agent.None? || agent.value.argvScript.None? || agent.value.argvScript.value(argv).None? then None
      else Some((agent.value.name, agent.value.argvScript.value(argv).value))
    }

    /** The walks over a command line with these agents. */
    function Walks(): Walk {
      Walk(lower, MatchBinary, MatchInterpreterScript, MatchArgvScript,
           exists i | 0 <= i < |agents| :: agents[i].argvScript.Some?, INTERPRETERS, codexPersistentFlags)
    }

    lemma {:induction false} WalksAreSound()
      ensures Walks().IsSound()
    {
      if !Walks().anyAdapter {
        forall argv: seq<string> ensures MatchArgvScript(argv).None? {
          var _ := BestAgentIsBest(agents, (agent: Agent) =>
            agent.argvScript.Some? && agent.argvScript.value(argv).Some?);
        }
      }
    }
  }

  /** What the two walks need to know: how a binary name, an interpreter's script and
      a whole argv name an agent, and whether any adapter checks whole argvs. */
  datatype Walk = Walk(
    lower: CaseMap,
    matchBinary: string -> Option<string>,
    matchScript: string -> Option<string>,
    matchAdapter: seq<string> -> Option<(string, nat)>,
    anyAdapter: bool,
    interpreters: set<string>,
    codexPersistentFlags: seq<string> -> seq<string>)
  {
    ghost predicate IsSound() {
      !anyAdapter ==> forall argv: seq<string> :: matchAdapter(argv).None?
    }

    function PersistentLaunchFlags(agent: string, launch: seq<string>): seq<string> {
      if agent == "codex" then codexPersistentFlags(launch) else launch
    }

    // ---- leading env ----

    /** From the first argument after `env` on: skips assignments; any flag makes
        the wrapper unknown. */
    function AfterAssignments(argv: seq<string>, i: nat): seq<string>
      requires i <= |argv|
      decreases |argv| - i
    {
      if i == |argv| then []
      else if StartsWithDash(argv[i]) then argv
      else if '=' !in argv[i] then argv[i..]
      else AfterAssignments(argv, i + 1)
    }

    function UnwrapLeadingEnv(argv: seq<string>): seq<string> {
      if argv == [] || BinaryName(Lower(lower, argv[0])) != "env" then argv else AfterAssignments(argv, 1)
    }

    method SkipLeadingEnv(argv: seq<string>) returns (command: seq<string>)
      ensures command == UnwrapLeadingEnv(argv)
    {
      if argv == [] || BinaryName(Lower(lower, argv[0])) != "env" {
        return argv;
      }
      var i := 1;
      while i < |argv|
        invariant 1 <= i <= |argv| && UnwrapLeadingEnv(argv) == AfterAssignments(argv, i)
      {
        if StartsWithDash(argv[i]) {
          return argv;
        }
        if '=' !in argv[i] {
          return argv[i..];
        }
        i := i + 1;
      }
      command := argv[i..];
    }

    /** What `env` is unwrapped to: `k` is the first argument after it that is no
        assignment. A flag there leaves the command line alone. */
    lemma {:induction false} UnwrapMeans(argv: seq<string>) returns (k: nat)
      requires argv != [] && BinaryName(Lower(lower, argv[0])) == "env"
      ensures 1 <= k <= |argv|
      ensures forall j | 1 <= j < k :: '=' in argv[j] && !StartsWithDash(argv[j])
      ensures k < |argv| ==> '=' !in argv[k] || StartsWithDash(argv[k])
      ensures UnwrapLeadingEnv(argv) == if k < |argv| && StartsWithDash(argv[k]) then argv else argv[k..]
    {
      k := 1;
      while k < |argv| && '=' in argv[k] && !StartsWithDash(argv[k])
        invariant 1 <= k <= |argv|
        invariant forall j | 1 <= j < k :: '=' in argv[j] && !StartsWithDash(argv[j])
        invariant UnwrapLeadingEnv(argv) == AfterAssignments(argv, k)
      {
        k := k + 1;
      }
    }

    // ---- identity ----

    /** The agent, the index of the token that named it, and whether an adapter's
        whole-argv check did. The program keeps only the name. */
    function Identify(argv: seq<string>): Option<Found> {
      IdentifyUnwrapped(UnwrapLeadingEnv(argv))
    }

    function IdentifyUnwrapped(tokens: seq<string>): Option<Found> {
      if tokens == [] then None
      else
        var first := BinaryName(tokens[0]);
        var binary := matchBinary(first);
        if binary.Some? then Some(Found(binary.value, 0, false))
        else
          var slot := if first in interpreters then InterpreterScriptSlot(tokens[1..]) else None;
          var script := if slot.Some? then matchScript(tokens[slot.value + 1]) else None;
          if script.Some? then Some(Found(script.value, slot.value + 1, false))
          else IdentifyByAdapter(tokens)
    }

    function IdentifyByAdapter(tokens: seq<string>): Option<Found> {
      var adapter := matchAdapter(tokens);
      if adapter.Some? then Some(Found(adapter.value.0, adapter.value.1, true)) else None
    }

    function AgentInProcessCommand(command: string): Option<string> {
      var found := Identify(Tokens(Lower(lower, command)));
      if found.Some? then Some(found.value.name) else None
    }

    function AgentInProcesses(running: seq<string>): Option<string> {
      FirstSome(running, AgentInProcessCommand)
    }

    // ---- capture ----

    /** The launch flags one command line shows for this agent. */
    function Capture(command: string, agent: string): Option<seq<string>> {
      CaptureUnwrapped(UnwrapLeadingEnv(Tokens(command)), agent)
    }

    function CaptureUnwrapped(tokens: seq<string>, agent: string): Option<seq<string>> {
      if tokens == [] then None
      else
        var first, rest := BinaryName(Lower(lower, tokens[0])), tokens[1..];
        if matchBinary(first) == Some(agent) then Some(PersistentLaunchFlags(agent, rest))
        else
          var slot := if first in interpreters then InterpreterScriptSlot(rest) else None;
          if slot.Some? && matchScript(Lower(lower, rest[slot.value])) == Some(agent) then
            Some(PersistentLaunchFlags(agent, rest[slot.value + 1..]))
          else CaptureByAdapter(tokens, agent)
    }

    function CaptureByAdapter(tokens: seq<string>, agent: string): Option<seq<string>> {
      if anyAdapter then
        var adapter := matchAdapter(LowerEach(lower, tokens));
        if adapter.Some? && adapter.value.0 == agent then Some(SkipTokens(tokens, adapter.value.1 + 1)) else None
      else None
    }

    /** The first command line of the process tree that shows the agent's flags. */
    function LaunchArgs(running: seq<string>, agent: string): Option<seq<string>> {
      FirstSome(running, (command: string) => Capture(command, agent))
    }

    method LaunchArgsFor(running: seq<string>, agent: string) returns (flags: Option<seq<string>>)
      ensures flags == LaunchArgs(running, agent)
    {
      var i := 0;
      while i < |running|
        invariant 0 <= i <= |running|
        invariant LaunchArgs(running, agent) == LaunchArgs(running[i..], agent)
      {
        flags := Capture(running[i], agent);
        if flags.Some? {
          return;
        }
        i := i + 1;
      }
      flags := None;
    }

    // ---- the two walks agree ----

    lemma {:induction false} AssignmentsLowered(argv: seq<string>, i: nat)
      requires RespectsSyntax(lower) && i <= |argv|
      ensures AfterAssignments(LowerEach(lower, argv), i) == LowerEach(lower, AfterAssignments(argv, i))
      decreases |argv| - i
    {
      if i < |argv| {
        LowerKeepsFirst(lower, argv[i], '-');
        LowerKeepsSyntax(lower, argv[i], '=');
        if !StartsWithDash(argv[i]) && '=' in argv[i] {
          AssignmentsLowered(argv, i + 1);
        }
      }
    }

    lemma {:induction false} UnwrapLowered(argv: seq<string>)
      requires RespectsSyntax(lower)
      ensures UnwrapLeadingEnv(LowerEach(lower, argv)) == LowerEach(lower, UnwrapLeadingEnv(argv))
    {
      if argv != [] {
        LowerIsIdempotent(lower, argv[0]);
        AssignmentsLowered(argv, 1);
      }
    }

    /** The arguments after argv[0] once `env` is unwrapped: what an interpreter reads. */
    function InterpreterArgs(argv: seq<string>): seq<string> {
      var tokens := UnwrapLeadingEnv(argv);
      if tokens == [] then [] else tokens[1..]
    }

    /** Lowercasing the arguments does not move the script slot. */
    predicate SlotKept(argv: seq<string>) {
      InterpreterScriptSlot(InterpreterArgs(argv)) == InterpreterScriptSlot(LowerEach(lower, InterpreterArgs(argv)))
    }

    lemma {:induction false} AdapterRoutesAgree(tokens: seq<string>)
      requires IsSound() && IdentifyByAdapter(LowerEach(lower, tokens)).Some?
      ensures var found := IdentifyByAdapter(LowerEach(lower, tokens)).value;
              CaptureByAdapter(tokens, found.name) == Some(SkipTokens(tokens, found.slot + 1))
    {
    }

    lemma {:induction false} BinaryRoutesAgree(tokens: seq<string>)
      requires tokens != [] && matchBinary(BinaryName(Lower(lower, tokens[0]))).Some?
      ensures var name := matchBinary(BinaryName(Lower(lower, tokens[0]))).value;
              && IdentifyUnwrapped(LowerEach(lower, tokens)) == Some(Found(name, 0, false))
              && CaptureUnwrapped(tokens, name) == Some(PersistentLaunchFlags(name, SkipTokens(tokens, 1)))
    {
      assert LowerEach(lower, tokens)[0] == Lower(lower, tokens[0]);
    }

    lemma {:induction false} ScriptRoutesAgree(tokens: seq<string>, slot: nat)
      requires tokens != [] && matchBinary(BinaryName(Lower(lower, tokens[0]))).None?
      requires BinaryName(Lower(lower, tokens[0])) in interpreters
      requires InterpreterScriptSlot(tokens[1..]) == InterpreterScriptSlot(LowerEach(lower, tokens)[1..]) == Some(slot)
      requires matchScript(Lower(lower, tokens[1..][slot])).Some?
      ensures var name := matchScript(Lower(lower, tokens[1..][slot])).value;
              && IdentifyUnwrapped(LowerEach(lower, tokens)) == Some(Found(name, slot + 1, false))
              && CaptureUnwrapped(tokens, name) == Some(PersistentLaunchFlags(name, SkipTokens(tokens, slot + 2)))
    {
      var lowered := LowerEach(lower, tokens);
      assert lowered[0] == Lower(lower, tokens[0]);
      assert lowered[slot + 1] == Lower(lower, tokens[1..][slot]);
      assert tokens[1..][slot + 1..] == SkipTokens(tokens, slot + 2);
    }

    lemma {:induction false} RemainingRoutesAgree(tokens: seq<string>, agent: string)
      requires tokens != [] && matchBinary(BinaryName(Lower(lower, tokens[0]))).None?
      requires InterpreterScriptSlot(tokens[1..]) == InterpreterScriptSlot(LowerEach(lower, tokens)[1..])
      requires var slot := InterpreterScriptSlot(tokens[1..]);
               BinaryName(Lower(lower, tokens[0])) in interpreters && slot.Some? ==>
               matchScript(Lower(lower, tokens[1..][slot.value])).None?
      ensures IdentifyUnwrapped(LowerEach(lower, tokens)) == IdentifyByAdapter(LowerEach(lower, tokens))
      ensures CaptureUnwrapped(tokens, agent) == CaptureByAdapter(tokens, agent)
    {
      var lowered := LowerEach(lower, tokens);
      assert lowered[0] == Lower(lower, tokens[0]);
      var slot := InterpreterScriptSlot(tokens[1..]);
      if slot.Some? {
        assert lowered[slot.value + 1] == Lower(lower, tokens[1..][slot.value]);
      }
    }

    lemma {:induction false} AdapterRouteAgrees(tokens: seq<string>, found: Found)
      requires IsSound() && tokens != [] && matchBinary(BinaryName(Lower(lower, tokens[0]))).None?
      requires InterpreterScriptSlot(tokens[1..]) == InterpreterScriptSlot(LowerEach(lower, tokens)[1..])
      requires var slot := InterpreterScriptSlot(tokens[1..]);
               BinaryName(Lower(lower, tokens[0])) in interpreters && slot.Some? ==>
               matchScript(Lower(lower, tokens[1..][slot.value])).None?
      requires IdentifyUnwrapped(LowerEach(lower, tokens)) == Some(found)
      ensures found.byAdapter && CaptureUnwrapped(tokens, found.name) == Some(SkipTokens(tokens, found.slot + 1))
    {
      RemainingRoutesAgree(tokens, found.name);
      AdapterRoutesAgree(tokens);
    }

    lemma {:induction false} RoutesAgree(tokens: seq<string>, found: Found)
      requires IsSound() && tokens != []
      requires InterpreterScriptSlot(tokens[1..]) == InterpreterScriptSlot(LowerEach(lower, tokens[1..]))
      requires IdentifyUnwrapped(LowerEach(lower, tokens)) == Some(found)
      ensures var tail := SkipTokens(tokens, found.slot + 1);
              CaptureUnwrapped(tokens, found.name) ==
              Some(if found.byAdapter then tail else PersistentLaunchFlags(found.name, tail))
    {
      assert LowerEach(lower, tokens)[1..] == LowerEach(lower, tokens[1..]);
      var first, slot := BinaryName(Lower(lower, tokens[0])), InterpreterScriptSlot(tokens[1..]);
      if matchBinary(first).Some? {
        BinaryRoutesAgree(tokens);
      } else if first in interpreters && slot.Some? && matchScript(Lower(lower, tokens[1..][slot.value])).Some? {
        ScriptRoutesAgree(tokens, slot.value);
      } else {
        AdapterRouteAgrees(tokens, found);
      }
    }

    /** What stands behind the token that identity went by. */
    function ArgsAfter(argv: seq<string>, found: Found): seq<string> {
      SkipTokens(UnwrapLeadingEnv(argv), found.slot + 1)
    }

    /** What capture should hand on: for Codex, passed through its own filter. */
    function CapturedArgs(argv: seq<string>, found: Found): seq<string> {
      if found.byAdapter then ArgsAfter(argv, found) else PersistentLaunchFlags(found.name, ArgsAfter(argv, found))
    }

    /** Whatever identity names, capture finds, and what it captures is the original
        command line after the very token that named the agent (for Codex, passed
        through its own filter), as long as lowercasing keeps the script slot. */
    lemma {:induction false} CaptureFollowsIdentity(command: string, found: Found)
      requires IsSound() && RespectsSyntax(lower) && SlotKept(Tokens(command))
      requires Identify(Tokens(Lower(lower, command))) == Some(found)
      ensures Capture(command, found.name) == Some(CapturedArgs(Tokens(command), found))
    {
      TokensCommuteWithLower(lower, command);
      UnwrapLowered(Tokens(command));
      RoutesAgree(UnwrapLeadingEnv(Tokens(command)), found);
    }

    lemma {:induction false} NoRouteNoCapture(tokens: seq<string>, agent: string)
      requires IsSound() && tokens != []
      requires InterpreterScriptSlot(tokens[1..]) == InterpreterScriptSlot(LowerEach(lower, tokens[1..]))
      requires IdentifyUnwrapped(LowerEach(lower, tokens)).None?
      ensures CaptureUnwrapped(tokens, agent).None?
    {
      var lowered := LowerEach(lower, tokens);
      assert lowered[1..] == LowerEach(lower, tokens[1..]) && lowered[0] == Lower(lower, tokens[0]);
      var slot := InterpreterScriptSlot(tokens[1..]);
      if slot.Some? {
        assert lowered[slot.value + 1] == Lower(lower, tokens[1..][slot.value]);
      }
    }

    /** Where identity names nobody, capture finds nothing for anybody. */
    lemma {:induction false} NoIdentityNoCapture(command: string, agent: string)
      requires IsSound() && RespectsSyntax(lower) && SlotKept(Tokens(command))
      requires Identify(Tokens(Lower(lower, command))).None?
      ensures Capture(command, agent).None?
    {
      TokensCommuteWithLower(lower, command);
      UnwrapLowered(Tokens(command));
      if UnwrapLeadingEnv(Tokens(command)) != [] {
        NoRouteNoCapture(UnwrapLeadingEnv(Tokens(command)), agent);
      }
    }

    /** One command line: capture finds something for the agent identity names, and
        nothing for anybody where identity names nobody. */
    lemma {:induction false} OneProcessAgrees(command: string, agent: string)
      requires IsSound() && RespectsSyntax(lower) && SlotKept(Tokens(command))
      ensures AgentInProcessCommand(command) == Some(agent) ==> Capture(command, agent).Some?
      ensures AgentInProcessCommand(command) == None ==> Capture(command, agent) == None
    {
      var found := Identify(Tokens(Lower(lower, command)));
      if found.Some? {
        CaptureFollowsIdentity(command, found.value);
      } else {
        NoIdentityNoCapture(command, agent);
      }
    }

    /** Over a whole process tree: the flags captured for the agent that identity
        names are those of the very command line identity went by. */
    lemma {:induction false} ProcessTreeAgrees(running: seq<string>, agent: string) returns (i: nat)
      requires IsSound() && RespectsSyntax(lower)
      requires forall j | 0 <= j < |running| :: SlotKept(Tokens(running[j]))
      requires AgentInProcesses(running) == Some(agent)
      ensures i < |running| && AgentInProcessCommand(running[i]) == Some(agent)
      ensures forall j | 0 <= j < i :: AgentInProcessCommand(running[j]) == None
      ensures LaunchArgs(running, agent) == Capture(running[i], agent) && Capture(running[i], agent).Some?
    {
      i := FirstSomeMeans(running, AgentInProcessCommand);
      var k := FirstSomeMeans(running, (command: string) => Capture(command, agent));
      forall j | 0 <= j <= i
        ensures Capture(running[j], agent).Some? <==> j == i
      {
        OneProcessAgrees(running[j], agent);
      }
    }

    /** No interpreter option changes its meaning when lowercased, as `-R` does. */
    predicate OptionsKeepMeaning(args: seq<string>) {
      forall i | 0 <= i < |args| && StartsWithDash(args[i]) ::
        Lower(lower, args[i]) in VALUE_OPTIONS <==> args[i] in VALUE_OPTIONS
    }

    lemma {:induction false} OptionsKeepSlot(argv: seq<string>)
      requires RespectsSyntax(lower) && OptionsKeepMeaning(InterpreterArgs(argv))
      ensures SlotKept(argv)
    {
      SlotFromLowered(InterpreterArgs(argv), 0);
    }

    lemma {:induction false} SlotFromLowered(args: seq<string>, i: nat)
      requires RespectsSyntax(lower) && OptionsKeepMeaning(args)
      ensures SlotFrom(LowerEach(lower, args), i) == SlotFrom(args, i)
      decreases if i < |args| then |args| - i else 0
    {
      if i < |args| {
        LowerKeepsFirst(lower, args[i], '-');
        if StartsWithDash(args[i]) {
          SlotFromLowered(args, if args[i] in VALUE_OPTIONS then i + 2 else i + 1);
        }
      }
    }

    /** Capture's own script slot, read off the original arguments, names the agent. */
    predicate CapturesByScript(tokens: seq<string>, agent: string)
      requires tokens != []
    {
      && BinaryName(Lower(lower, tokens[0])) in interpreters
      && var slot := InterpreterScriptSlot(tokens[1..]);
         slot.Some? && matchScript(Lower(lower, tokens[1..][slot.value])) == Some(agent)
    }

    /** Where capture finds the agent's flags behind the token identity went by. For
        argv[0] always. For an interpreter's script, where lowercasing keeps the slot, or
        else an adapter's check captures the same and no other script slot comes first.
        For an adapter's check, unless a script slot that comes first captures other
        flags. */
    predicate FollowsIdentity(argv: seq<string>, found: Found)
      requires UnwrapLeadingEnv(argv) != []
    {
      var tokens := UnwrapLeadingEnv(argv);
      if found.byAdapter then
        CapturesByScript(tokens, found.name) ==>
          SkipTokens(tokens, InterpreterScriptSlot(tokens[1..]).value + 2) == ArgsAfter(argv, found)
      else
        || found.slot == 0
        || SlotKept(argv)
        || (!CapturesByScript(tokens, found.name) &&
            CaptureByAdapter(tokens, found.name) == Some(ArgsAfter(argv, found)))
    }

    /** For every command line that names an agent, and whatever adapters are loaded:
        exactly when capture finds the flags behind the token identity went by. */
    lemma {:induction false} CaptureFollowsIff(command: string, found: Found)
      requires IsSound() && RespectsSyntax(lower)
      requires Identify(Tokens(Lower(lower, command))) == Some(found) && found.name != "codex"
      ensures UnwrapLeadingEnv(Tokens(command)) != []
      ensures Capture(command, found.name) == Some(ArgsAfter(Tokens(command), found)) <==>
              FollowsIdentity(Tokens(command), found)
    {
      TokensCommuteWithLower(lower, command);
      UnwrapLowered(Tokens(command));
      var tokens := UnwrapLeadingEnv(Tokens(command));
      if found.byAdapter {
        NamedByAdapter(tokens, found);
      } else if found.slot == 0 {
        NamedByBinary(tokens, found);
      } else if SlotKept(Tokens(command)) {
        CaptureFollowsIdentity(command, found);
      } else {
        MovedSlotCaptures(tokens, found);
      }
    }

    lemma {:induction false} NamedByBinary(tokens: seq<string>, found: Found)
      requires tokens != [] && IdentifyUnwrapped(LowerEach(lower, tokens)) == Some(found)
      requires !found.byAdapter && found.slot == 0 && found.name != "codex"
      ensures CaptureUnwrapped(tokens, found.name) == Some(SkipTokens(tokens, 1))
    {
      assert LowerEach(lower, tokens)[0] == Lower(lower, tokens[0]);
      BinaryRoutesAgree(tokens);
    }

    lemma {:induction false} NamedByAdapter(tokens: seq<string>, found: Found)
      requires tokens != [] && IsSound() && IdentifyUnwrapped(LowerEach(lower, tokens)) == Some(found)
      requires found.byAdapter && found.name != "codex"
      ensures CaptureUnwrapped(tokens, found.name) ==
              Some(SkipTokens(tokens, if CapturesByScript(tokens, found.name)
                                      then InterpreterScriptSlot(tokens[1..]).value + 2 else found.slot + 1))
    {
      var lowered := LowerEach(lower, tokens);
      assert lowered[0] == Lower(lower, tokens[0]);
      assert IdentifyByAdapter(lowered) == Some(found);
      AdapterRoutesAgree(tokens);
      ScriptCaptures(tokens, found.name);
    }

    lemma {:induction false} ScriptCaptures(tokens: seq<string>, agent: string)
      requires tokens != [] && matchBinary(BinaryName(Lower(lower, tokens[0]))).None? && agent != "codex"
      ensures CaptureUnwrapped(tokens, agent) ==
              if CapturesByScript(tokens, agent)
              then Some(SkipTokens(tokens, InterpreterScriptSlot(tokens[1..]).value + 2))
              else CaptureByAdapter(tokens, agent)
    {
      var slot := InterpreterScriptSlot(tokens[1..]);
      if slot.Some? {
        assert tokens[1..][slot.value + 1..] == SkipTokens(tokens, slot.value + 2);
      }
    }

    /** An agent named by the script at the lowered slot, where capture looks elsewhere. */
    lemma {:induction false} MovedSlotCaptures(tokens: seq<string>, found: Found)
      requires tokens != [] && IdentifyUnwrapped(LowerEach(lower, tokens)) == Some(found)
      requires !found.byAdapter && found.slot > 0 && found.name != "codex"
      requires InterpreterScriptSlot(tokens[1..]) != InterpreterScriptSlot(LowerEach(lower, tokens[1..]))
      ensures CaptureUnwrapped(tokens, found.name) == Some(SkipTokens(tokens, found.slot + 1)) <==>
              !CapturesByScript(tokens, found.name) &&
              CaptureByAdapter(tokens, found.name) == Some(SkipTokens(tokens, found.slot + 1))
    {
      var lowered := LowerEach(lower, tokens);
      assert lowered[1..] == LowerEach(lower, tokens[1..]) && lowered[0] == Lower(lower, tokens[0]);
      assert InterpreterScriptSlot(lowered[1..]) == Some((found.slot - 1) as nat);
      ScriptCaptures(tokens, found.name);
      if CapturesByScript(tokens, found.name) {
        OtherTail(tokens, InterpreterScriptSlot(tokens[1..]).value + 2, found.slot + 1);
      }
    }
  }

  datatype Found = Found(name: string, slot: nat, byAdapter: bool)

  function SkipTokens(tokens: seq<string>, n: nat): seq<string> {
    if n <= |tokens| then tokens[n..] else []
  }

  lemma OtherTail(tokens: seq<string>, m: nat, n: nat)
    requires m <= |tokens| && n <= |tokens| && m != n
    ensures SkipTokens(tokens, m) != SkipTokens(tokens, n)
  {
    assert |SkipTokens(tokens, m)| != |SkipTokens(tokens, n)|;
  }

  /** Interpreter options that take the next argument as their value. */
  const VALUE_OPTIONS: set<string> := {"-r", "--require", "--loader"}

  function SlotFrom(args: seq<string>, i: nat): (slot: Option<nat>)
    ensures slot.Some? ==> i <= slot.value < |args| && !StartsWithDash(args[slot.value])
    decreases if i < |args| then |args| - i else 0
  {
    if i >= |args| then None
    else if StartsWithDash(args[i]) then SlotFrom(args, if args[i] in VALUE_OPTIONS then i + 2 else i + 1)
    else Some(i)
  }

  function InterpreterScriptSlot(args: seq<string>): (slot: Option<nat>)
    ensures slot.Some? ==> slot.value < |args| && !StartsWithDash(args[slot.value])
  {
    SlotFrom(args, 0)
  }

  /** Token `i` is the value of the option before it. */
  predicate IsOptionValue(args: seq<string>, i: nat)
    requires i < |args|
  {
    i > 0 && args[i - 1] in VALUE_OPTIONS
  }

  /** Before the script slot stand only flags and their values. */
  lemma {:induction false} SlotMeans(args: seq<string>, i: nat)
    requires i <= |args|
    ensures var end := if SlotFrom(args, i).Some? then SlotFrom(args, i).value else |args|;
            forall j | i <= j < end :: StartsWithDash(args[j]) || (j > i && IsOptionValue(args, j))
    decreases |args| - i
  {
    if i < |args| && StartsWithDash(args[i]) {
      if args[i] !in VALUE_OPTIONS {
        SlotMeans(args, i + 1);
      } else if i + 2 <= |args| {
        SlotMeans(args, i + 2);
      }
    }
  }

  method FindInterpreterScript(args: seq<string>) returns (slot: Option<nat>)
    ensures slot == InterpreterScriptSlot(args)
  {
    var i := 0;
    while i < |args|
      invariant InterpreterScriptSlot(args) == SlotFrom(args, i)
      decreases |args| - i
    {
      var arg := args[i];
      if StartsWithDash(arg) {
        if arg in VALUE_OPTIONS {
          i := i + 2;
        } else {
          i := i + 1;
        }
      } else {
        return Some(i);
      }
    }
    slot := None;
  }

  /** Before `-R`, a hook and a script, lowercasing moves the slot from the hook, which
      `-r` takes as its value, to the script. */
  lemma {:induction false} CapitalOptionSlots(lower: CaseMap, args: seq<string>)
    requires RespectsSyntax(lower) && lower('R') == "r"
    requires |args| >= 3 && args[0] == "-R" && !StartsWithDash(args[1]) && !StartsWithDash(args[2])
    ensures InterpreterScriptSlot(args) == Some(1)
    ensures InterpreterScriptSlot(LowerEach(lower, args)) == Some(2)
  {
    var lowered := LowerEach(lower, args);
    assert SlotFrom(args, 0) == SlotFrom(args, 1);
    assert "-R" == ['-'] + ['R'];
    LowerAppends(lower, ['-'], ['R']);
    LowerOne(lower, '-');
    LowerOne(lower, 'R');
    assert lowered[0] == "-r" && lowered[2] == Lower(lower, args[2]);
    LowerKeepsFirst(lower, args[2], '-');
    assert SlotFrom(lowered, 0) == SlotFrom(lowered, 2);
  }

  /** The walks where one agent is known, by its name alone. */
  function OneAgent(name: string): Walk {
    var named := (s: string) => if s == name then Some(name) else None;
    Walk(AsciiLower, named, named, (argv: seq<string>) => None, false, INTERPRETERS, (flags: seq<string>) => flags)
  }

  lemma BareNameStays(name: string)
    requires (forall c | c in name :: !IsSeparator(c)) && !StartsWithDash(name) && !HasSuffix(name, ".exe")
    ensures BinaryName(name) == name
  {
    if name != [] {
      assert forall i | 0 <= i < |name| :: name[i] in name;
    }
    assert AfterLastSeparator(name) == name;
  }

  /** Neither a capital, a separator, a dash nor a dot. */
  predicate IsSimpleName(name: string) {
    name != [] && forall i | 0 <= i < |name| :: 'a' <= name[i] <= 'z'
  }

  lemma SimpleName(name: string)
    requires IsSimpleName(name)
    ensures BinaryName(name) == name && Lower(AsciiLower, name) == name && !StartsWithDash(name)
  {
    LowerOnFixed(AsciiLower, name);
    NoDotNoSuffix(name, ".exe");
    BareNameStays(name);
  }

  lemma NoDotNoSuffix(name: string, suffix: string)
    requires '.' !in name && suffix != [] && suffix[0] == '.'
    ensures !HasSuffix(name, suffix)
  {
  }

  lemma {:induction false} CapitalOptionMeans(w: Walk, argv: seq<string>, agent: string)
    requires RespectsSyntax(w.lower) && w.lower('R') == "r" && !w.anyAdapter
    requires |argv| >= 4 && argv[1] == "-R" && !StartsWithDash(argv[2]) && !StartsWithDash(argv[3])
    requires BinaryName(Lower(w.lower, argv[0])) in w.interpreters - {"env"}
    requires w.matchBinary(BinaryName(Lower(w.lower, argv[0]))).None?
    requires w.matchScript(Lower(w.lower, argv[2])).None? && w.matchScript(Lower(w.lower, argv[3])) == Some(agent)
    ensures w.UnwrapLeadingEnv(argv) == argv
    ensures w.IdentifyUnwrapped(LowerEach(w.lower, argv)) == Some(Found(agent, 3, false))
    ensures w.CaptureUnwrapped(argv, agent) == None
  {
    var lowered, args := LowerEach(w.lower, argv), argv[1..];
    assert lowered[0] == Lower(w.lower, argv[0]) && lowered[3] == Lower(w.lower, argv[3]);
    assert args[0] == "-R" && args[1] == argv[2] && args[2] == argv[3];
    CapitalOptionSlots(w.lower, args);
    assert LowerEach(w.lower, args) == lowered[1..];
  }

  lemma EnvIsNoInterpreter()
    ensures "env" !in INTERPRETERS
  {
  }

  lemma OneAgentReads(name: string)
    ensures var w := OneAgent(name);
            RespectsSyntax(w.lower) && w.lower('R') == "r" && !w.anyAdapter && w.interpreters == INTERPRETERS
  {
    AsciiLowerRespectsSyntax();
  }

  lemma OneAgentKnows(name: string, token: string)
    requires IsSimpleName(token)
    ensures var w := OneAgent(name);
            && BinaryName(Lower(w.lower, token)) == token && Lower(w.lower, token) == token && !StartsWithDash(token)
            && w.matchBinary(token) == w.matchScript(token) == if token == name then Some(name) else None
  {
    SimpleName(token);
  }

  lemma {:induction false} AgentBehindCapitalOption(argv: seq<string>)
    requires |argv| >= 4 && argv[1] == "-R" && argv[3] !in {argv[0], argv[2]}
    requires IsSimpleName(argv[0]) && IsSimpleName(argv[2]) && IsSimpleName(argv[3])
    requires argv[0] in INTERPRETERS
    ensures var w := OneAgent(argv[3]);
            && w.UnwrapLeadingEnv(argv) == argv
            && w.IdentifyUnwrapped(LowerEach(w.lower, argv)) == Some(Found(argv[3], 3, false))
            && w.CaptureUnwrapped(argv, argv[3]) == None
  {
    var w := OneAgent(argv[3]);
    assert RespectsSyntax(w.lower) && w.lower('R') == "r" && !w.anyAdapter by {
      OneAgentReads(argv[3]);
    }
    assert BinaryName(Lower(w.lower, argv[0])) in w.interpreters - {"env"} by {
      OneAgentKnows(argv[3], argv[0]);
      OneAgentReads(argv[3]);
      EnvIsNoInterpreter();
    }
    assert w.matchBinary(BinaryName(Lower(w.lower, argv[0]))).None? by {
      OneAgentKnows(argv[3], argv[0]);
    }
    assert w.matchScript(Lower(w.lower, argv[2])).None? && !StartsWithDash(argv[2]) by {
      OneAgentKnows(argv[3], argv[2]);
    }
    assert w.matchScript(Lower(w.lower, argv[3])) == Some(argv[3]) && !StartsWithDash(argv[3]) by {
      OneAgentKnows(argv[3], argv[3]);
    }
    CapitalOptionMeans(w, argv, argv[3]);
  }

  /** A command line such as `node -R hook claude --model opus`: to identity it is
      Claude, for it skips the hook as the value of `-r`; capture reads the hook as the
      script and finds nobody. The flags are lost. */
  lemma {:induction false} CapitalOptionLosesFlags(node: string, hook: string, agent: string, flags: seq<string>)
    requires IsSimpleName(node) && IsSimpleName(hook) && IsSimpleName(agent)
    requires node in INTERPRETERS && agent !in {node, hook}
    requires forall i | 0 <= i < |flags| :: Recoverable(flags[i])
    ensures var w, command := OneAgent(agent), JoinQuoted([node, "-R", hook, agent] + flags);
            && w.Identify(Tokens(Lower(w.lower, command))) == Some(Found(agent, 3, false))
            && w.ArgsAfter(Tokens(command), Found(agent, 3, false)) == flags
            && w.Capture(command, agent) == None
  {
    var w, argv := OneAgent(agent), [node, "-R", hook, agent] + flags;
    AsciiLowerRespectsSyntax();
    TokensOfCapitalOption(node, hook, agent, flags);
    TokensCommuteWithLower(w.lower, JoinQuoted(argv));
    AgentBehindCapitalOption(argv);
    w.UnwrapLowered(argv);
    assert argv[4..] == flags;
  }

  /** Written out: `node -R hook claude x` for any such names. */
  lemma {:induction false} CapitalOptionOnTheLine(node: string, hook: string, agent: string, flag: string)
    requires IsSimpleName(node) && IsSimpleName(hook) && IsSimpleName(agent) && IsSimpleName(flag)
    requires node in INTERPRETERS && agent !in {node, hook}
    ensures var w, command := OneAgent(agent), node + " -R " + hook + " " + agent + " " + flag;
            w.AgentInProcessCommand(command) == Some(agent) && w.Capture(command, agent) == None
  {
    SimpleIsRecoverable(flag);
    CapitalOptionLosesFlags(node, hook, agent, [flag]);
    JoinedExample(node, hook, agent, flag);
  }

  lemma JoinedExample(node: string, hook: string, agent: string, flag: string)
    requires IsSimpleName(node) && IsSimpleName(hook) && IsSimpleName(agent) && IsSimpleName(flag)
    ensures JoinQuoted([node, "-R", hook, agent] + [flag]) == node + " -R " + hook + " " + agent + " " + flag
  {
    var argv := [node, "-R", hook, agent] + [flag];
    assert forall i | 0 <= i < |argv| :: !NeedsQuotes(argv[i]);
    assert argv[1..] == ["-R", hook, agent, flag] && argv[1..][1..] == [hook, agent, flag];
    assert argv[1..][1..][1..] == [agent, flag] && argv[1..][1..][1..][1..] == [flag];
    assert JoinQuoted([agent, flag]) == agent + " " + flag;
    assert JoinQuoted([hook, agent, flag]) == hook + " " + (agent + " " + flag);
  }

  lemma SimpleIsRecoverable(name: string)
    requires IsSimpleName(name)
    ensures Recoverable(name)
  {
  }

  lemma {:induction false} TokensOfCapitalOption(node: string, hook: string, agent: string, flags: seq<string>)
    requires IsSimpleName(node) && IsSimpleName(hook) && IsSimpleName(agent)
    requires forall i | 0 <= i < |flags| :: Recoverable(flags[i])
    ensures Tokens(JoinQuoted([node, "-R", hook, agent] + flags)) == [node, "-R", hook, agent] + flags
  {
    var argv := [node, "-R", hook, agent] + flags;
    SimpleIsRecoverable(node);
    SimpleIsRecoverable(hook);
    SimpleIsRecoverable(agent);
    assert Recoverable("-R");
    assert forall i | 4 <= i < |argv| :: argv[i] == flags[i - 4];
    TokensInvertQuotingIff(argv);
  }
}
