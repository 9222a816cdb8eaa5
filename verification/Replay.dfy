/**
  Resume commands (src/agent.rs) and the whole way of a launch flag: from the
  command line of a running agent, through capture and filtering, into the text
  typed at a shell when the pane is restored.

  Every adapter's resume template is its own plain prefix, the quoted session id
  and a carriage return, the Enter key.
*/
module Replay {
  import opened Options
  import opened ShellWords
  import opened LaunchFlags
  import opened SessionIds
  import CommandLine
  import Lowercase
  import ProcessIdentity

  const ENTER: string := "\r"

  /** `prefix` is the adapter's template; none for an agent that cannot resume. */
  function ResumeCommand(prefix: Option<string>, id: string): Option<string> {
    if !SafeSessionId(id) || prefix.None? then None else Some(prefix.value + ShellQuoted(id) + ENTER)
  }

  /** There is a resume command exactly for an agent with a template and a safe id: not
      empty, at most 256 long, nothing but ASCII letters, digits and `-_.:/`. */
  lemma {:induction false} ResumableIff(prefix: Option<string>, id: string)
    ensures ResumeCommand(prefix, id).Some? <==>
            && prefix.Some? && 0 < |id| <= 256
            && forall i | 0 <= i < |id| ::
                 'a' <= id[i] <= 'z' || 'A' <= id[i] <= 'Z' || '0' <= id[i] <= '9' || id[i] in "-_.:/"
  {
    assert forall i | 0 <= i < |id| :: id[i] in id;
    assert forall c: char :: c in "-_.:/" <==> c in {'-', '_', '.', ':', '/'};
  }

  function TrimEnter(s: string): string
    decreases |s|
  {
    if s != [] && (s[|s| - 1] == '\r' || s[|s| - 1] == '\n') then TrimEnter(s[..|s| - 1]) else s
  }

  function ResumeCommandWithFlags(l: Launcher, prefix: Option<string>, id: string, launch: seq<string>)
    : Option<string>
  {
    var base := ResumeCommand(prefix, id);
    var extra := Filter(l, launch);
    if base.None? || extra == [] then base
    else Some(TrimEnter(base.value) + " " + JoinShellQuoted(extra) + ENTER)
  }

  function ResumeFor(l: Launcher, prefix: Option<string>, id: string, launch: Option<seq<string>>, keepFlags: bool)
    : Option<string>
  {
    if launch.Some? && keepFlags then ResumeCommandWithFlags(l, prefix, id, launch.value)
    else ResumeCommand(prefix, id)
  }

  /** Flags are replayed if they were captured and the setting keeps them; otherwise the
      pane gets the plain command, as it does where no flag survives. */
  lemma {:induction false} FlagsOnlyIfKept(l: Launcher, prefix: Option<string>, id: string,
                                           launch: Option<seq<string>>, keepFlags: bool)
    ensures launch.None? || !keepFlags ==> ResumeFor(l, prefix, id, launch, keepFlags) == ResumeCommand(prefix, id)
    ensures launch.Some? && keepFlags && Filter(l, launch.value) == [] ==>
              ResumeFor(l, prefix, id, launch, keepFlags) == ResumeCommand(prefix, id)
    ensures ResumeFor(l, prefix, id, launch, keepFlags).Some? <==> ResumeCommand(prefix, id).Some?
  {
  }

  /** Every resume command ends with one Enter, so that the shell runs it. */
  lemma {:induction false} CommandsEndWithEnter(l: Launcher, prefix: string, id: string,
                                                launch: Option<seq<string>>, keepFlags: bool)
    requires ResumeFor(l, Some(prefix), id, launch, keepFlags).Some?
    ensures var command := ResumeFor(l, Some(prefix), id, launch, keepFlags).value;
            |command| > 1 && command[|command| - 1] == '\r' && command[|command| - 2] == '\''
  {
    EndsInQuote(prefix, id);
    if launch.Some? && keepFlags && Filter(l, launch.value) != [] {
      var extra := Filter(l, launch.value);
      TrimEnterStops(prefix + ShellQuoted(id));
      JoinedEndsInQuote(prefix + ShellQuoted(id) + " ", extra);
    }
  }

  /** The words the shell gets when the command is typed. */
  function TypedWords(command: string): Option<seq<string>> {
    ShellSplit(TrimEnter(command))
  }

  lemma {:induction false} TrimEnterStops(body: string)
    requires body != [] && body[|body| - 1] == '\''
    ensures TrimEnter(body + ENTER) == body
  {
    assert (body + ENTER)[..|body|] == body;
  }

  lemma EndsInQuote(before: string, s: string)
    ensures var text := before + ShellQuoted(s); text != [] && text[|text| - 1] == '\''
  {
  }

  lemma {:induction false} JoinedEndsInQuote(before: string, args: seq<string>)
    requires args != []
    ensures var text := before + JoinShellQuoted(args); text != [] && text[|text| - 1] == '\''
    decreases |args|
  {
    if |args| > 1 {
      JoinedEndsInQuote(before, args[1..]);
    }
  }

  /** The words of a plain prefix with the session id attached to its open end. */
  function ResumeWords(prefix: string, id: string): seq<string> {
    var (done, open, _) := PlainEnd(prefix, [], false);
    done + [open + id]
  }

  lemma {:induction false} PrefixedWords(prefix: string, id: string, rest: string)
    requires IsPlainText(prefix) && (rest == [] || rest[0] == ' ')
    ensures ShellSplit(prefix + ShellQuoted(id) + rest) ==
            if rest == [] then Some(ResumeWords(prefix, id)) else Before(ResumeWords(prefix, id), ShellSplit(rest[1..]))
  {
    var (done, open, now) := PlainEnd(prefix, [], false);
    assert prefix + ShellQuoted(id) + rest == prefix + (ShellQuoted(id) + rest);
    PlainEndWorks(prefix, ShellQuoted(id) + rest, [], false);
    WordsOfQuoted(id, rest, open, now);
    if rest != [] {
      assert rest == [' '] + rest[1..];
      WordsAfterBlank(rest[1..], open + id);
      var r := ShellSplit(rest[1..]);
      assert r.Some? ==> done + ([open + id] + r.value) == (done + [open + id]) + r.value;
    }
  }

  /** The plain resume command is the template's words, the last one holding the id. */
  lemma {:induction false} ResumeCommandWords(prefix: string, id: string)
    requires IsPlainText(prefix) && SafeSessionId(id)
    ensures TypedWords(ResumeCommand(Some(prefix), id).value) == Some(ResumeWords(prefix, id))
  {
    EndsInQuote(prefix, id);
    TrimEnterStops(prefix + ShellQuoted(id));
    PrefixedWords(prefix, id, []);
    assert prefix + ShellQuoted(id) + [] == prefix + ShellQuoted(id);
  }

  lemma {:induction false} FlaggedLine(body: string, extra: seq<string>)
    requires body != [] && body[|body| - 1] == '\'' && extra != []
    ensures TrimEnter(TrimEnter(body + ENTER) + " " + JoinShellQuoted(extra) + ENTER) ==
            body + ([' '] + JoinShellQuoted(extra))
  {
    TrimEnterStops(body);
    JoinedEndsInQuote(body + " ", extra);
    TrimEnterStops(body + " " + JoinShellQuoted(extra));
    assert body + " " + JoinShellQuoted(extra) == body + ([' '] + JoinShellQuoted(extra));
  }

  /** Typing the resume command gives the shell the words of the plain command and
      then every surviving launch flag, byte for byte, whatever the flags hold. */
  lemma {:induction false} FlagsAreReplayed(l: Launcher, prefix: string, id: string, launch: seq<string>)
    requires IsPlainText(prefix) && SafeSessionId(id)
    ensures ResumeCommandWithFlags(l, Some(prefix), id, launch).Some?
    ensures TypedWords(ResumeCommandWithFlags(l, Some(prefix), id, launch).value) ==
            Some(ResumeWords(prefix, id) + Filter(l, launch))
  {
    var extra := Filter(l, launch);
    if extra == [] {
      ResumeCommandWords(prefix, id);
      assert ResumeWords(prefix, id) + extra == ResumeWords(prefix, id);
    } else {
      EndsInQuote(prefix, id);
      FlaggedLine(prefix + ShellQuoted(id), extra);
      var rest := [' '] + JoinShellQuoted(extra);
      PrefixedWords(prefix, id, rest);
      assert rest[1..] == JoinShellQuoted(extra);
      SplitInvertsQuoting(extra);
    }
  }

  lemma {:induction false} TokensOfQuotedArgv(w: ProcessIdentity.Walk, argv: seq<string>)
    requires Lowercase.RespectsSyntax(w.lower)
    requires forall i | 0 <= i < |argv| :: CommandLine.Recoverable(argv[i])
    ensures var command := CommandLine.JoinQuoted(argv);
            && CommandLine.Tokens(command) == argv
            && CommandLine.Tokens(Lowercase.Lower(w.lower, command)) == Lowercase.LowerEach(w.lower, argv)
  {
    CommandLine.TokensInvertQuotingIff(argv);
    Lowercase.TokensCommuteWithLower(w.lower, CommandLine.JoinQuoted(argv));
  }

  /** Capture on a canonically quoted command line: the arguments after the token
      that identity went by, exactly as the program was given them (for Codex, passed
      through its own filter). */
  lemma {:induction false} CaptureFromArgv(w: ProcessIdentity.Walk, argv: seq<string>, found: ProcessIdentity.Found)
    requires w.IsSound() && Lowercase.RespectsSyntax(w.lower)
    requires forall i | 0 <= i < |argv| :: CommandLine.Recoverable(argv[i])
    requires w.SlotKept(argv) && w.Identify(Lowercase.LowerEach(w.lower, argv)) == Some(found)
    ensures w.Capture(CommandLine.JoinQuoted(argv), found.name) == Some(w.CapturedArgs(argv, found))
    ensures found.name != "codex" ==> w.CapturedArgs(argv, found) == w.ArgsAfter(argv, found)
  {
    TokensOfQuotedArgv(w, argv);
    w.CaptureFollowsIdentity(CommandLine.JoinQuoted(argv), found);
  }

  /** From a running command line to the restored pane: the flags behind the token
      that names the agent are captured, filtered, and arrive as they were. */
  lemma {:induction false} CaptureAndReplay(w: ProcessIdentity.Walk, argv: seq<string>, found: ProcessIdentity.Found,
                                            l: Launcher, prefix: string, id: string)
    requires w.IsSound() && Lowercase.RespectsSyntax(w.lower)
    requires forall i | 0 <= i < |argv| :: CommandLine.Recoverable(argv[i])
    requires w.SlotKept(argv) && w.Identify(Lowercase.LowerEach(w.lower, argv)) == Some(found)
    requires l.agent == found.name && IsPlainText(prefix) && SafeSessionId(id)
    ensures var captured := w.Capture(CommandLine.JoinQuoted(argv), l.agent);
            var resumed := ResumeFor(l, Some(prefix), id, captured, true);
            && captured == Some(w.CapturedArgs(argv, found))
            && resumed.Some?
            && TypedWords(resumed.value) == Some(ResumeWords(prefix, id) + Filter(l, w.CapturedArgs(argv, found)))
  {
    CaptureFromArgv(w, argv, found);
    FlagsAreReplayed(l, prefix, id, w.CapturedArgs(argv, found));
  }
}
