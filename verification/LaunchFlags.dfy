/**
  Which launch flags survive into a resume command (`filter_launch_flags` in
  src/agent.rs). The loop carries an index over a running position; its result
  turns out to depend, for each token, only on the token, the one before it and
  whether an end marker came earlier (`KeptAt`).
*/
module LaunchFlags {
  import opened Text

  /** The agent whose session is resumed. `isLetta` is the registry's answer,
      which also knows aliases; the other agents are compared by name. Codex's filter
      is another file's code and comes as a function. */
  datatype Launcher = Launcher(agent: string, isLetta: bool, codexResumeFlags: seq<string> -> seq<string>)

  const TAKES_VALUE: set<string> := {"--resume", "-r", "--session", "--session-id", "--fork"}
  const STANDALONE: set<string> := {"--continue", "--fork-session", "--print", "-p"}
  const LETTA_TAKES_VALUE: set<string> := {"--conversation", "--conv", "-C", "--agent", "-a", "--name", "-n"}
  const LETTA_STANDALONE: set<string> := {"--resume", "-r", "--new", "--new-agent", "--default"}

  /** The part of a token before its first `=`. */
  function Head(t: string): string {
    if t == [] || t[0] == '=' then [] else [t[0]] + Head(t[1..])
  }

  datatype Fate = Keep | Drop | DropWithValue | End

  /** The tests of one round of the loop, in order. */
  function FateOf(l: Launcher, t: string): Fate {
    var head := Head(t);
    if l.isLetta && head in LETTA_TAKES_VALUE then
      if '=' in t then Drop else DropWithValue
    else if l.isLetta && head in LETTA_STANDALONE then Drop
    else if l.agent == "antigravity" && (head == "--conversation" || head == "-c") then
      if head == "--conversation" && '=' !in t then DropWithValue else Drop
    else if l.agent == "hermes" && (head == "--continue" || head == "-c") then
      if '=' in t then Drop else DropWithValue
    else if l.agent == "devin" && t == "--" then End
    else if '=' in t && head in TAKES_VALUE then Drop
    else if t in TAKES_VALUE then DropWithValue
    else if t in STANDALONE then Drop
    else Keep
  }

  /** Muse selects its session by a leading subcommand. */
  function FirstIndex(l: Launcher, launch: seq<string>): (i: nat)
    ensures i <= |launch|
  {
    if l.agent == "muse" && launch != [] && launch[0] == "resume" then
      if |launch| > 1 && !StartsWithDash(launch[1]) then 2 else 1
    else 0
  }

  function AfterValue(launch: seq<string>, i: nat): (next: nat)
    requires i <= |launch|
    ensures i <= next <= |launch|
  {
    if i < |launch| && !StartsWithDash(launch[i]) then i + 1 else i
  }

  /** How each token is treated; the loop and what it keeps depend on nothing else. */
  type Treatment = string -> Fate

  function TreatmentOf(l: Launcher): Treatment {
    (t: string) => FateOf(l, t)
  }

  function FilterFrom(fate: Treatment, launch: seq<string>, i: nat): seq<string>
    requires i <= |launch|
    decreases |launch| - i
  {
    if i == |launch| then []
    else match fate(launch[i])
      case Keep => [launch[i]] + FilterFrom(fate, launch, i + 1)
      case Drop => FilterFrom(fate, launch, i + 1)
      case DropWithValue => FilterFrom(fate, launch, AfterValue(launch, i + 1))
      case End => []
  }

  function Filter(l: Launcher, launch: seq<string>): seq<string> {
    if l.agent == "codex" then l.codexResumeFlags(launch)
    else FilterFrom(TreatmentOf(l), launch, FirstIndex(l, launch))
  }

  /** The loop of the source; Codex's flags are delegated. */
  method FilterLaunchFlags(l: Launcher, launch: seq<string>) returns (out: seq<string>)
    ensures out == Filter(l, launch)
    ensures l.agent == "codex" ==> out == l.codexResumeFlags(launch)
  {
    if l.agent == "codex" {
      return l.codexResumeFlags(launch);
    }
    var i := FirstIndex(l, launch);
    out := [];
    while i < |launch|
      invariant i <= |launch|
      invariant Filter(l, launch) == out + FilterFrom(TreatmentOf(l), launch, i)
      decreases |launch| - i
    {
      var t := launch[i];
      var head := Head(t);
      if l.isLetta && head in LETTA_TAKES_VALUE {
        i := if '=' in t then i + 1 else AfterValue(launch, i + 1);
      } else if l.isLetta && head in LETTA_STANDALONE {
        i := i + 1;
      } else if l.agent == "antigravity" && (head == "--conversation" || head == "-c") {
        i := if head == "--conversation" && '=' !in t then AfterValue(launch, i + 1) else i + 1;
      } else if l.agent == "hermes" && (head == "--continue" || head == "-c") {
        i := if '=' in t then i + 1 else AfterValue(launch, i + 1);
      } else if l.agent == "devin" && t == "--" {
        break;
      } else if '=' in t && head in TAKES_VALUE {
        i := i + 1;
      } else if t in TAKES_VALUE {
        i := AfterValue(launch, i + 1);
      } else if t in STANDALONE {
        i := i + 1;
      } else {
        out := out + [t];
        i := i + 1;
      }
    }
  }

  // ---- what survives ----

  /** A token that would choose a session beside the one being restored. */
  predicate IsSessionSelector(l: Launcher, t: string) {
    || Head(t) in TAKES_VALUE
    || t in STANDALONE
    || (l.isLetta && (Head(t) in LETTA_TAKES_VALUE || Head(t) in LETTA_STANDALONE))
    || (l.agent == "antigravity" && (Head(t) == "--conversation" || Head(t) == "-c"))
    || (l.agent == "hermes" && (Head(t) == "--continue" || Head(t) == "-c"))
  }

  /** A selector that takes the word behind it as its value. */
  predicate TakesNextWord(l: Launcher, t: string) {
    || (l.isLetta && t in LETTA_TAKES_VALUE)
    || (l.agent == "antigravity" && t == "--conversation")
    || (l.agent == "hermes" && (t == "--continue" || t == "-c"))
    || (t in TAKES_VALUE && !(l.isLetta && t in LETTA_STANDALONE))
  }

  /** Devin reads everything after this token as a prompt. */
  predicate IsEndMarker(l: Launcher, t: string) {
    l.agent == "devin" && t == "--"
  }

  lemma {:induction false} HeadWithoutEquals(t: string)
    ensures '=' !in t <==> Head(t) == t
    ensures |Head(t)| <= |t| && forall i | 0 <= i < |Head(t)| :: Head(t)[i] == t[i]
    decreases |t|
  {
    if t != [] && t[0] != '=' {
      HeadWithoutEquals(t[1..]);
      assert t == [t[0]] + t[1..];
    }
  }

  lemma SelectorsStartWithDash(s: string)
    requires s in TAKES_VALUE || s in STANDALONE || s in LETTA_TAKES_VALUE || s in LETTA_STANDALONE ||
             s == "--conversation" || s == "-c" || s == "--continue"
    ensures StartsWithDash(s)
  {
  }

  predicate IsValueTaker(s: string) {
    s in TAKES_VALUE || s in LETTA_TAKES_VALUE || s == "--conversation" || s == "--continue" || s == "-c"
  }

  lemma SelectorsHoldNoEquals(s: string)
    requires IsValueTaker(s) || s in STANDALONE || s == "--"
    ensures '=' !in s
  {
  }

  lemma {:induction false} SelectorIsFlag(l: Launcher, t: string)
    requires IsSessionSelector(l, t)
    ensures StartsWithDash(t)
  {
    HeadWithoutEquals(t);
    if t in STANDALONE {
      SelectorsStartWithDash(t);
    } else {
      SelectorsStartWithDash(Head(t));
      assert t[0] == Head(t)[0];
    }
  }

  lemma {:induction false} FateMeans(l: Launcher, t: string)
    ensures FateOf(l, t).End? ==> l.agent == "devin" && t == "--"
    ensures FateOf(l, t).Drop? || FateOf(l, t).DropWithValue? ==> IsSessionSelector(l, t)
    ensures FateOf(l, t).Keep? ==> !IsSessionSelector(l, t) && !IsEndMarker(l, t)
    ensures FateOf(l, t).End? <==> IsEndMarker(l, t)
    ensures !FateOf(l, t).Keep? ==> StartsWithDash(t)
  {
    HeadWithoutEquals(t);
    if t in TAKES_VALUE || t in STANDALONE || t == "--" {
      SelectorsHoldNoEquals(t);
    }
    if IsSessionSelector(l, t) {
      SelectorIsFlag(l, t);
    }
  }

  lemma {:induction false} GluedValueIsNoTaker(l: Launcher, t: string)
    requires '=' in t
    ensures !TakesNextWord(l, t)
  {
    if IsValueTaker(t) {
      SelectorsHoldNoEquals(t);
    }
  }

  lemma {:induction false} GluedDropsAlone(l: Launcher, t: string)
    requires '=' in t
    ensures !FateOf(l, t).DropWithValue?
  {
    if t in TAKES_VALUE {
      SelectorsHoldNoEquals(t);
    }
  }

  lemma ContinueIsNoTaker(t: string)
    requires t == "--continue" || t == "-c"
    ensures t !in TAKES_VALUE && t !in LETTA_STANDALONE && t !in LETTA_TAKES_VALUE
    ensures t != "--conversation" && t != "--"
  {
  }

  lemma ConversationIsNoTaker(t: string)
    requires t == "--conversation"
    ensures t !in TAKES_VALUE && t !in LETTA_STANDALONE && t in LETTA_TAKES_VALUE
    ensures t != "--continue" && t != "-c" && t != "--"
  {
  }

  lemma EndMarkerIsNoTaker(t: string)
    requires t == "--"
    ensures !IsValueTaker(t) && t !in STANDALONE
  {
  }

  /** In no table of value takers, `--continue` and `-c` are Hermes's own. */
  lemma {:induction false} ContinueMeans(l: Launcher, t: string)
    requires Head(t) == t && '=' !in t
    requires t !in TAKES_VALUE && t !in LETTA_STANDALONE && t !in LETTA_TAKES_VALUE
    requires t != "--conversation" && t != "--"
    ensures FateOf(l, t).DropWithValue? <==> l.agent == "hermes" && (t == "--continue" || t == "-c")
  {
  }

  lemma {:induction false} ConversationMeans(l: Launcher, t: string)
    requires Head(t) == t && '=' !in t
    requires t !in TAKES_VALUE && t !in LETTA_STANDALONE && t in LETTA_TAKES_VALUE
    requires t != "--continue" && t != "-c" && t != "--"
    ensures FateOf(l, t).DropWithValue? <==> l.isLetta || (l.agent == "antigravity" && t == "--conversation")
  {
  }

  lemma {:induction false} NamedSelectorMeans(l: Launcher, t: string)
    requires Head(t) == t && '=' !in t && (t == "--continue" || t == "-c" || t == "--conversation")
    ensures FateOf(l, t).DropWithValue? <==> TakesNextWord(l, t)
  {
    if t == "--conversation" {
      ConversationIsNoTaker(t);
      ConversationMeans(l, t);
    } else {
      ContinueIsNoTaker(t);
      ContinueMeans(l, t);
    }
  }

  lemma {:induction false} OtherSelectorMeans(l: Launcher, t: string)
    requires Head(t) == t && '=' !in t && t != "--continue" && t != "-c" && t != "--conversation"
    ensures FateOf(l, t).DropWithValue? <==> TakesNextWord(l, t)
  {
    if t == "--" {
      EndMarkerIsNoTaker(t);
    }
  }

  /** A selector with no value glued to it. */
  lemma {:induction false} BareValueMeans(l: Launcher, t: string)
    requires Head(t) == t && '=' !in t
    ensures FateOf(l, t).DropWithValue? <==> TakesNextWord(l, t)
  {
    if t == "--continue" || t == "-c" || t == "--conversation" {
      NamedSelectorMeans(l, t);
    } else {
      OtherSelectorMeans(l, t);
    }
  }

  lemma {:induction false} ValueMeans(l: Launcher, t: string)
    ensures FateOf(l, t).DropWithValue? <==> TakesNextWord(l, t)
  {
    HeadWithoutEquals(t);
    if '=' in t {
      GluedValueIsNoTaker(l, t);
      GluedDropsAlone(l, t);
    } else {
      BareValueMeans(l, t);
    }
  }

  /** The token is dropped as the value of the selector before it. */
  predicate IsSelectorValue(fate: Treatment, launch: seq<string>, i: nat)
    requires i < |launch|
  {
    i > 0 && fate(launch[i - 1]).DropWithValue? && !StartsWithDash(launch[i])
  }

  /** Whether token `i` survives a loop entered at `start`, told without running it. */
  predicate KeptAt(fate: Treatment, start: nat, launch: seq<string>, i: nat)
    requires i < |launch|
  {
    && i >= start
    && fate(launch[i]).Keep?
    && !IsSelectorValue(fate, launch, i)
    && forall j | start <= j < i :: !fate(launch[j]).End?
  }

  /** The surviving tokens from `i` on, in their order. */
  function KeptFrom(fate: Treatment, start: nat, launch: seq<string>, i: nat): seq<string>
    requires i <= |launch|
    decreases |launch| - i
  {
    if i == |launch| then []
    else (if KeptAt(fate, start, launch, i) then [launch[i]] else []) + KeptFrom(fate, start, launch, i + 1)
  }

  /** Every token that is not simply kept is a flag. */
  ghost predicate DropsOnlyFlags(fate: Treatment) {
    forall t: string :: !fate(t).Keep? ==> StartsWithDash(t)
  }

  lemma {:induction false} NothingKept(fate: Treatment, start: nat, launch: seq<string>, i: nat)
    requires i <= |launch| && forall j | i <= j < |launch| :: !KeptAt(fate, start, launch, j)
    ensures KeptFrom(fate, start, launch, i) == []
    decreases |launch| - i
  {
    if i < |launch| {
      NothingKept(fate, start, launch, i + 1);
    }
  }

  lemma {:induction false} LoopKeeps(fate: Treatment, start: nat, launch: seq<string>, i: nat)
    requires DropsOnlyFlags(fate) && start <= i <= |launch|
    requires i < |launch| ==> !IsSelectorValue(fate, launch, i)
    requires forall j | start <= j < i :: !fate(launch[j]).End?
    ensures FilterFrom(fate, launch, i) == KeptFrom(fate, start, launch, i)
    decreases |launch| - i
  {
    if i < |launch| {
      match fate(launch[i])
      case Keep => LoopKeeps(fate, start, launch, i + 1);
      case Drop => LoopKeeps(fate, start, launch, i + 1);
      case DropWithValue =>
        if i + 1 < |launch| && !StartsWithDash(launch[i + 1]) {
          LoopKeeps(fate, start, launch, i + 2);
          assert !KeptAt(fate, start, launch, i + 1);
        } else {
          LoopKeeps(fate, start, launch, i + 1);
        }
      case End => NothingKept(fate, start, launch, i);
    }
  }

  lemma {:induction false} SkippedPrefix(fate: Treatment, start: nat, launch: seq<string>, i: nat)
    requires i <= start <= |launch|
    ensures KeptFrom(fate, start, launch, i) == KeptFrom(fate, start, launch, start)
    decreases start - i
  {
    if i < start {
      SkippedPrefix(fate, start, launch, i + 1);
    }
  }

  /** Token `i` survives the loop. */
  predicate Survives(l: Launcher, launch: seq<string>, i: nat)
    requires i < |launch|
  {
    KeptAt(TreatmentOf(l), FirstIndex(l, launch), launch, i)
  }

  lemma {:induction false} SelectorsAreFlags(l: Launcher)
    ensures DropsOnlyFlags(TreatmentOf(l))
  {
    forall t: string ensures !TreatmentOf(l)(t).Keep? ==> StartsWithDash(t) {
      FateMeans(l, t);
    }
  }

  /** The loop keeps exactly the tokens that survive on their own account, in order. */
  lemma {:induction false} FilterIsKept(l: Launcher, launch: seq<string>)
    requires l.agent != "codex"
    ensures Filter(l, launch) == KeptFrom(TreatmentOf(l), FirstIndex(l, launch), launch, 0)
  {
    var start := FirstIndex(l, launch);
    SelectorsAreFlags(l);
    if 0 < start < |launch| {
      FateMeans(l, launch[start - 1]);
      ResumeIsNoFlag();
    }
    LoopKeeps(TreatmentOf(l), start, launch, start);
    SkippedPrefix(TreatmentOf(l), start, launch, 0);
  }

  lemma ResumeIsNoFlag()
    ensures !StartsWithDash("resume")
  {
  }

  lemma {:induction false} KeptTokens(fate: Treatment, start: nat, launch: seq<string>, i: nat, t: string)
    requires i <= |launch| && t in KeptFrom(fate, start, launch, i)
    ensures exists j | i <= j < |launch| :: launch[j] == t && KeptAt(fate, start, launch, j)
    decreases |launch| - i
  {
    if !(KeptAt(fate, start, launch, i) && launch[i] == t) {
      KeptTokens(fate, start, launch, i + 1, t);
    }
  }

  /** No selector and no end marker survives. */
  lemma {:induction false} NoSelectorSurvives(l: Launcher, launch: seq<string>, t: string)
    requires l.agent != "codex" && t in Filter(l, launch)
    ensures !IsSessionSelector(l, t) && !IsEndMarker(l, t) && FateOf(l, t).Keep?
  {
    FilterIsKept(l, launch);
    KeptTokens(TreatmentOf(l), FirstIndex(l, launch), launch, 0, t);
    FateMeans(l, t);
  }

  /** Muse's leading `resume`, with the session behind it. */
  predicate IsMuseSelector(l: Launcher, launch: seq<string>, i: nat)
    requires i < |launch|
  {
    l.agent == "muse" && launch[0] == "resume" && (i == 0 || (i == 1 && !StartsWithDash(launch[1])))
  }

  /** Exactly which tokens survive, in terms of the agent's selectors alone. */
  lemma {:induction false} SurvivesIff(l: Launcher, launch: seq<string>, i: nat)
    requires i < |launch|
    ensures Survives(l, launch, i) <==>
            && !IsMuseSelector(l, launch, i)
            && !IsSessionSelector(l, launch[i])
            && !(i > 0 && TakesNextWord(l, launch[i - 1]) && !StartsWithDash(launch[i]))
            && (forall j | 0 <= j <= i :: !IsEndMarker(l, launch[j]))
  {
    forall j | 0 <= j <= i
      ensures FateOf(l, launch[j]).End? <==> IsEndMarker(l, launch[j])
      ensures FateOf(l, launch[j]).DropWithValue? <==> TakesNextWord(l, launch[j])
      ensures FateOf(l, launch[j]).Keep? <==> !IsSessionSelector(l, launch[j]) && !IsEndMarker(l, launch[j])
    {
      FateMeans(l, launch[j]);
      ValueMeans(l, launch[j]);
    }
  }

  /** A dropped token that is no flag was the value of a selector, part of Muse's
      leading `resume`, or stood behind Devin's `--`. */
  lemma {:induction false} DroppedWordsHaveAReason(l: Launcher, launch: seq<string>, i: nat)
    requires i < |launch| && !Survives(l, launch, i) && !StartsWithDash(launch[i])
    ensures || (i > 0 && TakesNextWord(l, launch[i - 1]) && !Survives(l, launch, i - 1))
            || (l.agent == "muse" && launch[0] == "resume" && i < 2)
            || (l.agent == "devin" && exists j | 0 <= j < i :: launch[j] == "--")
  {
    FateMeans(l, launch[i]);
    if i > 0 {
      FateMeans(l, launch[i - 1]);
      ValueMeans(l, launch[i - 1]);
    }
    if j :| FirstIndex(l, launch) <= j < i && FateOf(l, launch[j]).End? {
      FateMeans(l, launch[j]);
    }
  }

  lemma {:induction false} AllKept(fate: Treatment, start: nat, launch: seq<string>, i: nat)
    requires start <= i <= |launch|
    requires forall j | 0 <= j < |launch| :: fate(launch[j]).Keep?
    ensures KeptFrom(fate, start, launch, i) == launch[i..]
    decreases |launch| - i
  {
    if i < |launch| {
      AllKept(fate, start, launch, i + 1);
    }
  }

  /** Places in ascending order, from `from` on and below `bound`. */
  predicate AreAscending(places: seq<nat>, from: nat, bound: nat) {
    && (forall i, j | 0 <= i < j < |places| :: places[i] < places[j])
    && forall i | 0 <= i < |places| :: from <= places[i] < bound
  }

  /** The tokens at these places. */
  function TokensAt(launch: seq<string>, places: seq<nat>): seq<string>
    requires forall k | 0 <= k < |places| :: places[k] < |launch|
  {
    seq(|places|, k requires 0 <= k < |places| => launch[places[k]])
  }

  lemma OnePlaceMore(launch: seq<string>, places: seq<nat>, i: nat)
    requires i < |launch| && AreAscending(places, i + 1, |launch|)
    ensures AreAscending([i] + places, i, |launch|)
    ensures TokensAt(launch, [i] + places) == [launch[i]] + TokensAt(launch, places)
  {
  }

  lemma {:induction false} KeptPlaces(fate: Treatment, start: nat, launch: seq<string>, i: nat)
      returns (places: seq<nat>)
    requires i <= |launch|
    ensures AreAscending(places, i, |launch|)
    ensures KeptFrom(fate, start, launch, i) == TokensAt(launch, places)
    ensures forall j | i <= j < |launch| :: KeptAt(fate, start, launch, j) <==> j in places
    decreases |launch| - i
  {
    if i == |launch| {
      places := [];
    } else {
      var later := KeptPlaces(fate, start, launch, i + 1);
      places := later;
      if KeptAt(fate, start, launch, i) {
        OnePlaceMore(launch, later, i);
        places := [i] + later;
      } else {
        assert KeptFrom(fate, start, launch, i) == [] + KeptFrom(fate, start, launch, i + 1);
      }
    }
  }

  /** What is replayed is the tokens that survive, each once and in their order. */
  lemma {:induction false} FilterPlaces(l: Launcher, launch: seq<string>) returns (places: seq<nat>)
    requires l.agent != "codex"
    ensures AreAscending(places, 0, |launch|) && Filter(l, launch) == TokensAt(launch, places)
    ensures forall j | 0 <= j < |launch| :: Survives(l, launch, j) <==> j in places
  {
    FilterIsKept(l, launch);
    places := KeptPlaces(TreatmentOf(l), FirstIndex(l, launch), launch, 0);
  }

  /** The first token to survive is the word `resume`. */
  predicate ResumeSurvivesFirst(l: Launcher, launch: seq<string>) {
    exists i | 0 <= i < |launch| ::
      Survives(l, launch, i) && launch[i] == "resume" && forall j | 0 <= j < i :: !Survives(l, launch, j)
  }

  lemma {:induction false} FirstKept(fate: Treatment, start: nat, launch: seq<string>, i: nat) returns (k: nat)
    requires i <= |launch| && KeptFrom(fate, start, launch, i) != []
    ensures i <= k < |launch| && KeptAt(fate, start, launch, k)
    ensures KeptFrom(fate, start, launch, i)[0] == launch[k]
    ensures forall j | i <= j < k :: !KeptAt(fate, start, launch, j)
    decreases |launch| - i
  {
    if KeptAt(fate, start, launch, i) {
      k := i;
    } else {
      k := FirstKept(fate, start, launch, i + 1);
    }
  }

  lemma {:induction false} ResumeIsFirstKept(l: Launcher, launch: seq<string>)
    requires l.agent != "codex"
    ensures ResumeSurvivesFirst(l, launch) <==> Filter(l, launch) != [] && Filter(l, launch)[0] == "resume"
  {
    var fate, start := TreatmentOf(l), FirstIndex(l, launch);
    FilterIsKept(l, launch);
    if Filter(l, launch) == [] {
      forall i | 0 <= i < |launch| ensures !Survives(l, launch, i) {
        NoneKept(fate, start, launch, 0, i);
      }
    } else {
      var k := FirstKept(fate, start, launch, 0);
      assert Survives(l, launch, k) && forall j | 0 <= j < k :: !Survives(l, launch, j);
    }
  }

  lemma {:induction false} NoneKept(fate: Treatment, start: nat, launch: seq<string>, i: nat, k: nat)
    requires i <= k < |launch| && KeptFrom(fate, start, launch, i) == []
    ensures !KeptAt(fate, start, launch, k)
    decreases k - i
  {
    if i < k {
      NoneKept(fate, start, launch, i + 1, k);
    }
  }

  /** Filtering again only reads a leading `resume` of Muse afresh; so a second pass
      changes something exactly when that is the first token to survive. */
  lemma {:induction false} FilterTwice(l: Launcher, launch: seq<string>)
    requires l.agent != "codex"
    ensures var once := Filter(l, launch);
            && Filter(l, once) == once[FirstIndex(l, once)..]
            && (Filter(l, once) == once <==> !(l.agent == "muse" && ResumeSurvivesFirst(l, launch)))
  {
    var once := Filter(l, launch);
    forall j | 0 <= j < |once| ensures FateOf(l, once[j]).Keep? {
      NoSelectorSurvives(l, launch, once[j]);
    }
    FilterIsKept(l, once);
    SkippedPrefix(TreatmentOf(l), FirstIndex(l, once), once, 0);
    AllKept(TreatmentOf(l), FirstIndex(l, once), once, FirstIndex(l, once));
    ResumeIsFirstKept(l, launch);
  }

  lemma MuseResumesTwice(l: Launcher)
    requires l.agent == "muse" && !l.isLetta
    ensures Filter(l, ["resume", "a", "resume", "b"]) == ["resume", "b"]
    ensures Filter(l, Filter(l, ["resume", "a", "resume", "b"])) == []
  {
    FateMeans(l, "resume");
    FateMeans(l, "b");
    ResumeIsNoFlag();
    assert FilterFrom(TreatmentOf(l), ["resume", "b"], 2) == [];
  }
}
