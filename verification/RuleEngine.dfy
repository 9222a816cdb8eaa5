/**
  The screen-state rules (src/detect.rs): each looks at one region, holds under
  its conditions, and has a priority. The engine is the same for any rule list;
  the list is built-in rules, then managed ones, then the user's.
*/
module RuleEngine {
  import opened Options
  import opened Text

  datatype State = Working | Blocked | Idle | Done | Unknown

  datatype Region = Title | Screen

  datatype Cond =
    | Any(subs: seq<string>)
    | All(subs: seq<string>)
    | Not(subs: seq<string>)
    | StartsWith(prefixes: seq<string>)
    | Spinner
    | SpinnerAfterPrefix(prefixes: seq<string>)
    | LastLine(subs: seq<string>)
    | LastTwoLines(subs: seq<string>)
  {
    predicate Holds(low: string) {
      match this
      case Any(subs) => OccursAny(subs, low)
      case All(subs) => forall i | 0 <= i < |subs| :: Occurs(subs[i], low)
      case Not(subs) => !OccursAny(subs, low)
      case StartsWith(prefixes) => exists i | 0 <= i < |prefixes| :: prefixes[i] <= low
      case Spinner => exists i | 0 <= i < |Lines(low)| :: StartsWithSpinner(TrimStart(Lines(low)[i]))
      case SpinnerAfterPrefix(prefixes) =>
        exists i, j | 0 <= i < |Lines(low)| && 0 <= j < |prefixes| ::
          var line := TrimStart(Lines(low)[i]);
          prefixes[j] <= line && StartsWithSpinner(line[|prefixes[j]|..])
      case LastLine(subs) =>
        var shown := NonBlank(Lines(low));
        shown != [] && OccursAny(subs, shown[|shown| - 1])
      case LastTwoLines(subs) =>
        var shown := NonBlank(Lines(low));
        exists i | |shown| - 2 <= i < |shown| && 0 <= i :: OccursAny(subs, shown[i])
    }
  }

  function NonBlank(lines: seq<string>): seq<string> {
    if lines == [] then [] else (if Trim(lines[0]) == [] then [] else [lines[0]]) + NonBlank(lines[1..])
  }

  /** Braille cells except the blank one, moon phases, half circles. */
  predicate IsSpinnerGlyph(c: char) {
    '\U{2801}' <= c <= '\U{28FF}' || '\U{1F311}' <= c <= '\U{1F318}' || '\U{25D0}' <= c <= '\U{25D3}'
  }

  predicate StartsWithSpinner(s: string) {
    s != [] && IsSpinnerGlyph(s[0])
  }

  /** `agent` empty means every agent. */
  datatype Rule = Rule(agent: string, state: State, priority: int, region: Region, conds: seq<Cond>)

  datatype Regions = Regions(screen: string, title: string) {
    function Get(region: Region): string {
      match region case Title => title case Screen => screen
    }
  }

  /** Codex decorates its composer with braille dots, so there a screen spinner
      needs a character outside the braille block on its line. */
  predicate CondHolds(c: Cond, agent: string, region: Region, text: string) {
    if c.Spinner? && agent == "codex" && region.Screen? then
      exists i | 0 <= i < |Lines(text)| ::
        && c.Holds(Lines(text)[i])
        && exists ch | ch in Lines(text)[i] :: !IsWhitespace(ch) && !('\U{2800}' <= ch <= '\U{28FF}')
    else
      c.Holds(text)
  }

  predicate Applies(r: Rule, agent: string, regions: Regions, skipScreenBlocked: bool) {
    && (r.agent == "" || r.agent == agent)
    && !(skipScreenBlocked && r.state.Blocked? && r.region.Screen?)
    && forall i | 0 <= i < |r.conds| :: CondHolds(r.conds[i], agent, r.region, regions.Get(r.region))
  }

  type Applicability = Rule -> bool

  function ApplicableTo(agent: string, regions: Regions, skipScreenBlocked: bool): Applicability {
    (r: Rule) => Applies(r, agent, regions, skipScreenBlocked)
  }

  /** Rule `i` applies and no other outranks it, where a later one of the same
      priority does. */
  predicate WinsAt(rules: seq<Rule>, applies: Applicability, i: nat)
    requires i < |rules|
  {
    && applies(rules[i])
    && forall j | 0 <= j < |rules| && applies(rules[j]) ::
         if j > i then rules[j].priority < rules[i].priority else rules[j].priority <= rules[i].priority
  }

  predicate NoneApplies(rules: seq<Rule>, applies: Applicability) {
    forall i | 0 <= i < |rules| :: !applies(rules[i])
  }

  datatype RuleMatch = RuleMatch(state: State, priority: int, region: Region)

  function MatchOf(r: Rule): RuleMatch {
    RuleMatch(r.state, r.priority, r.region)
  }

  /** The verdict of a rule list: no rule applies, or the winner's. */
  predicate IsVerdict(rules: seq<Rule>, applies: Applicability, verdict: Option<RuleMatch>) {
    if verdict.None? then NoneApplies(rules, applies)
    else exists i | 0 <= i < |rules| :: WinsAt(rules, applies, i) && verdict.value == MatchOf(rules[i])
  }

  method EvaluateFiltered(rules: seq<Rule>, agent: string, regions: Regions, skipScreenBlocked: bool)
      returns (best: Option<RuleMatch>)
    ensures IsVerdict(rules, ApplicableTo(agent, regions, skipScreenBlocked), best)
    ensures best == Evaluate(rules, ApplicableTo(agent, regions, skipScreenBlocked))
  {
    var applies := ApplicableTo(agent, regions, skipScreenBlocked);
    best := None;
    for n := 0 to |rules|
      invariant best == Evaluate(rules[..n], applies)
    {
      var r := rules[n];
      assert rules[..n + 1][..n] == rules[..n];
      if applies(r) && (best.None? || r.priority >= best.value.priority) {
        best := Some(MatchOf(r));
      }
    }
    assert rules[..|rules|] == rules;
    EvaluateIsVerdict(rules, applies);
  }

  function Evaluate(rules: seq<Rule>, applies: Applicability): Option<RuleMatch> {
    if rules == [] then None
    else
      var r := rules[|rules| - 1];
      var best := Evaluate(rules[..|rules| - 1], applies);
      if applies(r) && (best.None? || r.priority >= best.value.priority) then Some(MatchOf(r)) else best
  }

  lemma {:induction false} EvaluateIsVerdict(rules: seq<Rule>, applies: Applicability)
    ensures IsVerdict(rules, applies, Evaluate(rules, applies))
    decreases |rules|
  {
    if rules != [] {
      var front, last := rules[..|rules| - 1], |rules| - 1;
      EvaluateIsVerdict(front, applies);
      var best := Evaluate(front, applies);
      if best.Some? {
        var i :| 0 <= i < |front| && WinsAt(front, applies, i) && best.value == MatchOf(front[i]);
        assert forall j | 0 <= j < last :: front[j] == rules[j];
        if applies(rules[last]) && rules[last].priority >= best.value.priority {
          assert WinsAt(rules, applies, last);
        } else {
          assert WinsAt(rules, applies, i);
        }
      } else if applies(rules[last]) {
        assert forall j | 0 <= j < last :: front[j] == rules[j];
        assert WinsAt(rules, applies, last);
      } else {
        assert forall j | 0 <= j < last :: front[j] == rules[j];
      }
    }
  }

  /** The verdict of a rule list is unique. */
  lemma {:induction false} VerdictIsUnique(rules: seq<Rule>, applies: Applicability, verdict: Option<RuleMatch>)
    requires IsVerdict(rules, applies, verdict)
    ensures verdict == Evaluate(rules, applies)
  {
    EvaluateIsVerdict(rules, applies);
    var ours := Evaluate(rules, applies);
    if ours.Some? && verdict.Some? {
      var i :| 0 <= i < |rules| && WinsAt(rules, applies, i) && ours.value == MatchOf(rules[i]);
      var j :| 0 <= j < |rules| && WinsAt(rules, applies, j) && verdict.value == MatchOf(rules[j]);
      assert i == j;
    }
  }

  /** The higher priority, the second of two equal ones. */
  function RightBiasedMax(a: Option<RuleMatch>, b: Option<RuleMatch>): Option<RuleMatch> {
    if a.None? then b
    else if b.None? then a
    else if b.value.priority >= a.value.priority then b
    else a
  }

  /** Evaluating two lists in a row is the right-biased maximum of evaluating each. */
  lemma {:induction false} EvaluateAppend(a: seq<Rule>, b: seq<Rule>, applies: Applicability)
    ensures Evaluate(a + b, applies) == RightBiasedMax(Evaluate(a, applies), Evaluate(b, applies))
    decreases |b|
  {
    if b == [] {
      assert a + b == a;
    } else {
      var last := |b| - 1;
      assert (a + b)[..|a + b| - 1] == a + b[..last];
      EvaluateAppend(a, b[..last], applies);
    }
  }

  /** No applicable rule of the list has a higher priority. */
  predicate NoneOutranks(rules: seq<Rule>, applies: Applicability, priority: int) {
    forall i | 0 <= i < |rules| && applies(rules[i]) :: rules[i].priority <= priority
  }

  /** The loaded list: a user's rule beats the managed and built-in ones that apply
      exactly unless one of them has a higher priority. */
  lemma {:induction false} LoadedPrecedence(builtin: seq<Rule>, managed: seq<Rule>, user: seq<Rule>,
                                            applies: Applicability)
    ensures Evaluate(builtin + managed + user, applies) ==
            RightBiasedMax(Evaluate(builtin, applies),
                           RightBiasedMax(Evaluate(managed, applies), Evaluate(user, applies)))
    ensures Evaluate(builtin + managed + user, applies).None? ==> Evaluate(user, applies).None?
    ensures Evaluate(user, applies).Some? ==>
              var ours := Evaluate(user, applies).value;
              (if NoneOutranks(builtin, applies, ours.priority) && NoneOutranks(managed, applies, ours.priority)
               then Evaluate(builtin + managed + user, applies) == Some(ours)
               else Evaluate(builtin + managed + user, applies).value.priority > ours.priority)
  {
    EvaluateAppend(builtin + managed, user, applies);
    EvaluateAppend(builtin, managed, applies);
    EvaluateIsVerdict(builtin, applies);
    EvaluateIsVerdict(managed, applies);
    EvaluateIsVerdict(user, applies);
  }
}
