/**
  Feeding a clipboard helper (src/clipboard.rs): partial, non-blocking writes
  under a deadline, then waiting for its exit, and trying one helper after another.

  A helper process and the clock are the environment. What each write and each
  poll answers, and the time read at each look at the clock, are arbitrary
  functions of how often they were asked.
*/
module ClipboardWriter {
  import opened Options
  import opened ClipboardQueue

  type Byte = bv8

  datatype WriteAnswer = Wrote(n: nat) | Interrupted | WouldBlock | WriteFailed
  datatype PollAnswer = StillRunning | Exited(success: bool) | PollFailed

  datatype Error = SpawnFailed | SetupFailed | TimedOut | WriteZero | WriteError | WaitError | HelperFailed | NoHelper
  datatype Result = Ok | Err(error: Error)

  /** One helper program and the pipe to it. */
  class Helper {
    const spawns: bool
    const setsUp: bool
    const writeAnswer: nat -> WriteAnswer
    const pollAnswer: nat -> PollAnswer
    const clock: nat -> int

    var spawned: bool
    var accepted: seq<Byte>       // what the helper has read from its pipe
    var stdinOpen: bool
    var exit: PollAnswer          // the last answer about its exit
    var killed: bool
    var looks: nat                // how often the clock was read

    constructor (spawns: bool, setsUp: bool, writeAnswer: nat -> WriteAnswer, pollAnswer: nat -> PollAnswer,
                 clock: nat -> int)
      ensures Untried()
      ensures this.spawns == spawns && this.setsUp == setsUp && this.clock == clock
      ensures this.writeAnswer == writeAnswer && this.pollAnswer == pollAnswer
    {
      this.spawns, this.setsUp, this.writeAnswer, this.pollAnswer, this.clock :=
        spawns, setsUp, writeAnswer, pollAnswer, clock;
      spawned, accepted, stdinOpen, exit, killed, looks := false, [], false, StillRunning, false, 0;
    }

    predicate Untried()
      reads this
    {
      !spawned && accepted == [] && !stdinOpen && exit == StillRunning && !killed && looks == 0
    }

    /** The helper got everything, saw the end of its input and reported success. */
    predicate Confirmed(bytes: seq<Byte>)
      reads this
    {
      spawned && accepted == bytes && !stdinOpen && exit == Exited(true) && !killed
    }

    /** The attempt is over without success and leaves no process behind. */
    predicate GivenUp()
      reads this
    {
      if spawns then spawned && killed && !stdinOpen && exit != Exited(true) else Untried()
    }

    method Now() returns (time: int)
      modifies this`looks
      ensures time == clock(old(looks)) && looks == old(looks) + 1
    {
      time := clock(looks);
      looks := looks + 1;
    }

    /** At most the offered bytes are taken, from their start. */
    method Write(offered: seq<Byte>) returns (answer: WriteAnswer)
      modifies this`accepted
      ensures answer.Wrote? ==> answer.n <= |offered|
      ensures accepted == old(accepted) + if answer.Wrote? then offered[..answer.n] else []
    {
      answer := writeAnswer(looks);
      if answer.Wrote? {
        answer := Wrote(if answer.n <= |offered| then answer.n else |offered|);
        accepted := accepted + offered[..answer.n];
      }
    }

    method TryWait() returns (answer: PollAnswer)
      modifies this`exit
      ensures answer == exit == pollAnswer(looks)
    {
      answer := pollAnswer(looks);
      exit := answer;
    }
  }

  /** From look `limit` on, the clock shows at least `deadline`: a clock that never
      runs backwards and gets there. */
  ghost predicate ClockPasses(clock: nat -> int, deadline: int, limit: nat) {
    forall k: nat | limit <= k :: clock(k) >= deadline
  }

  /** The write loop: what was accepted and what remains is always the whole input. */
  method WriteAll(h: Helper, bytes: seq<Byte>, deadline: int, ghost limit: nat) returns (result: Result)
    requires h.accepted == []
    requires ClockPasses(h.clock, deadline, limit)
    modifies h`accepted, h`looks
    ensures h.accepted <= bytes
    ensures result.Ok? <==> h.accepted == bytes
    ensures h.looks >= old(h.looks)
    ensures result.Err? ==> result.error in {TimedOut, WriteZero, WriteError}
    ensures result == Err(TimedOut) ==> exists k :: old(h.looks) <= k < h.looks && h.clock(k) >= deadline
  {
    var remaining := bytes;
    while remaining != []
      invariant h.accepted + remaining == bytes
      invariant h.looks >= old(h.looks)
      decreases if h.looks <= limit then limit + 1 - h.looks else 0
    {
      ghost var k := h.looks;
      var time := h.Now();
      if time >= deadline {
        assert h.clock(k) >= deadline;
        return Err(TimedOut);
      }
      assert k < limit;
      var answer := h.Write(remaining);
      match answer {
        case Wrote(n) =>
          if n == 0 {
            return Err(WriteZero);
          }
          assert remaining == remaining[..n] + remaining[n..];
          remaining := remaining[n..];
        case Interrupted =>
        case WouldBlock =>
        case WriteFailed => return Err(WriteError);
      }
    }
    return Ok;
  }

  /** The wait loop. */
  method AwaitExit(h: Helper, deadline: int, ghost limit: nat) returns (result: Result)
    requires ClockPasses(h.clock, deadline, limit)
    modifies h`exit, h`looks
    ensures result.Ok? <==> h.exit == Exited(true)
    ensures result.Err? ==> result.error in {TimedOut, WaitError, HelperFailed}
    ensures result == Err(TimedOut) ==> exists k :: old(h.looks) <= k < h.looks && h.clock(k) >= deadline
  {
    while true
      invariant h.looks >= old(h.looks)
      decreases if h.looks <= limit then limit + 1 - h.looks else 0
    {
      var answer := h.TryWait();
      match answer {
        case Exited(success) => return if success then Ok else Err(HelperFailed);
        case PollFailed => return Err(WaitError);
        case StillRunning =>
      }
      ghost var k := h.looks;
      var time := h.Now();
      if time >= deadline {
        assert h.clock(k) >= deadline;
        return Err(TimedOut);
      }
      assert k < limit;
    }
  }

  /** One helper. Success is claimed exactly when it took every byte, its input was
      closed and it exited well; on any failure it is killed. It always returns: the
      only thing asked of the environment is that the clock passes the deadline. */
  method Run(h: Helper, bytes: seq<Byte>, timeout: int, ghost limit: nat) returns (result: Result)
    requires h.Untried()
    requires ClockPasses(h.clock, h.clock(0) + timeout, limit)
    modifies h
    ensures result.Ok? <==> h.Confirmed(bytes)
    ensures result.Err? <==> h.GivenUp()
    ensures h.accepted <= bytes
    ensures result == Err(TimedOut) ==> exists k :: 0 < k < h.looks && h.clock(k) >= h.clock(0) + timeout
  {
    if !h.spawns {
      return Err(SpawnFailed);
    }
    h.spawned := true;
    h.stdinOpen := true;
    if !h.setsUp {
      result := Err(SetupFailed);
    } else {
      var start := h.Now();
      result := WriteAll(h, bytes, start + timeout, limit);
      if result.Ok? {
        h.stdinOpen := false;
        result := AwaitExit(h, start + timeout, limit);
      }
    }
    h.stdinOpen := false;
    if result.Err? {
      h.killed := true;
    }
  }

  predicate Distinct(helpers: seq<Helper>) {
    forall i, j | 0 <= i < j < |helpers| :: helpers[i] != helpers[j]
  }

  /** Helper `k` succeeded, every earlier one was tried and given up, every later
      one was not even tried. */
  predicate FirstSuccess(helpers: seq<Helper>, bytes: seq<Byte>, k: nat)
    requires k < |helpers|
    reads set h | h in helpers
  {
    && helpers[k].Confirmed(bytes)
    && (forall j | 0 <= j < k :: helpers[j].GivenUp())
    && (forall j | k < j < |helpers| :: helpers[j].Untried())
  }

  method CopyWithTools(helpers: seq<Helper>, bytes: seq<Byte>, timeout: int, ghost limit: nat) returns (result: Result)
    requires Distinct(helpers) && forall i | 0 <= i < |helpers| :: helpers[i].Untried()
    requires forall i | 0 <= i < |helpers| :: ClockPasses(helpers[i].clock, helpers[i].clock(0) + timeout, limit)
    modifies set h | h in helpers
    ensures result.Ok? <==> exists k | 0 <= k < |helpers| :: FirstSuccess(helpers, bytes, k)
    ensures result.Err? <==> forall i | 0 <= i < |helpers| :: helpers[i].GivenUp()
    ensures helpers == [] ==> result == Err(NoHelper)
  {
    var last := NoHelper;
    var i := 0;
    while i < |helpers|
      invariant 0 <= i <= |helpers|
      invariant forall j | 0 <= j < i :: helpers[j].GivenUp()
      invariant forall j | i <= j < |helpers| :: helpers[j].Untried()
      invariant i == 0 ==> last == NoHelper
    {
      var attempt := Run(helpers[i], bytes, timeout, limit);
      if attempt.Ok? {
        assert FirstSuccess(helpers, bytes, i);
        assert !helpers[i].GivenUp();
        return Ok;
      }
      last := attempt.error;
      i := i + 1;
    }
    result := Err(last);
    assert forall k | 0 <= k < |helpers| :: !FirstSuccess(helpers, bytes, k);
  }

  /** What a request comes to: nothing is claimed without helpers. */
  method Complete(helpers: seq<Helper>, bytes: seq<Byte>, timeout: int, ghost limit: nat) returns (outcome: Outcome)
    requires Distinct(helpers) && forall i | 0 <= i < |helpers| :: helpers[i].Untried()
    requires forall i | 0 <= i < |helpers| :: ClockPasses(helpers[i].clock, helpers[i].clock(0) + timeout, limit)
    modifies set h | h in helpers
    ensures outcome.NoHelpers? <==> helpers == []
    ensures outcome.Succeeded? <==> exists k | 0 <= k < |helpers| :: FirstSuccess(helpers, bytes, k)
    ensures outcome.Failed? ==> forall i | 0 <= i < |helpers| :: helpers[i].GivenUp()
  {
    if helpers == [] {
      return NoHelpers;
    }
    var result := CopyWithTools(helpers, bytes, timeout, limit);
    outcome := if result.Ok? then Succeeded else Failed;
  }

  /** One round of the worker's loop: it takes the pending request and completes it.
      The success callback runs exactly when the request carries one and some helper
      took every byte of this request's text, saw the end of its input and exited
      well; a failure is reported exactly when there were helpers and none did. */
  method Serve(service: ClipboardService, utf8: string -> seq<Byte>, helpers: seq<Helper>, timeout: int,
               ghost limit: nat)
      returns (outcome: Outcome, confirmed: bool)
    requires service.Valid() && service.slot.Some? && service.inHand.None?
    requires Distinct(helpers) && forall i | 0 <= i < |helpers| :: helpers[i].Untried()
    requires forall i | 0 <= i < |helpers| :: ClockPasses(helpers[i].clock, helpers[i].clock(0) + timeout, limit)
    modifies service, set h | h in helpers
    ensures service.Valid() && service.history == Next(Next(old(service.history), Take), Finish(outcome))
    ensures service.slot == None && service.inHand == None
    ensures var bytes := utf8(old(service.slot).value.text);
            && (outcome.Succeeded? <==> exists k | 0 <= k < |helpers| :: FirstSuccess(helpers, bytes, k))
            && (outcome.NoHelpers? <==> helpers == [])
            && (outcome.Failed? ==> forall i | 0 <= i < |helpers| :: helpers[i].GivenUp())
    ensures confirmed <==> outcome.Succeeded? && old(service.slot).value.confirms
    ensures if outcome.Failed?
            then Notifies(old(service.attachments), service.attachments, old(service.slot).value.attachment)
            else service.attachments == old(service.attachments)
  {
    var request := service.slot.value;
    var taken := service.TakePending();
    outcome := Complete(helpers, utf8(request.text), timeout, limit);
    label completed:
    confirmed := service.CompleteRequest(outcome);
    forall k | 0 <= k < |helpers|
      ensures FirstSuccess(helpers, utf8(request.text), k) ==
              old@completed(FirstSuccess(helpers, utf8(request.text), k))
      ensures helpers[k].GivenUp() == old@completed(helpers[k].GivenUp())
    {
      assert unchanged@completed(set h | h in helpers);
    }
  }
}
