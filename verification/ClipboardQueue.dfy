/**
  The clipboard worker (src/clipboard.rs): one lazily started thread, one pending
  request that a newer one replaces, and a completion slot for each attachment
  that can be retired while work for it is still under way.

  A step is what happens under one lock, so callers, the worker and the display
  owner interleave freely between steps. Starting a thread and the helpers'
  outcomes are the environment's choice. Requests are told apart by the order in
  which they reached the pending slot.
*/
module ClipboardQueue {
  import opened Options

  const FAILED: string := "clipboard failed"

  datatype Request = Request(text: string, attachment: nat, confirms: bool)

  /** One attachment's completion slot. */
  datatype Attachment = Attachment(open: bool, message: Option<string>) {
    function Publish(text: string): Attachment {
      if open then this.(message := Some(text)) else this
    }

    function Collected(): Attachment {
      this.(message := None)
    }

    function Closed(): Attachment {
      Attachment(false, None)
    }
  }

  /** The completion object itself, its state behind a lock. */
  class Completion {
    var state: Attachment
    const wakes: bool

    constructor (wakes: bool)
      ensures state == Attachment(true, None) && this.wakes == wakes
    {
      state := Attachment(true, None);
      this.wakes := wakes;
    }

    method Take() returns (message: Option<string>)
      modifies this
      ensures message == old(state.message) && state == old(state).Collected() == Attachment(old(state.open), None)
    {
      message := state.message;
      state := state.(message := None);
    }

    method Close()
      modifies this
      ensures state == old(state).Closed() == Attachment(false, None)
    {
      state := Attachment(false, None);
    }

    /** A retired attachment is neither written to nor woken. */
    method Publish(message: string) returns (woken: bool)
      modifies this
      ensures state == old(state).Publish(message)
      ensures state == if old(state.open) then Attachment(true, Some(message)) else old(state)
      ensures woken <==> old(state.open) && wakes
    {
      if !state.open {
        return false;
      }
      state := state.(message := Some(message));
      woken := wakes;
    }
  }

  datatype Outcome = NoHelpers | Succeeded | Failed

  datatype Step =
    | Start(caller: nat, request: Request, spawned: bool)  // a caller asks for the worker
    | Put(caller: nat)                                     // that caller fills the pending slot
    | Take                                                 // the worker empties it
    | Finish(outcome: Outcome)                             // and is done with the helpers
    | Collect(attachment: nat)
    | Close(attachment: nat)

  /** The shared state, with the history needed to speak about whole runs. */
  datatype Queue = Queue(
    started: bool,
    threads: nat,
    callers: map<nat, Request>,
    submitted: seq<Request>,
    pending: Option<nat>,
    busy: Option<nat>,
    processed: seq<nat>,
    outcomes: seq<Outcome>,
    replaced: set<nat>,
    confirmed: seq<nat>,
    attachments: map<nat, Attachment>)
  {
    function AttachmentOf(a: nat): Attachment {
      if a in attachments then attachments[a] else Attachment(true, None)
    }

    function WithFailure(a: nat): Queue {
      this.(attachments := attachments[a := AttachmentOf(a).Publish(FAILED)])
    }
  }

  const INITIAL: Queue := Queue(false, 0, map[], [], None, None, [], [], {}, [], map[])

  /** A step that is not possible in a state changes nothing. */
  function Next(q: Queue, step: Step): Queue {
    match step
    case Start(caller, request, spawned) =>
      if caller in q.callers then q
      else if q.started then q.(callers := q.callers[caller := request])
      else if spawned then q.(started := true, threads := q.threads + 1, callers := q.callers[caller := request])
      else q.WithFailure(request.attachment)
    case Put(caller) =>
      if caller !in q.callers then q
      else q.(callers := q.callers - {caller},
              submitted := q.submitted + [q.callers[caller]],
              replaced := if q.pending.Some? then q.replaced + {q.pending.value} else q.replaced,
              pending := Some(|q.submitted|))
    case Take =>
      if q.pending.None? || q.busy.Some? then q else q.(pending := None, busy := q.pending)
    case Finish(outcome) =>
      if q.busy.None? || q.busy.value >= |q.submitted| then q
      else
        var request := q.submitted[q.busy.value];
        var done := q.(busy := None, processed := q.processed + [q.busy.value], outcomes := q.outcomes + [outcome]);
        (match outcome
         case NoHelpers => done
         case Succeeded => if request.confirms then done.(confirmed := q.confirmed + [q.busy.value]) else done
         case Failed => done.WithFailure(request.attachment))
    case Collect(a) =>
      q.(attachments := q.attachments[a := q.AttachmentOf(a).Collected()])
    case Close(a) =>
      q.(attachments := q.attachments[a := q.AttachmentOf(a).Closed()])
  }

  function Run(q: Queue, steps: seq<Step>): Queue {
    if steps == [] then q else Next(Run(q, steps[..|steps| - 1]), steps[|steps| - 1])
  }

  // ---- what every step keeps ----

  predicate Ascending(s: seq<nat>) {
    forall i, j | 0 <= i < j < |s| :: s[i] < s[j]
  }

  predicate InHand(q: Queue, i: nat) {
    q.pending == Some(i) || q.busy == Some(i)
  }

  /** The requests whose success callback has run, read off the outcomes. */
  function Confirmations(submitted: seq<Request>, processed: seq<nat>, outcomes: seq<Outcome>): seq<nat>
    requires |processed| == |outcomes| && forall i | 0 <= i < |processed| :: processed[i] < |submitted|
  {
    if processed == [] then []
    else
      var last := |processed| - 1;
      Confirmations(submitted, processed[..last], outcomes[..last]) +
      if outcomes[last].Succeeded? && submitted[processed[last]].confirms then [processed[last]] else []
  }

  predicate OneWorker(q: Queue) {
    && q.threads == (if q.started then 1 else 0)
    && (!q.started ==> q.callers == map[] && q.submitted == [])
  }

  /** Requests move from the slot to the worker to the processed list in order. */
  predicate InOrder(q: Queue) {
    && (q.pending.Some? ==> q.pending.value + 1 == |q.submitted|)
    && (q.busy.Some? ==> q.busy.value < if q.pending.Some? then q.pending.value else |q.submitted|)
    && Ascending(q.processed)
    && |q.outcomes| == |q.processed|
    && forall i | 0 <= i < |q.processed| ::
          q.processed[i] <
          if q.busy.Some? then q.busy.value else if q.pending.Some? then q.pending.value else |q.submitted|
  }

  /** Every request is in exactly one place, and only a newer request displaces one. */
  predicate Accounted(q: Queue) {
    && (forall i | 0 <= i < |q.submitted| :: InHand(q, i) || i in q.processed || i in q.replaced)
    && (forall i | i in q.replaced :: i + 1 < |q.submitted| && i !in q.processed && !InHand(q, i))
    && |q.submitted| ==
       |q.processed| + |q.replaced| + (if q.pending.Some? then 1 else 0) + (if q.busy.Some? then 1 else 0)
  }

  predicate Inv(q: Queue) {
    && OneWorker(q) && InOrder(q) && Accounted(q)
    && q.confirmed == Confirmations(q.submitted, q.processed, q.outcomes)
  }

  lemma {:induction false} MoreSubmitted(submitted: seq<Request>, more: seq<Request>,
                                         processed: seq<nat>, outcomes: seq<Outcome>)
    requires |processed| == |outcomes| && forall i | 0 <= i < |processed| :: processed[i] < |submitted|
    ensures Confirmations(submitted + more, processed, outcomes) == Confirmations(submitted, processed, outcomes)
    decreases |processed|
  {
    if processed != [] {
      MoreSubmitted(submitted, more, processed[..|processed| - 1], outcomes[..|outcomes| - 1]);
    }
  }

  lemma {:induction false} StepKeepsOneWorker(q: Queue, step: Step)
    requires Inv(q)
    ensures OneWorker(Next(q, step))
  {
  }

  lemma AscendingAppend(s: seq<nat>, x: nat, bound: nat)
    requires Ascending(s) && (forall i | 0 <= i < |s| :: s[i] < x) && x < bound
    ensures Ascending(s + [x]) && forall i | 0 <= i < |s + [x]| :: (s + [x])[i] < bound
  {
  }

  lemma {:induction false} FinishKeepsOrder(q: Queue, outcome: Outcome)
    requires InOrder(q) && q.busy.Some?
    ensures InOrder(Next(q, Finish(outcome)))
  {
    var r := Next(q, Finish(outcome));
    var bound := if q.pending.Some? then q.pending.value else |q.submitted|;
    assert q.busy.value < bound;
    AscendingAppend(q.processed, q.busy.value, bound);
    assert r.processed == q.processed + [q.busy.value] && |r.outcomes| == |q.outcomes| + 1;
    assert r.pending == q.pending && r.submitted == q.submitted && r.busy.None?;
  }

  lemma {:induction false} StepKeepsOrder(q: Queue, step: Step)
    requires InOrder(q)
    ensures InOrder(Next(q, step))
  {
    match step
    case Finish(outcome) =>
      if q.busy.Some? {
        FinishKeepsOrder(q, outcome);
      }
    case Put(_) =>
    case Take =>
    case _ =>
      var r := Next(q, step);
      assert r.submitted == q.submitted && r.pending == q.pending && r.busy == q.busy;
      assert r.processed == q.processed && r.outcomes == q.outcomes;
  }

  lemma {:induction false} PutKeepsAccount(q: Queue, caller: nat)
    requires Inv(q) && caller in q.callers
    ensures Accounted(Next(q, Put(caller)))
  {
    var r := Next(q, Put(caller));
    if q.pending.Some? {
      assert q.pending.value !in q.replaced;
      assert r.replaced == q.replaced + {q.pending.value};
      forall k | 0 <= k < |q.processed| ensures q.processed[k] != q.pending.value {
      }
    }
    forall i | 0 <= i < |r.submitted| ensures InHand(r, i) || i in r.processed || i in r.replaced {
      if i < |q.submitted| {
        assert InHand(q, i) || i in q.processed || i in q.replaced;
      }
    }
  }

  lemma {:induction false} FinishKeepsAccount(q: Queue, outcome: Outcome)
    requires Inv(q) && q.busy.Some?
    ensures Accounted(Next(q, Finish(outcome)))
  {
    var r := Next(q, Finish(outcome));
    assert r.processed == q.processed + [q.busy.value] && r.replaced == q.replaced && r.pending == q.pending;
    assert q.busy.value !in q.replaced by {
      assert InHand(q, q.busy.value);
    }
    forall i | 0 <= i < |r.submitted| ensures InHand(r, i) || i in r.processed || i in r.replaced {
      assert InHand(q, i) || i in q.processed || i in q.replaced;
    }
  }

  lemma {:induction false} TakeKeepsAccount(q: Queue)
    requires Inv(q)
    ensures Accounted(Next(q, Take))
  {
    var r := Next(q, Take);
    forall i ensures InHand(r, i) == InHand(q, i) {
    }
  }

  lemma {:induction false} StepKeepsAccount(q: Queue, step: Step)
    requires Inv(q)
    ensures Accounted(Next(q, step))
  {
    match step
    case Put(caller) =>
      if caller in q.callers {
        PutKeepsAccount(q, caller);
      }
    case Take => TakeKeepsAccount(q);
    case Finish(outcome) =>
      if q.busy.Some? {
        FinishKeepsAccount(q, outcome);
      }
    case _ =>
      var r := Next(q, step);
      assert forall i :: InHand(r, i) == InHand(q, i);
  }

  lemma {:induction false} FinishKeepsConfirmations(q: Queue, outcome: Outcome)
    requires Inv(q) && q.busy.Some?
    ensures var r := Next(q, Finish(outcome));
            && |r.processed| == |r.outcomes| && (forall k | 0 <= k < |r.processed| :: r.processed[k] < |r.submitted|)
            && r.confirmed == Confirmations(r.submitted, r.processed, r.outcomes)
  {
    var r := Next(q, Finish(outcome));
    var last := |q.processed|;
    assert r.processed[..last] == q.processed && r.outcomes[..last] == q.outcomes;
    assert r.processed[last] == q.busy.value && r.outcomes[last] == outcome;
  }

  lemma {:induction false} StepKeepsConfirmations(q: Queue, step: Step)
    requires Inv(q)
    requires InOrder(Next(q, step))
    ensures var r := Next(q, step); r.confirmed == Confirmations(r.submitted, r.processed, r.outcomes)
  {
    var r := Next(q, step);
    match step
    case Put(caller) =>
      if caller in q.callers {
        MoreSubmitted(q.submitted, [q.callers[caller]], q.processed, q.outcomes);
      }
    case Finish(outcome) =>
      if q.busy.Some? {
        FinishKeepsConfirmations(q, outcome);
      }
    case _ =>
      assert r.submitted == q.submitted && r.processed == q.processed && r.outcomes == q.outcomes;
  }

  lemma {:induction false} StepKeepsInv(q: Queue, step: Step)
    requires Inv(q)
    ensures Inv(Next(q, step))
  {
    StepKeepsOneWorker(q, step);
    StepKeepsOrder(q, step);
    StepKeepsAccount(q, step);
    StepKeepsConfirmations(q, step);
  }

  lemma {:induction false} RunKeepsInv(steps: seq<Step>)
    ensures Inv(Run(INITIAL, steps))
    decreases |steps|
  {
    if steps != [] {
      RunKeepsInv(steps[..|steps| - 1]);
      StepKeepsInv(Run(INITIAL, steps[..|steps| - 1]), steps[|steps| - 1]);
    }
  }

  // ---- every run ----

  /** Over every run: at most one thread is ever started; what is processed is a
      part of what was submitted, in that order and nothing twice; and no request
      is lost except by a newer one. */
  lemma {:induction false} EveryRun(steps: seq<Step>)
    ensures var q := Run(INITIAL, steps);
            && q.threads <= 1
            && Ascending(q.processed)
            && (forall i | 0 <= i < |q.processed| :: q.processed[i] < |q.submitted|)
            && (forall i | 0 <= i < |q.submitted| && i !in q.processed && !InHand(q, i) :: i + 1 < |q.submitted|)
            && |q.submitted| == |q.processed| + |q.replaced| +
                                (if q.pending.Some? then 1 else 0) + (if q.busy.Some? then 1 else 0)
  {
    RunKeepsInv(steps);
  }

  /** When nothing is pending and the worker idles, the last request was processed. */
  lemma {:induction false} IdleMeansLatestProcessed(steps: seq<Step>)
    requires Run(INITIAL, steps).pending.None? && Run(INITIAL, steps).busy.None?
    requires Run(INITIAL, steps).submitted != []
    ensures var q := Run(INITIAL, steps);
            q.processed != [] && q.processed[|q.processed| - 1] == |q.submitted| - 1
  {
    RunKeepsInv(steps);
    var q := Run(INITIAL, steps);
    var latest := |q.submitted| - 1;
    assert latest !in q.replaced;
    assert latest in q.processed;
  }

  /** Entry `k` was processed with success and carries a callback. */
  predicate IsConfirmedAt(submitted: seq<Request>, processed: seq<nat>, outcomes: seq<Outcome>, k: nat)
    requires k < |processed| == |outcomes| && processed[k] < |submitted|
  {
    outcomes[k].Succeeded? && submitted[processed[k]].confirms
  }

  predicate IsConfirmed(submitted: seq<Request>, processed: seq<nat>, outcomes: seq<Outcome>, request: nat)
    requires |processed| == |outcomes| && forall k | 0 <= k < |processed| :: processed[k] < |submitted|
  {
    exists k | 0 <= k < |processed| :: processed[k] == request && IsConfirmedAt(submitted, processed, outcomes, k)
  }

  lemma {:induction false} ConfirmedByOneMore(submitted: seq<Request>, processed: seq<nat>, outcomes: seq<Outcome>,
                                              last: nat, outcome: Outcome, request: nat)
    requires |processed| == |outcomes| && forall k | 0 <= k < |processed| :: processed[k] < |submitted|
    requires last < |submitted|
    ensures IsConfirmed(submitted, processed + [last], outcomes + [outcome], request) <==>
            IsConfirmed(submitted, processed, outcomes, request) ||
            (last == request && outcome.Succeeded? && submitted[last].confirms)
  {
    var n, p, o := |processed|, processed + [last], outcomes + [outcome];
    assert forall k | 0 <= k < n :: p[k] == processed[k] && o[k] == outcomes[k];
    assert forall k | 0 <= k < n ::
        IsConfirmedAt(submitted, p, o, k) == IsConfirmedAt(submitted, processed, outcomes, k);
    assert p[n] == last && o[n] == outcome;
  }

  lemma {:induction false} ConfirmedIff(submitted: seq<Request>, processed: seq<nat>, outcomes: seq<Outcome>,
                                        request: nat)
    requires |processed| == |outcomes| && forall k | 0 <= k < |processed| :: processed[k] < |submitted|
    ensures request in Confirmations(submitted, processed, outcomes) <==>
            IsConfirmed(submitted, processed, outcomes, request)
    decreases |processed|
  {
    if processed != [] {
      var n := |processed| - 1;
      ConfirmedIff(submitted, processed[..n], outcomes[..n], request);
      ConfirmedByOneMore(submitted, processed[..n], outcomes[..n], processed[n], outcomes[n], request);
      assert processed[..n] + [processed[n]] == processed && outcomes[..n] + [outcomes[n]] == outcomes;
    }
  }

  lemma {:induction false} ConfirmationsAscend(submitted: seq<Request>, processed: seq<nat>, outcomes: seq<Outcome>)
    requires |processed| == |outcomes| && forall k | 0 <= k < |processed| :: processed[k] < |submitted|
    requires Ascending(processed)
    ensures var confirmed := Confirmations(submitted, processed, outcomes);
            Ascending(confirmed) && forall a | 0 <= a < |confirmed| :: confirmed[a] in processed
    decreases |processed|
  {
    if processed != [] {
      var last := |processed| - 1;
      ConfirmationsAscend(submitted, processed[..last], outcomes[..last]);
      assert processed == processed[..last] + [processed[last]];
    }
  }

  /** Success callbacks run in order and never twice, exactly for the processed
      requests that carry one and whose helper succeeded. */
  lemma {:induction false} CallbacksFollowSuccess(steps: seq<Step>)
    ensures var q := Run(INITIAL, steps);
            && |q.outcomes| == |q.processed| && (forall k | 0 <= k < |q.processed| :: q.processed[k] < |q.submitted|)
            && Ascending(q.confirmed)
            && forall i: nat :: i in q.confirmed <==> IsConfirmed(q.submitted, q.processed, q.outcomes, i)
  {
    RunKeepsInv(steps);
    var q := Run(INITIAL, steps);
    ConfirmationsAscend(q.submitted, q.processed, q.outcomes);
    forall i: nat ensures i in q.confirmed <==> IsConfirmed(q.submitted, q.processed, q.outcomes, i) {
      ConfirmedIff(q.submitted, q.processed, q.outcomes, i);
    }
  }

  /** A failed start is reported and leaves nothing behind, so it can be retried. */
  lemma {:induction false} FailedStartCanBeRetried(steps: seq<Step>, caller: nat, request: Request, again: Request)
    requires !Run(INITIAL, steps).started
    ensures var failed := Run(INITIAL, steps + [Start(caller, request, false)]);
            && failed == Run(INITIAL, steps).WithFailure(request.attachment)
            && Next(failed, Start(caller, again, true)).started
            && Next(failed, Start(caller, again, true)).threads == 1
            && Next(failed, Start(caller, again, true)).callers == map[caller := again]
  {
    RunKeepsInv(steps);
    var more := steps + [Start(caller, request, false)];
    assert more[..|more| - 1] == steps;
  }

  // ---- what attachments are told ----

  /** One attachment's slot; one nothing was done to yet is open and empty. */
  function SlotOf(attachments: map<nat, Attachment>, a: nat): Attachment {
    if a in attachments then attachments[a] else Attachment(true, None)
  }

  /** The attachment is told of a failure unless it is closed, and no other is told anything. */
  ghost predicate Notifies(before: map<nat, Attachment>, after: map<nat, Attachment>, a: nat) {
    forall b: nat :: SlotOf(after, b) ==
      if b == a && SlotOf(before, b).open then Attachment(true, Some(FAILED)) else SlotOf(before, b)
  }

  lemma PublishNotifies(attachments: map<nat, Attachment>, a: nat)
    ensures Notifies(attachments, attachments[a := SlotOf(attachments, a).Publish(FAILED)], a)
  {
  }

  /** A failure is reported to the request's own attachment, after a failed start as after
      failed helpers. Nothing else that requests go through tells anybody anything. */
  lemma {:induction false} StepTells(q: Queue, step: Step)
    ensures step.Finish? && q.busy.Some? && q.busy.value < |q.submitted| && step.outcome.Failed? ==>
              Notifies(q.attachments, Next(q, step).attachments, q.submitted[q.busy.value].attachment)
    ensures step.Finish? && !step.outcome.Failed? ==> Next(q, step).attachments == q.attachments
    ensures step.Start? && step.caller !in q.callers && !q.started && !step.spawned ==>
              Notifies(q.attachments, Next(q, step).attachments, step.request.attachment)
    ensures step.Start? && (q.started || step.spawned) ==> Next(q, step).attachments == q.attachments
    ensures step.Put? || step.Take? ==> Next(q, step).attachments == q.attachments
  {
  }

  /** Collecting and closing concern one slot: the message goes, and closing closes. */
  lemma {:induction false} SlotStepTells(q: Queue, a: nat, b: nat)
    ensures SlotOf(Next(q, Collect(a)).attachments, b) ==
            if b == a then Attachment(SlotOf(q.attachments, a).open, None) else SlotOf(q.attachments, b)
    ensures SlotOf(Next(q, Close(a)).attachments, b) ==
            if b == a then Attachment(false, None) else SlotOf(q.attachments, b)
  {
  }

  lemma {:induction false} StepKeepsFailure(q: Queue, step: Step, a: nat)
    requires SlotOf(q.attachments, a) == Attachment(true, Some(FAILED))
    requires step != Collect(a) && step != Close(a)
    ensures SlotOf(Next(q, step).attachments, a) == Attachment(true, Some(FAILED))
  {
  }

  lemma {:induction false} FailureWaits(q: Queue, a: nat, later: seq<Step>)
    requires SlotOf(q.attachments, a) == Attachment(true, Some(FAILED))
    requires Collect(a) !in later && Close(a) !in later
    ensures SlotOf(Run(q, later).attachments, a) == Attachment(true, Some(FAILED))
    decreases |later|
  {
    if later != [] {
      var last := |later| - 1;
      assert forall step | step in later[..last] :: step in later;
      FailureWaits(q, a, later[..last]);
      assert later[last] in later;
      StepKeepsFailure(Run(q, later[..last]), later[last], a);
    }
  }

  /** Over every run: where the helpers fail a request whose attachment is open, the
      attachment is told, and stays told until it collects the message or is closed. */
  lemma {:induction false} FailureIsTold(steps: seq<Step>, later: seq<Step>)
    requires Run(INITIAL, steps).busy.Some?
    ensures var q := Run(INITIAL, steps);
            && q.busy.value < |q.submitted|
            && var a := q.submitted[q.busy.value].attachment;
               SlotOf(q.attachments, a).open && Collect(a) !in later && Close(a) !in later ==>
               SlotOf(Run(Next(q, Finish(Failed)), later).attachments, a) == Attachment(true, Some(FAILED))
  {
    RunKeepsInv(steps);
    var q := Run(INITIAL, steps);
    var a := q.submitted[q.busy.value].attachment;
    StepTells(q, Finish(Failed));
    if SlotOf(q.attachments, a).open && Collect(a) !in later && Close(a) !in later {
      FailureWaits(Next(q, Finish(Failed)), a, later);
    }
  }

  lemma {:induction false} SilentStep(q: Queue, step: Step, a: nat)
    requires q.AttachmentOf(a) == Attachment(false, None)
    ensures Next(q, step).AttachmentOf(a) == Attachment(false, None)
  {
  }

  /** After an attachment is closed nothing is ever shown to it, whatever was still
      pending for it. */
  lemma {:induction false} ClosedStaysSilent(q: Queue, a: nat, later: seq<Step>)
    ensures Run(Next(q, Close(a)), later).AttachmentOf(a) == Attachment(false, None)
    decreases |later|
  {
    if later != [] {
      ClosedStaysSilent(q, a, later[..|later| - 1]);
      SilentStep(Run(Next(q, Close(a)), later[..|later| - 1]), later[|later| - 1], a);
    }
  }

  // ---- the service ----

  /** The static worker slot, the queue behind it and the worker's hands. The
      history is there to say which step each method is. */
  class ClipboardService {
    var running: bool
    var slot: Option<Request>
    var inHand: Option<Request>
    var waiting: map<nat, Request>
    var attachments: map<nat, Attachment>
    ghost var history: Queue

    ghost predicate Valid()
      reads this
    {
      && Inv(history)
      && running == history.started
      && waiting == history.callers
      && attachments == history.attachments
      && slot == RequestAt(history, history.pending)
      && inHand == RequestAt(history, history.busy)
    }

    constructor ()
      ensures Valid() && history == INITIAL
    {
      running, slot, inHand, waiting, attachments := false, None, None, map[], map[];
      history := INITIAL;
    }

    /** The worker to hand a request to: the running one, or a new thread. */
    method Worker(caller: nat, request: Request, spawned: bool) returns (ok: bool)
      requires Valid() && caller !in waiting
      modifies this
      ensures Valid() && history == Next(old(history), Start(caller, request, spawned))
      ensures ok <==> old(running) || spawned
      ensures slot == old(slot) && inHand == old(inHand) && running == ok
      ensures waiting == if ok then old(waiting)[caller := request] else old(waiting)
      ensures if ok then attachments == old(attachments)
              else Notifies(old(attachments), attachments, request.attachment)
    {
      StepKeepsInv(history, Start(caller, request, spawned));
      ghost var after := Next(history, Start(caller, request, spawned));
      ok := running || spawned;
      if ok {
        running := true;
        waiting := waiting[caller := request];
      } else {
        Report(request.attachment);
      }
      history := after;
    }

    /** Replaces whatever is pending. */
    method Submit(caller: nat)
      requires Valid() && caller in waiting
      modifies this
      ensures Valid() && history == Next(old(history), Put(caller))
      ensures slot == Some(old(waiting)[caller]) && inHand == old(inHand)
      ensures waiting == old(waiting) - {caller} && attachments == old(attachments)
    {
      StepKeepsInv(history, Put(caller));
      slot := Some(waiting[caller]);
      waiting := waiting - {caller};
      history := Next(history, Put(caller));
    }

    /** The worker's loop head: waits for a request, then takes it. */
    method TakePending() returns (taken: bool)
      requires Valid()
      modifies this
      ensures Valid() && history == Next(old(history), Take)
      ensures taken <==> old(slot).Some? && old(inHand).None?
      ensures taken ==> slot == None && inHand == old(slot)
      ensures !taken ==> slot == old(slot) && inHand == old(inHand)
      ensures waiting == old(waiting) && attachments == old(attachments)
    {
      StepKeepsInv(history, Take);
      taken := slot.Some? && inHand.None?;
      if taken {
        slot, inHand := None, slot;
      }
      history := Next(history, Take);
    }

    /** Without helpers nothing is claimed; success confirms, failure reports. */
    method CompleteRequest(outcome: Outcome) returns (confirmed: bool)
      requires Valid() && inHand.Some?
      modifies this
      ensures Valid() && history == Next(old(history), Finish(outcome))
      ensures confirmed <==> outcome.Succeeded? && old(inHand).value.confirms
      ensures inHand == None && slot == old(slot) && waiting == old(waiting)
      ensures if outcome.Failed? then Notifies(old(attachments), attachments, old(inHand).value.attachment)
              else attachments == old(attachments)
    {
      StepKeepsInv(history, Finish(outcome));
      ghost var after := Next(history, Finish(outcome));
      assert after.pending == history.pending && after.busy == None && after.submitted == history.submitted;
      var request := inHand.value;
      confirmed := false;
      match outcome {
        case NoHelpers =>
        case Succeeded => confirmed := request.confirms;
        case Failed => Report(request.attachment);
      }
      inHand := None;
      history := after;
    }

    method Report(a: nat)
      modifies this`attachments
      ensures attachments == old(attachments)[a := SlotOf(old(attachments), a).Publish(FAILED)]
      ensures Notifies(old(attachments), attachments, a)
    {
      PublishNotifies(attachments, a);
      var current := if a in attachments then attachments[a] else Attachment(true, None);
      attachments := attachments[a := current.Publish(FAILED)];
    }
  }

  ghost function RequestAt(q: Queue, i: Option<nat>): Option<Request> {
    if i.Some? && i.value < |q.submitted| then Some(q.submitted[i.value]) else None
  }
}
