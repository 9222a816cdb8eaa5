/**
  The receipt that keeps a migration from being repeated (`worker` in
  scripts/migrate_from_herdr.py): one destination directory, any number of worker
  processes, any interleaving of their file operations, and a crash at any point.

  The receipt is created with exclusive creation, so creating it is one atomic
  step; writing its text is another, and a crash in between leaves a torn file.
  The owner's server may create its files at any time.
*/
module ImportReceipts {
  import opened Options

  datatype Phase = Plain | Incomplete | Complete

  datatype Marker = Absent | Torn | Receipt(identity: string, phase: Phase)

  /** Where a worker process stands. Its snapshot's panes are delivered by a session
      file for a new owner, or by calls to a running one. */
  datatype Stage =
    | Planned                // will install a session file
    | Prepared               // has made the directory for it
    | Installed              // has written it
    | InstallMarked          // and created the receipt
    | ToAppend               // will append to a running owner
    | AppendMarked           // has created the receipt
    | AppendWritten          // and written it as incomplete
    | Appending              // has started the calls
    | Rewriting              // has emptied the receipt to mark it complete
    | Stopped                // done, refused, failed or crashed

  datatype Process = Process(identity: string, stage: Stage)

  /** The destination's files; `ownerFiles` are the process file and the socket. */
  datatype Files = Files(directory: bool, sessionFile: bool, ownerFiles: bool, marker: Marker)

  /** How often a session file was written, appending was started and a receipt was
      created, and by whom last. */
  datatype Tally = Tally(installs: nat, installer: Option<nat>, appends: nat, appender: Option<nat>,
                         creations: nat, creator: Option<nat>)

  datatype World = World(isDefault: bool, files: Files, tally: Tally, processes: map<nat, Process>)

  datatype Step =
    | Inspect(p: nat, identity: string)  // a new process reads the destination
    | Advance(p: nat)                    // it does its next file operation
    | Crash(p: nat)
    | OwnerStarts                        // a server of this name writes its files
    | OwnerSaves                         // and its own session file

  /** What a process decides on reading the destination. */
  function Decision(isDefault: bool, files: Files): Stage {
    match files.marker
    case Torn => Stopped
    case Receipt(_, _) => Stopped  // refused or already imported: nothing to deliver
    case Absent =>
      if isDefault then
        if files.sessionFile || files.ownerFiles then ToAppend else Planned
      else if files.directory then Stopped
      else Planned
  }

  datatype Effect = Effect(files: Files, tally: Tally, stage: Stage)

  /** Exclusive creation of the receipt. */
  function CreateMarker(files: Files, tally: Tally, p: nat, next: Stage): Effect {
    if files.marker != Absent then Effect(files, tally, Stopped)
    else Effect(files.(marker := Torn), tally.(creations := tally.creations + 1, creator := Some(p)), next)
  }

  /** The next file operation of process `p`. */
  function Operation(isDefault: bool, files: Files, tally: Tally, p: nat, process: Process): Effect {
    match process.stage
    case Planned =>
      // The directory of a named destination must be new.
      if !isDefault && files.directory then Effect(files, tally, Stopped)
      else Effect(files.(directory := true), tally, Prepared)
    case Prepared =>
      // The session file is created exclusively.
      if files.sessionFile then Effect(files, tally, Stopped)
      else Effect(files.(sessionFile := true), tally.(installs := tally.installs + 1, installer := Some(p)), Installed)
    case Installed => CreateMarker(files, tally, p, InstallMarked)
    case InstallMarked => Effect(files.(marker := Receipt(process.identity, Plain)), tally, Stopped)
    case ToAppend => CreateMarker(files, tally, p, AppendMarked)
    case AppendMarked => Effect(files.(marker := Receipt(process.identity, Incomplete)), tally, AppendWritten)
    case AppendWritten => Effect(files, tally.(appends := tally.appends + 1, appender := Some(p)), Appending)
    case Appending => Effect(files.(marker := Torn), tally, Rewriting)
    case Rewriting => Effect(files.(marker := Receipt(process.identity, Complete)), tally, Stopped)
    case Stopped => Effect(files, tally, Stopped)
  }

  function Next(w: World, step: Step): World {
    match step
    case OwnerStarts => w.(files := w.files.(directory := true, ownerFiles := true))
    case OwnerSaves => w.(files := w.files.(directory := true, sessionFile := true))
    case Inspect(p, identity) =>
      if p in w.processes then w
      else w.(processes := w.processes[p := Process(identity, Decision(w.isDefault, w.files))])
    case Crash(p) =>
      if p !in w.processes then w
      else w.(processes := w.processes[p := Process(w.processes[p].identity, Stopped)])
    case Advance(p) =>
      if p !in w.processes then w
      else
        var effect := Operation(w.isDefault, w.files, w.tally, p, w.processes[p]);
        World(w.isDefault, effect.files, effect.tally,
              w.processes[p := Process(w.processes[p].identity, effect.stage)])
  }

  /** Any destination without a receipt, before the first worker. */
  predicate IsInitial(w: World) {
    w.files.marker == Absent && w.processes == map[] && w.tally == Tally(0, None, 0, None, 0, None)
  }

  function Run(w: World, steps: seq<Step>): World {
    if steps == [] then w else Next(Run(w, steps[..|steps| - 1]), steps[|steps| - 1])
  }

  // ---- what every step keeps ----

  predicate OwnsReceipt(stage: Stage) {
    stage.InstallMarked? || stage.AppendMarked? || stage.AppendWritten? || stage.Appending? || stage.Rewriting?
  }

  predicate HasInstalled(stage: Stage) {
    stage.Installed? || stage.InstallMarked?
  }

  predicate IsAppender(stage: Stage) {
    stage.ToAppend? || stage.AppendMarked? || stage.AppendWritten? || stage.Appending? || stage.Rewriting?
  }

  predicate OnceEach(isDefault: bool, files: Files, tally: Tally) {
    && tally.creations == (if files.marker == Absent then 0 else 1) == (if tally.creator.Some? then 1 else 0)
    && tally.installs == (if tally.installer.Some? then 1 else 0) && (tally.installs > 0 ==> files.sessionFile)
    && tally.appends == (if tally.appender.Some? then 1 else 0)
    && (tally.appender.Some? ==> isDefault && tally.appender == tally.creator && tally.appender != tally.installer)
  }

  predicate InPlace(isDefault: bool, tally: Tally, p: nat, stage: Stage) {
    && (OwnsReceipt(stage) ==> tally.creator == Some(p))
    && (HasInstalled(stage) ==> tally.installer == Some(p))
    && (IsAppender(stage) ==> isDefault && tally.installer != Some(p))
    && (tally.appender == Some(p) ==> stage.Appending? || stage.Rewriting? || stage.Stopped?)
  }

  predicate Known(tally: Tally, p: nat) {
    tally.installer == Some(p) || tally.creator == Some(p)
  }

  ghost predicate Inv(w: World) {
    && OnceEach(w.isDefault, w.files, w.tally)
    && (forall p | p in w.processes :: InPlace(w.isDefault, w.tally, p, w.processes[p].stage))
    && (forall p | Known(w.tally, p) :: p in w.processes)
  }

  lemma {:induction false} OperationKeepsOnce(isDefault: bool, files: Files, tally: Tally, p: nat, process: Process)
    requires OnceEach(isDefault, files, tally) && InPlace(isDefault, tally, p, process.stage)
    ensures var e := Operation(isDefault, files, tally, p, process);
            OnceEach(isDefault, e.files, e.tally) && InPlace(isDefault, e.tally, p, e.stage)
  {
  }

  lemma {:induction false} OperationKeepsOthers(isDefault: bool, files: Files, tally: Tally, p: nat, process: Process,
                                                q: nat, stage: Stage)
    requires OnceEach(isDefault, files, tally) && InPlace(isDefault, tally, p, process.stage)
    requires InPlace(isDefault, tally, q, stage) && p != q
    ensures InPlace(isDefault, Operation(isDefault, files, tally, p, process).tally, q, stage)
    ensures Known(Operation(isDefault, files, tally, p, process).tally, q) ==> Known(tally, q)
  {
  }

  lemma {:induction false} AdvanceKeepsInv(w: World, p: nat)
    requires Inv(w) && p in w.processes
    ensures Inv(Next(w, Advance(p)))
  {
    var r := Next(w, Advance(p));
    OperationKeepsOnce(w.isDefault, w.files, w.tally, p, w.processes[p]);
    forall q | q in r.processes ensures InPlace(r.isDefault, r.tally, q, r.processes[q].stage) {
      if q != p {
        OperationKeepsOthers(w.isDefault, w.files, w.tally, p, w.processes[p], q, w.processes[q].stage);
      }
    }
    forall q | Known(r.tally, q) ensures q in r.processes {
      if q != p && q !in w.processes {
        OperationKeepsOthers(w.isDefault, w.files, w.tally, p, w.processes[p], q, Stopped);
      }
    }
  }

  lemma {:induction false} InspectKeepsInv(w: World, p: nat, identity: string)
    requires Inv(w) && p !in w.processes
    ensures Inv(Next(w, Inspect(p, identity)))
  {
    var r := Next(w, Inspect(p, identity));
    assert !Known(w.tally, p);
    forall q | q in r.processes ensures InPlace(r.isDefault, r.tally, q, r.processes[q].stage) {
    }
  }

  lemma {:induction false} StepKeepsInv(w: World, step: Step)
    requires Inv(w)
    ensures Inv(Next(w, step)) && Next(w, step).isDefault == w.isDefault
  {
    match step
    case Advance(p) =>
      if p in w.processes {
        AdvanceKeepsInv(w, p);
      }
    case Inspect(p, identity) =>
      if p !in w.processes {
        InspectKeepsInv(w, p, identity);
      }
    case Crash(p) =>
    case OwnerStarts =>
    case OwnerSaves =>
  }

  lemma {:induction false} RunKeepsInv(w: World, steps: seq<Step>)
    requires Inv(w)
    ensures Inv(Run(w, steps)) && Run(w, steps).isDefault == w.isDefault
    decreases |steps|
  {
    if steps != [] {
      var before := Run(w, steps[..|steps| - 1]);
      RunKeepsInv(w, steps[..|steps| - 1]);
      StepKeepsInv(before, steps[|steps| - 1]);
    }
  }

  // ---- every run ----

  /** Over every run of worker processes, with crashes anywhere, the receipt is
      created, appending to the destination started and its session file installed
      at most once each; only the default destination is ever appended to. */
  lemma {:induction false} StartedAtMostOnce(start: World, steps: seq<Step>)
    requires IsInitial(start)
    ensures var w := Run(start, steps);
            && w.tally.creations <= 1 && w.tally.appends <= 1 && w.tally.installs <= 1
            && (w.tally.appends == 1 ==> start.isDefault && w.files.marker != Absent)
  {
    RunKeepsInv(start, steps);
  }

  /** The process has no part in anything: it is not there, or stopped without a deed. */
  predicate IsBystander(w: World, p: nat) {
    && w.files.marker != Absent
    && (p in w.processes ==> w.processes[p].stage.Stopped?)
    && w.tally.installer != Some(p) && w.tally.appender != Some(p) && w.tally.creator != Some(p)
  }

  lemma {:induction false} AdvanceLeavesBystander(w: World, p: nat, q: nat)
    requires IsBystander(w, p)
    ensures IsBystander(Next(w, Advance(q)), p)
  {
    if q in w.processes {
      var effect := Operation(w.isDefault, w.files, w.tally, q, w.processes[q]);
      assert p == q ==> effect == Effect(w.files, w.tally, Stopped);
    }
  }

  lemma {:induction false} BystanderStays(w: World, step: Step, p: nat)
    requires IsBystander(w, p)
    ensures IsBystander(Next(w, step), p)
  {
    match step
    case Advance(q) => AdvanceLeavesBystander(w, p, q);
    case Inspect(_, _) =>
    case Crash(_) =>
    case OwnerStarts =>
    case OwnerSaves =>
  }

  lemma {:induction false} BystanderForGood(w: World, p: nat, later: seq<Step>)
    requires IsBystander(w, p)
    ensures IsBystander(Run(w, later), p)
    decreases |later|
  {
    if later != [] {
      BystanderForGood(w, p, later[..|later| - 1]);
      BystanderStays(Run(w, later[..|later| - 1]), later[|later| - 1], p);
    }
  }

  /** Once a run has created a receipt, a process that is not there yet never delivers
      anything, whatever it asks for and whatever happens later: it stays stopped,
      installs nothing, appends nothing and creates no receipt. */
  lemma {:induction false} ReceiptRefusesNewcomers(start: World, steps: seq<Step>, p: nat, later: seq<Step>)
    requires IsInitial(start) && Run(start, steps).files.marker != Absent && p !in Run(start, steps).processes
    ensures IsBystander(Run(Run(start, steps), later), p)
  {
    RunKeepsInv(start, steps);
    assert !Known(Run(start, steps).tally, p);
    BystanderForGood(Run(start, steps), p, later);
  }

  /** A named destination receives the snapshot at most once. Where the default one
      receives it twice, the installer never got to create the receipt: the appender
      did. */
  lemma {:induction false} DeliveredTwiceOnlyWithoutReceipt(start: World, steps: seq<Step>)
    requires IsInitial(start) && DeliversTwice(start, steps)
    ensures var tally := Run(start, steps).tally;
            && start.isDefault && tally.installs == tally.appends == 1
            && tally.installer != tally.appender && tally.creator == tally.appender
  {
    RunKeepsInv(start, steps);
  }

  predicate DeliversTwice(start: World, steps: seq<Step>) {
    Run(start, steps).tally.installs + Run(start, steps).tally.appends > 1
  }

  /** The default destination without a session file or a running owner: a worker
      installs there. */
  predicate InstallsInPlace(start: World) {
    start.isDefault && !start.files.sessionFile && !start.files.ownerFiles
  }

  predicate MayInstall(stage: Stage) {
    stage.Planned? || stage.Prepared? || HasInstalled(stage)
  }

  /** The default destination is in use, so nobody installs. */
  predicate NobodyInstalls(w: World) {
    && w.isDefault && (w.files.sessionFile || w.files.ownerFiles) && w.tally.installs == 0
    && forall p | p in w.processes :: !MayInstall(w.processes[p].stage)
  }

  lemma {:induction false} NobodyInstallsInUse(start: World, steps: seq<Step>)
    requires IsInitial(start) && start.isDefault && !InstallsInPlace(start)
    ensures NobodyInstalls(Run(start, steps))
    decreases |steps|
  {
    if steps != [] {
      NobodyInstallsInUse(start, steps[..|steps| - 1]);
    }
  }

  /** A snapshot can be delivered twice exactly where a worker would install it as
      the default destination. */
  lemma {:induction false} DeliveredTwiceIff(start: World)
    requires IsInitial(start)
    ensures (exists steps :: DeliversTwice(start, steps)) <==> InstallsInPlace(start)
  {
    if steps :| DeliversTwice(start, steps) {
      DeliveredTwiceOnlyWithoutReceipt(start, steps);
      RunKeepsInv(start, steps);
      if !InstallsInPlace(start) {
        NobodyInstallsInUse(start, steps);
      }
    }
    if InstallsInPlace(start) {
      var steps := CrashDeliversTwice(start, "");
      assert DeliversTwice(start, steps);
    }
  }

  /** Worker 0 has installed the session file and not yet created the receipt. */
  predicate InstalledByFirst(w: World) {
    && w.isDefault && w.files.sessionFile && w.files.marker == Absent
    && w.tally == Tally(1, Some(0), 0, None, 0, None) && w.processes.Keys == {0}
  }

  lemma FirstInstalls(start: World, identity: string)
    requires IsInitial(start) && InstallsInPlace(start)
    ensures var w := Next(Next(Next(start, Inspect(0, identity)), Advance(0)), Advance(0));
            InstalledByFirst(w) && InstalledByFirst(Next(w, Crash(0)))
  {
    var a := Next(start, Inspect(0, identity));
    assert a.processes[0] == Process(identity, Planned);
    var b := Next(a, Advance(0));
    assert b.processes[0] == Process(identity, Prepared);
  }

  lemma SecondAppends(w: World, identity: string)
    requires InstalledByFirst(w)
    ensures Next(Next(Next(Next(w, Inspect(1, identity)), Advance(1)), Advance(1)), Advance(1)).tally ==
            Tally(1, Some(0), 1, Some(1), 1, Some(1))
  {
    var a := Next(w, Inspect(1, identity));
    assert a.processes[1] == Process(identity, ToAppend);
    var b := Next(a, Advance(1));
    assert b.processes[1] == Process(identity, AppendMarked);
    var c := Next(b, Advance(1));
    assert c.processes[1] == Process(identity, AppendWritten);
  }

  /** A crash between the session file and the receipt of the default destination
      makes the rerun append what was already installed. */
  lemma CrashDeliversTwice(start: World, identity: string) returns (steps: seq<Step>)
    requires IsInitial(start) && InstallsInPlace(start)
    ensures steps == [Inspect(0, identity), Advance(0), Advance(0), Crash(0),
                      Inspect(1, identity), Advance(1), Advance(1), Advance(1)]
    ensures Run(start, steps).tally == Tally(1, Some(0), 1, Some(1), 1, Some(1))
  {
    FirstInstalls(start, identity);
    steps := RunInstall(start, identity);
    steps := RunOneMore(start, steps, Crash(0));
    SecondAppends(Run(start, steps), identity);
    steps := RunAppend(start, steps, identity);
  }

  /** No crash is needed: a second worker that looks between the session file and the
      receipt of the first does the same. */
  lemma RaceDeliversTwice(start: World, identity: string) returns (steps: seq<Step>)
    requires IsInitial(start) && InstallsInPlace(start)
    ensures steps == [Inspect(0, identity), Advance(0), Advance(0),
                      Inspect(1, identity), Advance(1), Advance(1), Advance(1)]
    ensures Run(start, steps).tally == Tally(1, Some(0), 1, Some(1), 1, Some(1))
  {
    FirstInstalls(start, identity);
    steps := RunInstall(start, identity);
    SecondAppends(Run(start, steps), identity);
    steps := RunAppend(start, steps, identity);
  }

  // ---- an undisturbed worker ----

  /** On a fresh destination a worker that is left alone makes the directory, installs the
      session file and leaves its receipt. */
  lemma FreshDestinationIsInstalled(start: World, identity: string) returns (steps: seq<Step>)
    requires IsInitial(start) && !start.files.sessionFile
    requires if start.isDefault then !start.files.ownerFiles else !start.files.directory
    ensures steps == [Inspect(0, identity), Advance(0), Advance(0), Advance(0), Advance(0)]
    ensures Run(start, steps).files ==
            start.files.(directory := true, sessionFile := true, marker := Receipt(identity, Plain))
    ensures Run(start, steps).tally.installs == 1 && Run(start, steps).tally.appends == 0
    ensures 0 in Run(start, steps).processes && Run(start, steps).processes[0].stage == Stopped
  {
    steps := [];
    steps := RunOneMore(start, steps, Inspect(0, identity));
    assert Run(start, steps).processes[0] == Process(identity, Planned);
    steps := RunOneMore(start, steps, Advance(0));
    assert Run(start, steps).processes[0] == Process(identity, Prepared);
    steps := RunOneMore(start, steps, Advance(0));
    assert Run(start, steps).processes[0] == Process(identity, Installed);
    steps := RunOneMore(start, steps, Advance(0));
    assert Run(start, steps).processes[0] == Process(identity, InstallMarked);
    steps := RunOneMore(start, steps, Advance(0));
  }

  /** On the default destination in use it leaves a receipt marked incomplete, appends and
      marks it complete; the session file is left alone. */
  lemma DefaultInUseIsAppendedTo(start: World, identity: string) returns (steps: seq<Step>)
    requires IsInitial(start) && start.isDefault && (start.files.sessionFile || start.files.ownerFiles)
    ensures steps == [Inspect(0, identity), Advance(0), Advance(0), Advance(0), Advance(0), Advance(0)]
    ensures Run(start, steps[..3]).files.marker == Receipt(identity, Incomplete)
    ensures Run(start, steps[..3]).tally.appends == 0
    ensures Run(start, steps).files == start.files.(marker := Receipt(identity, Complete))
    ensures Run(start, steps).tally.appends == 1 && Run(start, steps).tally.installs == 0
    ensures 0 in Run(start, steps).processes && Run(start, steps).processes[0].stage == Stopped
  {
    steps := [];
    steps := RunOneMore(start, steps, Inspect(0, identity));
    assert Run(start, steps).processes[0] == Process(identity, ToAppend);
    steps := RunOneMore(start, steps, Advance(0));
    assert Run(start, steps).processes[0] == Process(identity, AppendMarked);
    steps := RunOneMore(start, steps, Advance(0));
    assert Run(start, steps).processes[0] == Process(identity, AppendWritten);
    var written := steps;
    steps := RunOneMore(start, steps, Advance(0));
    assert Run(start, steps).processes[0] == Process(identity, Appending);
    steps := RunOneMore(start, steps, Advance(0));
    assert Run(start, steps).processes[0] == Process(identity, Rewriting);
    steps := RunOneMore(start, steps, Advance(0));
    assert steps[..3] == written;
  }

  /** A named destination whose directory exists is refused and left alone. */
  lemma NamedInUseIsRefused(start: World, identity: string, p: nat)
    requires IsInitial(start) && !start.isDefault && start.files.directory
    ensures var w := Next(start, Inspect(p, identity));
            && w.files == start.files && w.processes[p].stage == Stopped
            && Next(w, Advance(p)).files == start.files && Next(w, Advance(p)).tally == start.tally
  {
  }

  lemma RunInstall(start: World, identity: string) returns (steps: seq<Step>)
    ensures steps == [Inspect(0, identity), Advance(0), Advance(0)]
    ensures Run(start, steps) == Next(Next(Next(start, Inspect(0, identity)), Advance(0)), Advance(0))
  {
    steps := [];
    steps := RunOneMore(start, steps, Inspect(0, identity));
    steps := RunOneMore(start, steps, Advance(0));
    steps := RunOneMore(start, steps, Advance(0));
  }

  lemma RunAppend(start: World, before: seq<Step>, identity: string) returns (steps: seq<Step>)
    ensures steps == before + [Inspect(1, identity), Advance(1), Advance(1), Advance(1)]
    ensures Run(start, steps) ==
            Next(Next(Next(Next(Run(start, before), Inspect(1, identity)), Advance(1)), Advance(1)), Advance(1))
  {
    steps := RunOneMore(start, before, Inspect(1, identity));
    steps := RunOneMore(start, steps, Advance(1));
    steps := RunOneMore(start, steps, Advance(1));
    steps := RunOneMore(start, steps, Advance(1));
  }

  lemma RunOneMore(w: World, steps: seq<Step>, step: Step) returns (more: seq<Step>)
    ensures more == steps + [step] && Run(w, more) == Next(Run(w, steps), step)
  {
    more := steps + [step];
    assert more[..|more| - 1] == steps;
  }
}
