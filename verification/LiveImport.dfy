/**
  Appending converted tabs to a running owner (`append_to_default` in
  scripts/migrate_from_herdr.py): which panes resume a native session, which
  become shells, and the translation of each tab's tree to the panes created.

  The owner's answers are the environment: the id of the pane each call created,
  or that the call failed, which ends the import where it is.
*/
module LiveImport {
  import opened Options
  import opened SnapshotLayout

  /** A session the owner can resume; ids need not be unique among agents. */
  datatype Session = Session(id: string, agent: string, cwd: string)

  /** The import so far, across all tabs: sessions still resumable, sessions asked
      for, and the panes created, all in order. */
  datatype Import = Import(resumable: seq<Session>, resumed: seq<Session>, created: seq<nat>)

  function WithId(sessions: seq<Session>, id: string): seq<Session> {
    if sessions == [] then []
    else (if sessions[0].id == id then [sessions[0]] else []) + WithId(sessions[1..], id)
  }

  function Without(sessions: seq<Session>, session: Session): seq<Session> {
    if sessions == [] then []
    else if sessions[0] == session then sessions[1..]
    else [sessions[0]] + Without(sessions[1..], session)
  }

  /** The one session a record may resume: its id is unique among all of them, and
      agent and directory match too. */
  function SessionFor(sessions: seq<Session>, record: Record, mayLeave: bool): Option<Session> {
    if record.native.None? then None
    else
      var byId := WithId(sessions, record.native.value.1);
      if |byId| == 1 && byId[0].agent == record.native.value.0 && byId[0].cwd == record.cwd && mayLeave
      then Some(byId[0]) else None
  }

  /** The owner as one workspace sees it: whether a record's directory may be resumed
      inside, and the answers to the calls, by how many came before. */
  datatype Owner = Owner(mayResume: Record -> bool, answer: nat -> Option<nat>)

  /** The running server. With `separateResume` a session of another directory opens a
      workspace of its own; directories are compared as `resolve` gives them. */
  datatype Server = Server(separateResume: bool, resolve: string -> string, answer: nat -> Option<nat>)
  {
    function InWorkspace(cwd: string): Owner {
      Owner((record: Record) => !separateResume || resolve(record.cwd) == resolve(cwd), answer)
    }
  }

  /** A tab's records and the directory of its workspace. */
  datatype ImportedTab = ImportedTab(workspaceCwd: string, records: seq<Record>)

  /** One record: a resume or a new shell. The id of the created pane comes last. */
  function ImportRecord(owner: Owner, state: Import, record: Record): (Import, Option<nat>) {
    var session := SessionFor(state.resumable, record, owner.mayResume(record));
    var created := owner.answer(|state.created|);
    var asked := if session.Some? then state.(resumed := state.resumed + [session.value]) else state;
    if created.None? then (asked, None)
    else
      var left := if session.Some? then asked.(resumable := Without(asked.resumable, session.value)) else asked;
      (left.(created := left.created + [created.value]), created)
  }

  /** All records of one tab, or those before the call that failed. */
  function ImportRecords(owner: Owner, state: Import, records: seq<Record>, remap: map<nat, nat>)
    : (Import, Option<map<nat, nat>>)
    decreases |records|
  {
    if records == [] then (state, Some(remap))
    else
      var (next, created) := ImportRecord(owner, state, records[0]);
      if created.None? then (next, None)
      else ImportRecords(owner, next, records[1..], remap[records[0].pane := created.value])
  }

  /** The loop of the source over one tab's records. */
  method ImportTab(owner: Owner, state: Import, records: seq<Record>)
      returns (next: Import, remap: Option<map<nat, nat>>)
    ensures (next, remap) == ImportRecords(owner, state, records, map[])
  {
    next := state;
    var mapped: map<nat, nat> := map[];
    for i := 0 to |records|
      invariant ImportRecords(owner, state, records, map[]) == ImportRecords(owner, next, records[i..], mapped)
    {
      var record := records[i];
      assert records[i..][1..] == records[i + 1..];
      var session := SessionFor(next.resumable, record, owner.mayResume(record));
      var created := owner.answer(|next.created|);
      if session.Some? {
        next := next.(resumed := next.resumed + [session.value]);
      }
      if created.None? {
        return next, None;
      }
      if session.Some? {
        next := next.(resumable := Without(next.resumable, session.value));
      }
      next := next.(created := next.created + [created.value]);
      mapped := mapped[record.pane := created.value];
    }
    remap := Some(mapped);
  }

  /** All tabs in turn; stops for good at the first failure. */
  function ImportTabs(server: Server, state: Import, tabs: seq<ImportedTab>): Import
    decreases |tabs|
  {
    if tabs == [] then state
    else
      var (next, remap) := ImportRecords(server.InWorkspace(tabs[0].workspaceCwd), state, tabs[0].records, map[]);
      if remap.None? then next else ImportTabs(server, next, tabs[1..])
  }

  // ---- what is resumed ----

  /** `s` is the record's own session and the only one listed with its id. */
  predicate IsOwn(sessions: seq<Session>, record: Record, s: Session) {
    && record.native == Some((s.agent, s.id)) && record.cwd == s.cwd
    && exists k | 0 <= k < |sessions| ::
         sessions[k] == s && forall j | 0 <= j < |sessions| && j != k :: sessions[j].id != s.id
  }

  /** The list without one place where `s` stood. */
  predicate LosesOne(before: seq<Session>, after: seq<Session>, s: Session) {
    exists k | 0 <= k < |before| :: before[k] == s && after == before[..k] + before[k + 1..]
  }

  lemma {:induction false} WithIdOfOne(sessions: seq<Session>, k: nat)
    requires k < |sessions| && forall j | 0 <= j < |sessions| && j != k :: sessions[j].id != sessions[k].id
    ensures WithId(sessions, sessions[k].id) == [sessions[k]]
    decreases |sessions|
  {
    var id, rest := sessions[k].id, sessions[1..];
    if k == 0 {
      NoneWithThatId(rest, id);
    } else {
      assert forall j | 0 <= j < |rest| && j != k - 1 :: rest[j] == sessions[j + 1];
      WithIdOfOne(rest, k - 1);
    }
  }

  lemma {:induction false} NoneWithThatId(sessions: seq<Session>, id: string)
    requires forall j | 0 <= j < |sessions| :: sessions[j].id != id
    ensures WithId(sessions, id) == []
    decreases |sessions|
  {
    if sessions != [] {
      NoneWithThatId(sessions[1..], id);
    }
  }

  lemma {:induction false} OneOfWithId(sessions: seq<Session>, s: Session) returns (k: nat)
    requires WithId(sessions, s.id) == [s]
    ensures k < |sessions| && sessions[k] == s
    ensures forall j | 0 <= j < |sessions| && j != k :: sessions[j].id != s.id
    decreases |sessions|
  {
    var rest := sessions[1..];
    if sessions[0].id == s.id {
      k := 0;
      assert WithId(sessions, s.id) == [sessions[0]] + WithId(rest, s.id);
      assert WithId(sessions, s.id)[0] == sessions[0];
      WithIdHolds(rest, s.id);
      assert forall j | 0 < j < |sessions| :: sessions[j] == rest[j - 1];
    } else {
      assert WithId(sessions, s.id) == [] + WithId(rest, s.id);
      k := OneOfWithId(rest, s);
      assert forall j | 0 < j < |sessions| :: sessions[j] == rest[j - 1];
      k := k + 1;
    }
  }

  function RemoveAt<T>(xs: seq<T>, k: nat): seq<T>
    requires k < |xs|
  {
    xs[..k] + xs[k + 1..]
  }

  lemma RemoveFurther<T>(first: T, rest: seq<T>, k: nat)
    requires k < |rest|
    ensures RemoveAt([first] + rest, k + 1) == [first] + RemoveAt(rest, k)
  {
    var xs := [first] + rest;
    assert xs[..k + 1] == [first] + rest[..k] && xs[k + 2..] == rest[k + 1..];
  }

  lemma {:induction false} WithoutRemoves(sessions: seq<Session>, s: Session) returns (k: nat)
    requires s in sessions
    ensures k < |sessions| && sessions[k] == s && Without(sessions, s) == RemoveAt(sessions, k)
    decreases |sessions|
  {
    if sessions[0] == s {
      k := 0;
      assert sessions[..0] + sessions[1..] == sessions[1..];
    } else {
      var first, rest := sessions[0], sessions[1..];
      assert sessions == [first] + rest;
      k := WithoutRemoves(rest, s);
      RemoveFurther(first, rest, k);
      k := k + 1;
    }
  }

  lemma {:induction false} WithoutLosesOne(sessions: seq<Session>, s: Session)
    requires s in sessions
    ensures LosesOne(sessions, Without(sessions, s), s)
  {
    var k := WithoutRemoves(sessions, s);
  }

  /** One record of a tab of a workspace. Exactly the record's own session is asked for,
      if its directory may be resumed there; it goes from the list once the server has
      answered. In any case one pane is created, if the server answers. */
  ghost predicate IsRecordStep(server: Server, cwd: string, before: Import, record: Record, after: Import) {
    var created := server.answer(|before.created|);
    var allowed := !server.separateResume || server.resolve(record.cwd) == server.resolve(cwd);
    && after.created == before.created + (if created.Some? then [created.value] else [])
    && (forall s: Session | IsOwn(before.resumable, record, s) && allowed ::
          && after.resumed == before.resumed + [s]
          && if created.Some? then LosesOne(before.resumable, after.resumable, s)
             else after.resumable == before.resumable)
    && ((forall s: Session :: !IsOwn(before.resumable, record, s)) || !allowed ==>
          after.resumed == before.resumed && after.resumable == before.resumable)
  }

  lemma {:induction false} SessionForOwn(sessions: seq<Session>, record: Record, mayLeave: bool, s: Session)
    ensures SessionFor(sessions, record, mayLeave) == Some(s) <==> IsOwn(sessions, record, s) && mayLeave
  {
    SessionForIff(sessions, record, mayLeave, s);
    if WithId(sessions, s.id) == [s] {
      var k := OneOfWithId(sessions, s);
    }
    if k :| 0 <= k < |sessions| && sessions[k] == s &&
            forall j | 0 <= j < |sessions| && j != k :: sessions[j].id != s.id
    {
      WithIdOfOne(sessions, k);
    }
  }

  lemma {:induction false} RecordIsImported(server: Server, cwd: string, state: Import, record: Record)
    ensures var (next, created) := ImportRecord(server.InWorkspace(cwd), state, record);
            IsRecordStep(server, cwd, state, record, next) && created == server.answer(|state.created|)
  {
    var owner := server.InWorkspace(cwd);
    var session := SessionFor(state.resumable, record, owner.mayResume(record));
    forall s: Session
      ensures session == Some(s) <==> IsOwn(state.resumable, record, s) && owner.mayResume(record)
    {
      SessionForOwn(state.resumable, record, owner.mayResume(record), s);
    }
    if session.Some? {
      assert session.value in state.resumable;
      WithoutLosesOne(state.resumable, session.value);
    }
  }

  /** A whole tab: its records in their order, one step each, up to the first call the
      server does not answer. */
  lemma {:induction false} TabIsImported(server: Server, cwd: string, state: Import, records: seq<Record>,
                                         remap: map<nat, nat>) returns (states: seq<Import>)
    ensures var (next, mapped) := ImportRecords(server.InWorkspace(cwd), state, records, remap);
            && 0 < |states| <= |records| + 1 && states[0] == state && states[|states| - 1] == next
            && (forall i | 0 <= i < |states| - 1 :: IsRecordStep(server, cwd, states[i], records[i], states[i + 1]))
            && (mapped.Some? ==> |states| == |records| + 1)
            && (mapped.None? ==> |states| > 1 && server.answer(|next.created|).None?)
            && (forall i | 0 <= i < |states| - 1 - (if mapped.None? then 1 else 0) ::
                  server.answer(|states[i].created|).Some?)
    decreases |records|
  {
    if records == [] {
      states := [state];
    } else {
      RecordIsImported(server, cwd, state, records[0]);
      var (next, created) := ImportRecord(server.InWorkspace(cwd), state, records[0]);
      if created.None? {
        states := [state, next];
      } else {
        var later := TabIsImported(server, cwd, next, records[1..], remap[records[0].pane := created.value]);
        states := [state] + later;
        StepsInFront(server, cwd, state, records, later);
      }
    }
  }

  lemma {:induction false} StepsInFront(server: Server, cwd: string, state: Import, records: seq<Record>,
                                        later: seq<Import>)
    requires records != [] && 0 < |later| <= |records| && IsRecordStep(server, cwd, state, records[0], later[0])
    requires forall i | 0 <= i < |later| - 1 :: IsRecordStep(server, cwd, later[i], records[1..][i], later[i + 1])
    ensures var states := [state] + later;
            forall i | 0 <= i < |states| - 1 :: IsRecordStep(server, cwd, states[i], records[i], states[i + 1])
  {
    var states := [state] + later;
    forall i | 0 <= i < |states| - 1 ensures IsRecordStep(server, cwd, states[i], records[i], states[i + 1]) {
      if i > 0 {
        assert states[i] == later[i - 1] && states[i + 1] == later[i - 1 + 1] && records[i] == records[1..][i - 1];
      }
    }
  }

  /** The steps of one tab, from `before` to `after`. */
  ghost predicate IsTabRun(server: Server, tab: ImportedTab, before: Import, states: seq<Import>, after: Import) {
    && 0 < |states| <= |tab.records| + 1 && states[0] == before && states[|states| - 1] == after
    && forall i | 0 <= i < |states| - 1 ::
         IsRecordStep(server, tab.workspaceCwd, states[i], tab.records[i], states[i + 1])
  }

  ghost predicate ImportsTab(server: Server, tab: ImportedTab, before: Import, after: Import) {
    exists states: seq<Import> :: IsTabRun(server, tab, before, states, after)
  }

  ghost predicate ImportsTabs(server: Server, tabs: seq<ImportedTab>, stops: seq<Import>) {
    && 0 < |stops| <= |tabs| + 1
    && forall i | 0 <= i < |stops| - 1 :: ImportsTab(server, tabs[i], stops[i], stops[i + 1])
  }

  lemma {:induction false} FirstTabIsImported(server: Server, state: Import, tab: ImportedTab)
    ensures var (next, mapped) := ImportRecords(server.InWorkspace(tab.workspaceCwd), state, tab.records, map[]);
            && ImportsTab(server, tab, state, next)
            && (mapped.None? ==> server.answer(|next.created|).None?)
  {
    var states := TabIsImported(server, tab.workspaceCwd, state, tab.records, map[]);
    var next := ImportRecords(server.InWorkspace(tab.workspaceCwd), state, tab.records, map[]).0;
    assert IsTabRun(server, tab, state, states, next);
  }

  lemma {:induction false} TabsInFront(server: Server, state: Import, tabs: seq<ImportedTab>, later: seq<Import>)
    requires tabs != [] && ImportsTabs(server, tabs[1..], later) && ImportsTab(server, tabs[0], state, later[0])
    ensures ImportsTabs(server, tabs, [state] + later)
  {
    var stops := [state] + later;
    forall i | 0 <= i < |stops| - 1 ensures ImportsTab(server, tabs[i], stops[i], stops[i + 1]) {
      if i > 0 {
        assert stops[i] == later[i - 1] && stops[i + 1] == later[i - 1 + 1] && tabs[i] == tabs[1..][i - 1];
      }
    }
  }

  /** All tabs: each in its own workspace's directory, in their order; all of them unless
      the server failed to answer, which it then did in the last one. */
  lemma {:induction false} TabsAreImported(server: Server, state: Import, tabs: seq<ImportedTab>)
      returns (stops: seq<Import>)
    ensures ImportsTabs(server, tabs, stops)
    ensures stops[0] == state && stops[|stops| - 1] == ImportTabs(server, state, tabs)
    ensures |stops| <= |tabs| ==> server.answer(|stops[|stops| - 1].created|).None?
    decreases |tabs|
  {
    if tabs == [] {
      stops := [state];
    } else {
      FirstTabIsImported(server, state, tabs[0]);
      var (next, mapped) :=
        ImportRecords(server.InWorkspace(tabs[0].workspaceCwd), state, tabs[0].records, map[]);
      if mapped.None? {
        stops := [state, next];
      } else {
        var later := TabsAreImported(server, next, tabs[1..]);
        TabsInFront(server, state, tabs, later);
        stops := [state] + later;
      }
    }
  }

  function RecordCount(tabs: seq<ImportedTab>): nat {
    if tabs == [] then 0 else |tabs[0].records| + RecordCount(tabs[1..])
  }

  /** While the server answers, every record of every tab gets a pane. */
  lemma {:induction false} EveryRecordGetsAPane(server: Server, state: Import, tabs: seq<ImportedTab>)
    requires forall k: nat :: server.answer(k).Some?
    ensures |ImportTabs(server, state, tabs).created| == |state.created| + RecordCount(tabs)
    decreases |tabs|
  {
    if tabs != [] {
      var owner := server.InWorkspace(tabs[0].workspaceCwd);
      RecordsGetPanes(owner, state, tabs[0].records, map[]);
      EveryRecordGetsAPane(server, ImportRecords(owner, state, tabs[0].records, map[]).0, tabs[1..]);
    }
  }

  lemma {:induction false} RecordsGetPanes(owner: Owner, state: Import, records: seq<Record>, remap: map<nat, nat>)
    requires forall k: nat :: owner.answer(k).Some?
    ensures var (next, mapped) := ImportRecords(owner, state, records, remap);
            mapped.Some? && |next.created| == |state.created| + |records|
    decreases |records|
  {
    if records != [] {
      var (next, created) := ImportRecord(owner, state, records[0]);
      RecordsGetPanes(owner, next, records[1..], remap[records[0].pane := created.value]);
    }
  }

  // ---- at most once ----

  predicate NoneWithId(sessions: seq<Session>, id: string) {
    forall i | 0 <= i < |sessions| :: sessions[i].id != id
  }

  predicate DistinctIds(sessions: seq<Session>) {
    forall i, j | 0 <= i < j < |sessions| :: sessions[i].id != sessions[j].id
  }

  /** No session was asked for twice, and none that was can be asked for again. */
  predicate ResumedOnce(state: Import) {
    && DistinctIds(state.resumed)
    && forall i | 0 <= i < |state.resumed| :: NoneWithId(state.resumable, state.resumed[i].id)
  }

  lemma {:induction false} WithIdHolds(sessions: seq<Session>, id: string)
    ensures forall i | 0 <= i < |WithId(sessions, id)| :: WithId(sessions, id)[i].id == id
    ensures WithId(sessions, id) == [] <==> NoneWithId(sessions, id)
    ensures forall i | 0 <= i < |WithId(sessions, id)| :: WithId(sessions, id)[i] in sessions
    decreases |sessions|
  {
    if sessions != [] {
      WithIdHolds(sessions[1..], id);
      if NoneWithId(sessions[1..], id) && sessions[0].id != id {
        assert forall i | 0 < i < |sessions| :: sessions[i] == sessions[1..][i - 1];
      }
      if !NoneWithId(sessions[1..], id) {
        var i :| 0 <= i < |sessions[1..]| && sessions[1..][i].id == id;
        assert sessions[i + 1].id == id;
      }
    }
  }

  /** Removing the only session of an id leaves none of that id. */
  lemma {:induction false} RemovedForGood(sessions: seq<Session>, session: Session)
    requires WithId(sessions, session.id) == [session]
    ensures NoneWithId(Without(sessions, session), session.id)
    decreases |sessions|
  {
    if sessions[0].id == session.id {
      assert WithId(sessions, session.id) == [sessions[0]] + WithId(sessions[1..], session.id);
      WithIdHolds(sessions[1..], session.id);
      assert WithId(sessions, session.id)[0] == sessions[0];
    } else {
      assert WithId(sessions, session.id) == [] + WithId(sessions[1..], session.id);
      RemovedForGood(sessions[1..], session);
    }
  }

  lemma {:induction false} WithoutIsPart(sessions: seq<Session>, session: Session, s: Session)
    ensures s in Without(sessions, session) ==> s in sessions
    decreases |sessions|
  {
    if sessions != [] && sessions[0] != session {
      WithoutIsPart(sessions[1..], session, s);
    }
  }

  lemma {:induction false} StillNone(sessions: seq<Session>, session: Session, id: string)
    requires NoneWithId(sessions, id)
    ensures NoneWithId(Without(sessions, session), id)
  {
    var rest := Without(sessions, session);
    forall i | 0 <= i < |rest| ensures rest[i].id != id {
      WithoutIsPart(sessions, session, rest[i]);
    }
  }

  lemma {:induction false} SessionForMeans(sessions: seq<Session>, record: Record, mayLeave: bool)
    requires SessionFor(sessions, record, mayLeave).Some?
    ensures var s := SessionFor(sessions, record, mayLeave).value;
            && record.native == Some((s.agent, s.id)) && s.cwd == record.cwd && mayLeave
            && WithId(sessions, s.id) == [s] && s in sessions && !NoneWithId(sessions, s.id)
  {
    WithIdHolds(sessions, record.native.value.1);
  }

  /** A session is resumed for a record exactly when it is the record's own, nothing
      else has its id, and the directory may be resumed there. */
  lemma {:induction false} SessionForIff(sessions: seq<Session>, record: Record, mayLeave: bool, s: Session)
    ensures SessionFor(sessions, record, mayLeave) == Some(s) <==>
            && record.native == Some((s.agent, s.id)) && s.cwd == record.cwd && mayLeave
            && WithId(sessions, s.id) == [s]
  {
    if SessionFor(sessions, record, mayLeave) == Some(s) {
      SessionForMeans(sessions, record, mayLeave);
    }
  }

  /** Every step keeps `ResumedOnce`, up to a failed call, after which none follows. */
  lemma {:induction false} RecordResumesOnce(owner: Owner, state: Import, record: Record)
    requires ResumedOnce(state)
    ensures var (next, created) := ImportRecord(owner, state, record);
            DistinctIds(next.resumed) && (created.Some? ==> ResumedOnce(next))
  {
    var (next, created) := ImportRecord(owner, state, record);
    var session := SessionFor(state.resumable, record, owner.mayResume(record));
    if session.Some? {
      SessionForMeans(state.resumable, record, owner.mayResume(record));
      forall i | 0 <= i < |state.resumed| ensures state.resumed[i].id != session.value.id {
        assert NoneWithId(state.resumable, state.resumed[i].id);
      }
      if created.Some? {
        RemovedForGood(state.resumable, session.value);
        forall i | 0 <= i < |next.resumed| ensures NoneWithId(next.resumable, next.resumed[i].id) {
          if i < |state.resumed| {
            StillNone(state.resumable, session.value, state.resumed[i].id);
          }
        }
      }
    }
  }

  lemma {:induction false} TabResumesOnce(owner: Owner, state: Import, records: seq<Record>, remap: map<nat, nat>)
    requires ResumedOnce(state)
    ensures var (next, mapped) := ImportRecords(owner, state, records, remap);
            DistinctIds(next.resumed) && (mapped.Some? ==> ResumedOnce(next))
    decreases |records|
  {
    if records != [] {
      RecordResumesOnce(owner, state, records[0]);
      var (next, created) := ImportRecord(owner, state, records[0]);
      if created.Some? {
        TabResumesOnce(owner, next, records[1..], remap[records[0].pane := created.value]);
      }
    }
  }

  lemma {:induction false} TabsResumeOnce(server: Server, state: Import, tabs: seq<ImportedTab>)
    requires ResumedOnce(state)
    ensures DistinctIds(ImportTabs(server, state, tabs).resumed)
    decreases |tabs|
  {
    if tabs != [] {
      var owner := server.InWorkspace(tabs[0].workspaceCwd);
      TabResumesOnce(owner, state, tabs[0].records, map[]);
      var (next, remap) := ImportRecords(owner, state, tabs[0].records, map[]);
      if remap.Some? {
        TabsResumeOnce(server, next, tabs[1..]);
      }
    }
  }

  /** Over all tabs of an import, whatever sessions the server lists and wherever a
      failure ends it, every native session is resumed at most once. */
  lemma {:induction false} EachSessionResumedAtMostOnce(server: Server, sessions: seq<Session>, tabs: seq<ImportedTab>)
    ensures DistinctIds(ImportTabs(server, Import(sessions, [], []), tabs).resumed)
  {
    TabsResumeOnce(server, Import(sessions, [], []), tabs);
  }

  // ---- the tree of created panes ----

  predicate Covers(remap: map<nat, nat>, tree: Layout) {
    forall pane | pane in Leaves(tree) :: pane in remap
  }

  function Mapped(tree: Layout, remap: map<nat, nat>): Layout
    requires Covers(remap, tree)
  {
    match tree
    case Leaf(pane) => assert pane in Leaves(tree); Leaf(remap[pane])
    case Branch(axis, ratio, a, b) =>
      assert forall pane | pane in Leaves(a) :: pane in Leaves(tree);
      assert forall pane | pane in Leaves(b) :: pane in Leaves(tree);
      Branch(axis, ratio, Mapped(a, remap), Mapped(b, remap))
  }

  predicate SameShape(t: Layout, u: Layout) {
    match (t, u)
    case (Leaf(_), Leaf(_)) => true
    case (Branch(axis, ratio, a, b), Branch(axis', ratio', a', b')) =>
      axis == axis' && ratio == ratio' && SameShape(a, a') && SameShape(b, b')
    case _ => false
  }

  predicate Injective(remap: map<nat, nat>) {
    forall x, y | x in remap && y in remap && x != y :: remap[x] != remap[y]
  }

  lemma {:induction false} MappedKeepsShape(tree: Layout, remap: map<nat, nat>)
    requires Covers(remap, tree)
    ensures SameShape(tree, Mapped(tree, remap))
    ensures |Leaves(Mapped(tree, remap))| == |Leaves(tree)|
    ensures forall i | 0 <= i < |Leaves(tree)| ::
              Leaves(tree)[i] in remap && Leaves(Mapped(tree, remap))[i] == remap[Leaves(tree)[i]]
    decreases tree
  {
    if tree.Branch? {
      assert forall pane | pane in Leaves(tree.a) :: pane in Leaves(tree);
      assert forall pane | pane in Leaves(tree.b) :: pane in Leaves(tree);
      MappedKeepsShape(tree.a, remap);
      MappedKeepsShape(tree.b, remap);
    } else {
      assert tree.pane in Leaves(tree);
    }
  }

  /** What the records' loop builds: one created pane for each record's id. */
  lemma {:induction false} RemapOfRecords(owner: Owner, state: Import, records: seq<Record>, remap: map<nat, nat>)
    requires ImportRecords(owner, state, records, remap).1.Some?
    requires forall x | x in remap :: remap[x] in state.created
    requires Injective(remap)
    requires Distinct(ImportRecords(owner, state, records, remap).0.created)
    ensures var (next, mapped) := ImportRecords(owner, state, records, remap);
            && mapped.value.Keys == remap.Keys + RecordPanes(records)
            && Injective(mapped.value)
            && state.created <= next.created
    decreases |records|
  {
    if records != [] {
      var (next, created) := ImportRecord(owner, state, records[0]);
      var more := remap[records[0].pane := created.value];
      CreatedGrows(owner, next, records[1..], more);
      var all := ImportRecords(owner, next, records[1..], more).0.created;
      assert next.created == state.created + [created.value];
      assert created.value !in state.created by {
        assert all[|state.created|] == created.value;
        assert forall k | 0 <= k < |state.created| :: all[k] == state.created[k];
      }
      assert forall x | x in more :: more[x] in next.created;
      RemapOfRecords(owner, next, records[1..], more);
      RecordPanesUnfold(records);
    }
  }

  lemma RecordPanesUnfold(records: seq<Record>)
    requires records != []
    ensures RecordPanes(records) == {records[0].pane} + RecordPanes(records[1..])
  {
    forall x | x in RecordPanes(records) ensures x in {records[0].pane} + RecordPanes(records[1..]) {
      var i :| 0 <= i < |records| && records[i].pane == x;
      if i > 0 {
        assert records[1..][i - 1].pane == x;
      }
    }
    forall x | x in RecordPanes(records[1..]) ensures x in RecordPanes(records) {
      var i :| 0 <= i < |records[1..]| && records[1..][i].pane == x;
      assert records[i + 1].pane == x;
    }
  }

  /** Each record's pane is mapped to the pane created for that record. */
  lemma {:induction false} RemapIsPositional(owner: Owner, state: Import, records: seq<Record>,
                                             remap: map<nat, nat>, i: nat)
    requires ImportRecords(owner, state, records, remap).1.Some? && i < |records|
    requires forall j | i < j < |records| :: records[j].pane != records[i].pane
    ensures var (next, mapped) := ImportRecords(owner, state, records, remap);
            && |next.created| == |state.created| + |records|
            && records[i].pane in mapped.value
            && mapped.value[records[i].pane] == next.created[|state.created| + i]
    decreases |records|
  {
    var (next, created) := ImportRecord(owner, state, records[0]);
    var more := remap[records[0].pane := created.value];
    CreatedGrows(owner, next, records[1..], more);
    if i > 0 {
      RemapIsPositional(owner, next, records[1..], more, i - 1);
    } else {
      KeptInRemap(owner, next, records[1..], more, records[0].pane);
    }
  }

  lemma {:induction false} KeptInRemap(owner: Owner, state: Import, records: seq<Record>,
                                       remap: map<nat, nat>, pane: nat)
    requires ImportRecords(owner, state, records, remap).1.Some? && pane in remap
    requires forall j | 0 <= j < |records| :: records[j].pane != pane
    ensures var (next, mapped) := ImportRecords(owner, state, records, remap);
            && |next.created| == |state.created| + |records|
            && pane in mapped.value && mapped.value[pane] == remap[pane]
    decreases |records|
  {
    if records != [] {
      var (next, created) := ImportRecord(owner, state, records[0]);
      KeptInRemap(owner, next, records[1..], remap[records[0].pane := created.value], pane);
    }
  }

  lemma {:induction false} CreatedGrows(owner: Owner, state: Import, records: seq<Record>, remap: map<nat, nat>)
    ensures state.created <= ImportRecords(owner, state, records, remap).0.created
    decreases |records|
  {
    if records != [] {
      var (next, created) := ImportRecord(owner, state, records[0]);
      if created.Some? {
        CreatedGrows(owner, next, records[1..], remap[records[0].pane := created.value]);
      }
    }
  }

  /** The layout applied to a converted tab: its own tree with each pane replaced by
      the one created for it, and no pane twice as long as the owner's ids are
      distinct. */
  lemma {:induction false} AppliedLayout(owner: Owner, state: Import, tab: Tab)
    requires ToSet(Leaves(tab.tree)) == RecordPanes(tab.records)
    requires Distinct(Leaves(tab.tree)) && tab.focus in Leaves(tab.tree)
    requires ImportRecords(owner, state, tab.records, map[]).1.Some?
    requires Distinct(ImportRecords(owner, state, tab.records, map[]).0.created)
    ensures var remap := ImportRecords(owner, state, tab.records, map[]).1.value;
            && Covers(remap, tab.tree)
            && SameShape(tab.tree, Mapped(tab.tree, remap))
            && Distinct(Leaves(Mapped(tab.tree, remap)))
            && tab.focus in remap && remap[tab.focus] in Leaves(Mapped(tab.tree, remap))
  {
    RemapOfRecords(owner, state, tab.records, map[]);
    var remap := ImportRecords(owner, state, tab.records, map[]).1.value;
    forall pane | pane in Leaves(tab.tree) ensures pane in remap {
      assert pane in ToSet(Leaves(tab.tree));
    }
    MappedKeepsShape(tab.tree, remap);
    var i :| 0 <= i < |Leaves(tab.tree)| && Leaves(tab.tree)[i] == tab.focus;
    assert Leaves(Mapped(tab.tree, remap))[i] == remap[tab.focus];
  }
}
