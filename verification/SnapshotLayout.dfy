/**
  Converting a saved Herdr tab into a Luvus one (scripts/migrate_from_herdr.py):
  the pane tree with its validation, the pane records, the focus, and the indices
  of the active tab and workspace.

  Whether a directory or file still exists, and how Python reads a record's key as
  a number, are the environment's answers.
*/
module SnapshotLayout {
  import opened Options
  import opened SessionIds

  const MAX_DEPTH := 64
  const MAX_ID := 0xffff_ffff

  /** A JSON value where a pane id is expected: an integer or something else. */
  datatype RawId = Id(n: int) | NotAnInteger

  /** A layout node as read; anything of another form is malformed. */
  datatype RawNode =
    | Pane(pid: RawId)
    | Split(direction: string, ratio: real, first: RawNode, second: RawNode)
    | Malformed

  datatype Layout = Leaf(pane: nat) | Branch(axis: nat, ratio: real, a: Layout, b: Layout)

  // ---- the tree ----

  predicate IsValidId(pid: RawId, seen: set<nat>) {
    pid.Id? && 0 <= pid.n <= MAX_ID && pid.n !in seen
  }

  predicate IsValidSplit(direction: string, ratio: real) {
    (direction == "Horizontal" || direction == "Vertical") && 0.0 < ratio < 1.0
  }

  /** The converted node and the ids seen so far; none for a rejected tree. */
  function TreeOf(node: RawNode, depth: nat, seen: set<nat>): Option<(Layout, set<nat>)>
    decreases node
  {
    if depth > MAX_DEPTH then None
    else match node
      case Malformed => None
      case Pane(pid) => if IsValidId(pid, seen) then Some((Leaf(pid.n), seen + {pid.n})) else None
      case Split(direction, ratio, first, second) =>
        if !IsValidSplit(direction, ratio) then None
        else
          var a := TreeOf(first, depth + 1, seen);
          if a.None? then None
          else
            var b := TreeOf(second, depth + 1, a.value.1);
            if b.None? then None
            else Some((Branch(if direction == "Horizontal" then 0 else 1, ratio, a.value.0, b.value.0), b.value.1))
  }

  /** The recursion of the source, which collects ids as it goes. */
  class TreeReader {
    var seen: set<nat>

    constructor ()
      ensures seen == {}
    {
      seen := {};
    }

    method Tree(node: RawNode, depth: nat) returns (layout: Option<Layout>)
      modifies this
      ensures var expected := TreeOf(node, depth, old(seen));
              if expected.None? then layout.None? else layout == Some(expected.value.0) && seen == expected.value.1
      decreases node
    {
      if depth > MAX_DEPTH {
        return None;
      }
      match node {
        case Malformed => return None;
        case Pane(pid) =>
          if !IsValidId(pid, seen) {
            return None;
          }
          seen := seen + {pid.n};
          return Some(Leaf(pid.n));
        case Split(direction, ratio, first, second) =>
          if !IsValidSplit(direction, ratio) {
            return None;
          }
          var a := Tree(first, depth + 1);
          if a.None? {
            return None;
          }
          var b := Tree(second, depth + 1);
          if b.None? {
            return None;
          }
          return Some(Branch(if direction == "Horizontal" then 0 else 1, ratio, a.value, b.value));
      }
    }
  }

  function Leaves(layout: Layout): seq<nat> {
    match layout
    case Leaf(pane) => [pane]
    case Branch(_, _, a, b) => Leaves(a) + Leaves(b)
  }

  function Height(layout: Layout): nat {
    match layout
    case Leaf(_) => 0
    case Branch(_, _, a, b) => 1 + if Height(a) > Height(b) then Height(a) else Height(b)
  }

  predicate Distinct(s: seq<nat>) {
    forall i, j | 0 <= i < j < |s| :: s[i] != s[j]
  }

  function ToSet(s: seq<nat>): set<nat> {
    set x | x in s
  }

  /** The Herdr tree a layout stands for. */
  function Original(layout: Layout): RawNode {
    match layout
    case Leaf(pane) => Pane(Id(pane))
    case Branch(axis, ratio, a, b) =>
      Split(if axis == 0 then "Horizontal" else "Vertical", ratio, Original(a), Original(b))
  }

  predicate IsSound(layout: Layout) {
    match layout
    case Leaf(pane) => pane < 0x1_0000_0000
    case Branch(axis, ratio, a, b) => axis <= 1 && 0.0 < ratio < 1.0 && IsSound(a) && IsSound(b)
  }

  predicate Apart(s: seq<nat>, seen: set<nat>) {
    forall x | x in s :: x !in seen
  }

  lemma DistinctAppend(s: seq<nat>, t: seq<nat>)
    ensures Distinct(s + t) <==> Distinct(s) && Distinct(t) && Apart(t, ToSet(s))
  {
    if Distinct(s + t) {
      forall i, j | 0 <= i < j < |s| ensures s[i] != s[j] {
        assert (s + t)[i] == s[i] && (s + t)[j] == s[j];
      }
      forall i, j | 0 <= i < j < |t| ensures t[i] != t[j] {
        assert (s + t)[|s| + i] == t[i] && (s + t)[|s| + j] == t[j];
      }
      forall i, j | 0 <= i < |s| && 0 <= j < |t| ensures s[i] != t[j] {
        assert (s + t)[i] == s[i] && (s + t)[|s| + j] == t[j];
      }
      assert forall j | 0 <= j < |t| :: t[j] !in ToSet(s);
    } else {
      var i, j :| 0 <= i < j < |s + t| && (s + t)[i] == (s + t)[j];
      if |s| <= i {
        assert t[i - |s|] == t[j - |s|];
      } else if j < |s| {
        assert s[i] == s[j];
      } else {
        assert s[i] == t[j - |s|] && s[i] in ToSet(s) && t[j - |s|] in t;
      }
    }
  }

  lemma ToSetAppend(s: seq<nat>, t: seq<nat>, seen: set<nat>)
    ensures ToSet(s + t) == ToSet(s) + ToSet(t)
    ensures Apart(s + t, seen) <==> Apart(s, seen) && Apart(t, seen)
    ensures Apart(t, seen) && Apart(t, ToSet(s)) ==> Apart(t, seen + ToSet(s))
    ensures seen + ToSet(s) + ToSet(t) == seen + ToSet(s + t)
  {
    assert forall x | x in s + t :: x in s || x in t;
    assert forall x | x in s || x in t :: x in s + t;
  }

  /** An accepted tree is the original: same nesting, axes, ratios and pane order;
      its ids are new, pairwise distinct and exactly the ones added. */
  lemma {:induction false} AcceptedIsFaithful(node: RawNode, depth: nat, seen: set<nat>)
    requires TreeOf(node, depth, seen).Some?
    ensures var (layout, after) := TreeOf(node, depth, seen).value;
            && Original(layout) == node
            && IsSound(layout) && depth + Height(layout) <= MAX_DEPTH
            && Distinct(Leaves(layout)) && Apart(Leaves(layout), seen)
            && after == seen + ToSet(Leaves(layout))
    decreases node
  {
    if node.Split? {
      AcceptedIsFaithful(node.first, depth + 1, seen);
      var a := TreeOf(node.first, depth + 1, seen).value;
      AcceptedIsFaithful(node.second, depth + 1, a.1);
      var b := TreeOf(node.second, depth + 1, a.1).value;
      DistinctAppend(Leaves(a.0), Leaves(b.0));
      ToSetAppend(Leaves(a.0), Leaves(b.0), seen);
    }
  }

  /** Every sound layout that is not too deep and repeats no id is accepted as itself. */
  lemma {:induction false} SoundIsAccepted(layout: Layout, depth: nat, seen: set<nat>)
    requires IsSound(layout) && depth + Height(layout) <= MAX_DEPTH
    requires Distinct(Leaves(layout)) && Apart(Leaves(layout), seen)
    ensures TreeOf(Original(layout), depth, seen) == Some((layout, seen + ToSet(Leaves(layout))))
    decreases layout
  {
    if layout.Branch? {
      var a, b := layout.a, layout.b;
      DistinctAppend(Leaves(a), Leaves(b));
      ToSetAppend(Leaves(a), Leaves(b), seen);
      SoundIsAccepted(a, depth + 1, seen);
      SoundIsAccepted(b, depth + 1, seen + ToSet(Leaves(a)));
    } else {
      assert layout.pane in Leaves(layout);
      assert ToSet([layout.pane]) == {layout.pane};
    }
  }

  predicate IsTreeFor(layout: Layout, node: RawNode, depth: nat, seen: set<nat>) {
    && Original(layout) == node && IsSound(layout) && depth + Height(layout) <= 64
    && Distinct(Leaves(layout)) && Apart(Leaves(layout), seen)
  }

  /** A node is accepted exactly when it is the tree of a sound layout of at most 64
      levels whose ids are distinct and new. */
  lemma {:induction false} AcceptedIff(node: RawNode, depth: nat, seen: set<nat>)
    ensures TreeOf(node, depth, seen).Some? <==> exists layout: Layout :: IsTreeFor(layout, node, depth, seen)
  {
    if TreeOf(node, depth, seen).Some? {
      AcceptedIsFaithful(node, depth, seen);
      assert IsTreeFor(TreeOf(node, depth, seen).value.0, node, depth, seen);
    }
    if layout: Layout :| IsTreeFor(layout, node, depth, seen) {
      SoundIsAccepted(layout, depth, seen);
    }
  }

  // ---- a tab ----

  datatype SessionRef = SessionRef(kind: string, agent: string, value: string)

  datatype RawRecord = RawRecord(key: string, cwd: string, session: Option<SessionRef>,
                                 agentName: Option<string>, caption: Option<string>)

  /** A JSON value looked up among pane ids. Python finds a number by its value, truth
      values included, and cannot look up a list or an object. */
  datatype RawFocus = Numeric(x: real) | OtherScalar | Unhashable

  /** `rootKey` is the text of the root pane's id, or of the focused one's. */
  datatype RawTab = RawTab(layout: RawNode, records: seq<RawRecord>, focused: RawFocus, rootKey: string,
                           name: Option<string>)

  datatype Record = Record(pane: nat, cwd: string, native: Option<(string, string)>,
                           name: Option<string>, caption: Option<string>)

  datatype Tab = Tab(tree: Layout, focus: nat, records: seq<Record>, name: Option<string>)

  /** The panes the records are for. */
  function RecordPanes(records: seq<Record>): set<nat> {
    set i | 0 <= i < |records| :: records[i].pane
  }

  /** The oldest format has no directory of its own; a missing active tab is the first. */
  datatype RawWorkspace = RawWorkspace(cwd: Option<string>, tabs: seq<RawTab>, activeTab: RawId, name: Option<string>)

  datatype Workspace = Workspace(name: string, cwd: string, activeTab: nat, tabs: seq<Tab>)

  /** Python compares numbers by value, and truth values are one and zero. */
  datatype RawVersion = NoVersion | Version(x: real) | NotNumeric

  predicate IsKnownVersion(version: RawVersion) {
    version.NoVersion? || (version.Version? && version.x in {0.0, 1.0, 2.0, 3.0})
  }

  /** Python's `or` on texts: an empty one counts as none. */
  function FirstText(a: Option<string>, b: Option<string>): Option<string> {
    if a.Some? && a.value != [] then a else b
  }

  datatype RawSnapshot = RawSnapshot(version: RawVersion, workspaces: seq<RawWorkspace>,
                                     active: Option<RawId>, selected: RawId)

  datatype Snapshot = Snapshot(activeWorkspace: int, workspaces: seq<Workspace>)

  predicate IsAgentName(s: string) {
    s != [] && forall c | c in s :: 'a' <= c <= 'z' || 'A' <= c <= 'Z' || '0' <= c <= '9' || c == '_' || c == '-'
  }

  datatype World = World(
    readKey: string -> Option<int>,
    isDirectory: string -> bool,
    isFile: string -> bool,
    lastName: string -> string,
    shellsOnly: bool)
  {
    predicate IsPath(path: string) {
      path != [] && path[0] == '/' && '\0' !in path && isDirectory(path)
    }

    /** The reference Luvus resumes by; anything else is left to a plain shell. */
    function NativeOf(session: Option<SessionRef>): Option<(string, string)> {
      if session.None? || shellsOnly then None
      else
        var r := session.value;
        if (r.kind == "id" || r.kind == "path") && SafeSessionId(r.value) && IsAgentName(r.agent) &&
           (r.kind != "path" || isFile(r.value))
        then Some((r.agent, r.value)) else None
    }

    function KeyOf(raw: RawRecord): int {
      if readKey(raw.key).Some? then readKey(raw.key).value else -1
    }

    function RecordOf(raw: RawRecord): Record
      requires KeyOf(raw) >= 0
    {
      Record(KeyOf(raw), raw.cwd, NativeOf(raw.session), FirstText(raw.agentName, raw.caption), raw.caption)
    }

    /** The records name exactly the panes of the layout. */
    predicate MatchesRecords(seen: set<nat>, records: seq<RawRecord>) {
      && (forall i | 0 <= i < |records| :: KeyOf(records[i]) in seen)
      && (forall x | x in seen :: exists i | 0 <= i < |records| :: KeyOf(records[i]) == x)
    }

    /** The pane in focus, if it is one of the tab's. */
    function FocusOf(focused: RawFocus, seen: set<nat>): Option<nat> {
      if focused.Numeric? && focused.x >= 0.0 && focused.x == focused.x.Floor as real && focused.x.Floor in seen
      then Some(focused.x.Floor) else None
    }

    predicate TabAccepted(raw: RawTab) {
      && raw.records != [] && !raw.focused.Unhashable?
      && TreeOf(raw.layout, 0, {}).Some?
      && MatchesRecords(TreeOf(raw.layout, 0, {}).value.1, raw.records)
      && forall i | 0 <= i < |raw.records| :: IsPath(raw.records[i].cwd)
    }

    predicate IsConverted(raw: RawTab, tab: Tab) {
      && TabAccepted(raw)
      && var (layout, seen) := TreeOf(raw.layout, 0, {}).value;
         && tab.tree == layout
         && |tab.records| == |raw.records|
         && (forall i | 0 <= i < |raw.records| ::
               KeyOf(raw.records[i]) >= 0 && tab.records[i] == RecordOf(raw.records[i]))
         && tab.name == raw.name
         && var focus := FocusOf(raw.focused, seen);
            tab.focus == if focus.Some? then focus.value else tab.records[0].pane
    }

    method ConvertTab(raw: RawTab) returns (tab: Option<Tab>)
      ensures tab.Some? <==> TabAccepted(raw)
      ensures tab.Some? ==> IsConverted(raw, tab.value)
    {
      if raw.records == [] {
        return None;
      }
      var reader := new TreeReader();
      var layout := reader.Tree(raw.layout, 0);
      if layout.None? || !MatchesRecords(reader.seen, raw.records) {
        return None;
      }
      var records: seq<Record> := [];
      for i := 0 to |raw.records|
        invariant |records| == i
        invariant forall j | 0 <= j < i ::
            IsPath(raw.records[j].cwd) && KeyOf(raw.records[j]) >= 0 && records[j] == RecordOf(raw.records[j])
      {
        if !IsPath(raw.records[i].cwd) {
          return None;
        }
        records := records + [RecordOf(raw.records[i])];
      }
      if raw.focused.Unhashable? {
        return None;
      }
      var focus := FocusOf(raw.focused, reader.seen);
      tab := Some(Tab(layout.value, if focus.Some? then focus.value else records[0].pane, records, raw.name));
    }

    /** A converted tab is the original one: the same tree, records for exactly its
        panes, at most 64 levels, and a focus that is one of them. */
    lemma {:induction false} TabIsFaithful(raw: RawTab, tab: Tab)
      requires IsConverted(raw, tab)
      ensures Original(tab.tree) == raw.layout && Height(tab.tree) <= MAX_DEPTH
      ensures Distinct(Leaves(tab.tree)) && tab.focus in Leaves(tab.tree)
      ensures ToSet(Leaves(tab.tree)) == RecordPanes(tab.records)
    {
      AcceptedIsFaithful(raw.layout, 0, {});
      var seen := TreeOf(raw.layout, 0, {}).value.1;
      assert seen == ToSet(Leaves(tab.tree));
      forall x: nat ensures x in seen <==> exists i | 0 <= i < |tab.records| :: tab.records[i].pane == x {
        if x in seen {
          var i :| 0 <= i < |raw.records| && KeyOf(raw.records[i]) == x;
          assert tab.records[i].pane == x;
        }
      }
      assert tab.focus in seen;
    }

    /** The records' keys read as numbers, and those numbers are the layout's panes. */
    predicate KeysAreLeaves(layout: Layout, records: seq<RawRecord>) {
      && (forall i | 0 <= i < |records| ::
            readKey(records[i].key).Some? && readKey(records[i].key).value in Leaves(layout))
      && (forall pane | pane in Leaves(layout) ::
            exists i | 0 <= i < |records| :: readKey(records[i].key) == Some(pane))
    }

    /** An existing directory, named from the root. */
    predicate IsPlace(path: string) {
      path != [] && path[0] == '/' && '\0' !in path && isDirectory(path)
    }

    lemma {:induction false} MatchesIffKeysAreLeaves(layout: Layout, records: seq<RawRecord>)
      ensures MatchesRecords(ToSet(Leaves(layout)), records) <==> KeysAreLeaves(layout, records)
    {
      var seen := ToSet(Leaves(layout));
      assert forall x: nat :: x in seen <==> x in Leaves(layout);
      if MatchesRecords(seen, records) {
        forall i | 0 <= i < |records|
          ensures readKey(records[i].key).Some? && readKey(records[i].key).value in Leaves(layout)
        {
          assert KeyOf(records[i]) in seen;
        }
        forall pane | pane in Leaves(layout)
          ensures exists i | 0 <= i < |records| :: readKey(records[i].key) == Some(pane)
        {
          assert pane in seen;
          var i :| 0 <= i < |records| && KeyOf(records[i]) == pane;
          assert readKey(records[i].key) == Some(pane);
        }
      }
      if KeysAreLeaves(layout, records) {
        forall x | x in seen ensures exists i | 0 <= i < |records| :: KeyOf(records[i]) == x {
          var i :| 0 <= i < |records| && readKey(records[i].key) == Some(x);
          assert KeyOf(records[i]) == x;
        }
      }
    }

    /** A tab is accepted exactly when it has panes, its tree is that of a sound layout of
        at most 64 levels with distinct ids, its records' keys are that layout's panes,
        each of them is in an existing directory, and its focus can be looked up. */
    lemma {:induction false} TabAcceptedIff(raw: RawTab)
      ensures TabAccepted(raw) <==>
              && raw.records != [] && !raw.focused.Unhashable?
              && (forall i | 0 <= i < |raw.records| :: IsPlace(raw.records[i].cwd))
              && exists layout: Layout :: IsTreeFor(layout, raw.layout, 0, {}) && KeysAreLeaves(layout, raw.records)
    {
      AcceptedIff(raw.layout, 0, {});
      if TreeOf(raw.layout, 0, {}).Some? {
        AcceptedIsFaithful(raw.layout, 0, {});
        var (layout, seen) := TreeOf(raw.layout, 0, {}).value;
        assert seen == ToSet(Leaves(layout));
        MatchesIffKeysAreLeaves(layout, raw.records);
        forall other: Layout | IsTreeFor(other, raw.layout, 0, {}) ensures other == layout {
          SoundIsAccepted(other, 0, {});
        }
        assert IsTreeFor(layout, raw.layout, 0, {});
      }
    }

    /** A converted tab keeps every record in its place, with its directory, its session
        where Luvus can resume it, and its names; its own name; and its focus, which falls
        to the first record only where it is none of the tab's panes. */
    lemma {:induction false} TabKeepsItsParts(raw: RawTab, tab: Tab, i: nat, focus: nat)
      requires IsConverted(raw, tab) && i < |raw.records|
      ensures |tab.records| == |raw.records|
      ensures Some(tab.records[i].pane as int) == readKey(raw.records[i].key)
      ensures tab.records[i].cwd == raw.records[i].cwd && tab.records[i].native == NativeOf(raw.records[i].session)
      ensures tab.records[i].caption == raw.records[i].caption
      ensures tab.records[i].name == if raw.records[i].agentName in {None, Some([])} then raw.records[i].caption
                                     else raw.records[i].agentName
      ensures tab.name == raw.name
      ensures raw.focused == Numeric(focus as real) && focus in Leaves(tab.tree) ==> tab.focus == focus
      ensures (forall pane | pane in Leaves(tab.tree) :: raw.focused != Numeric(pane as real)) ==>
                tab.focus == tab.records[0].pane
    {
      AcceptedIsFaithful(raw.layout, 0, {});
      assert KeyOf(raw.records[i]) >= 0;
    }

    /** A session reference is kept exactly if sessions are wanted, it is an id or the path
        of an existing file, a resume command would take it, and the agent's name is one
        word; and then it is the reference itself. */
    lemma {:induction false} NativeIff(session: Option<SessionRef>)
      ensures NativeOf(session).Some? <==>
              && session.Some? && !shellsOnly && SafeSessionId(session.value.value)
              && (session.value.kind == "id" || (session.value.kind == "path" && isFile(session.value.value)))
              && session.value.agent != []
              && forall i | 0 <= i < |session.value.agent| ::
                   var c := session.value.agent[i];
                   'a' <= c <= 'z' || 'A' <= c <= 'Z' || '0' <= c <= '9' || c == '_' || c == '-'
      ensures NativeOf(session).Some? ==> NativeOf(session).value == (session.value.agent, session.value.value)
    {
      if session.Some? {
        assert forall i | 0 <= i < |session.value.agent| :: session.value.agent[i] in session.value.agent;
      }
    }

    /** A native reference is one the resume command accepts. */
    lemma NativeIsResumable(session: Option<SessionRef>)
      requires NativeOf(session).Some?
      ensures !shellsOnly && SafeSessionId(NativeOf(session).value.1)
      ensures session.value.kind == "path" ==> isFile(NativeOf(session).value.1)
    {
    }

    // ---- the snapshot ----

    predicate IndexInto(index: RawId, n: nat) {
      index.Id? && 0 <= index.n < n
    }

    function RecordWithKey(records: seq<RawRecord>, key: string): Option<RawRecord> {
      if records == [] then None
      else if records[0].key == key then Some(records[0])
      else RecordWithKey(records[1..], key)
    }

    /** The workspace's directory, in the oldest format that of its first tab's root
        pane; the first record stands in for a missing one. */
    function RootOf(raw: RawWorkspace): Option<string> {
      if raw.cwd.Some? then raw.cwd
      else if raw.tabs == [] || raw.tabs[0].records == [] then None
      else
        var root := RecordWithKey(raw.tabs[0].records, raw.tabs[0].rootKey);
        Some(if root.Some? then root.value.cwd else raw.tabs[0].records[0].cwd)
    }

    function NameFor(custom: Option<string>, root: string): string {
      if custom.Some? && custom.value != [] then custom.value
      else if lastName(root) != [] then lastName(root)
      else root
    }

    predicate WorkspaceAccepted(raw: RawWorkspace) {
      && raw.tabs != [] && RootOf(raw).Some? && IsPath(RootOf(raw).value)
      && (forall i | 0 <= i < |raw.tabs| :: TabAccepted(raw.tabs[i]))
      && IndexInto(raw.activeTab, |raw.tabs|)
    }

    predicate IsConvertedWorkspace(raw: RawWorkspace, workspace: Workspace) {
      && RootOf(raw) == Some(workspace.cwd) && raw.activeTab == Id(workspace.activeTab)
      && workspace.name == NameFor(raw.name, workspace.cwd)
      && workspace.activeTab < |workspace.tabs| == |raw.tabs|
      && forall i | 0 <= i < |raw.tabs| :: IsConverted(raw.tabs[i], workspace.tabs[i])
    }

    method ConvertWorkspace(raw: RawWorkspace) returns (workspace: Option<Workspace>)
      ensures workspace.Some? <==> WorkspaceAccepted(raw)
      ensures workspace.Some? <==>
                && raw.tabs != [] && RootOf(raw).Some? && IsPlace(RootOf(raw).value)
                && (forall i | 0 <= i < |raw.tabs| :: TabAccepted(raw.tabs[i]))
                && raw.activeTab.Id? && 0 <= raw.activeTab.n < |raw.tabs|
      ensures workspace.Some? ==> IsConvertedWorkspace(raw, workspace.value)
    {
      var root := RootOf(raw);
      if raw.tabs == [] || root.None? || !IsPath(root.value) {
        return None;
      }
      var tabs: seq<Tab> := [];
      for i := 0 to |raw.tabs|
        invariant |tabs| == i
        invariant forall j | 0 <= j < i :: TabAccepted(raw.tabs[j]) && IsConverted(raw.tabs[j], tabs[j])
      {
        var tab := ConvertTab(raw.tabs[i]);
        if tab.None? {
          return None;
        }
        tabs := tabs + [tab.value];
      }
      if !IndexInto(raw.activeTab, |tabs|) {
        return None;
      }
      workspace := Some(Workspace(NameFor(raw.name, root.value), root.value, raw.activeTab.n, tabs));
    }

    lemma {:induction false} RecordWithKeyIsOne(records: seq<RawRecord>, key: string)
      ensures RecordWithKey(records, key).Some? ==>
                RecordWithKey(records, key).value in records && RecordWithKey(records, key).value.key == key
      decreases |records|
    {
      if records != [] && records[0].key != key {
        RecordWithKeyIsOne(records[1..], key);
      }
    }

    lemma {:induction false} FirstWithKey(records: seq<RawRecord>, key: string, k: nat)
      requires k < |records| && records[k].key == key && forall j | 0 <= j < k :: records[j].key != key
      ensures RecordWithKey(records, key) == Some(records[k])
      decreases |records|
    {
      if k > 0 {
        FirstWithKey(records[1..], key, k - 1);
      }
    }

    /** Its own name counts, then the last part of its directory, then all of that; its own
        directory counts, then that of the root pane of its first tab. */
    lemma {:induction false} WorkspaceKeepsNameAndRoot(raw: RawWorkspace, workspace: Workspace, k: nat)
      requires IsConvertedWorkspace(raw, workspace)
      ensures raw.name.Some? && raw.name.value != [] ==> workspace.name == raw.name.value
      ensures raw.name.None? || raw.name.value == [] ==>
                workspace.name == if lastName(workspace.cwd) != [] then lastName(workspace.cwd) else workspace.cwd
      ensures raw.cwd.Some? ==> workspace.cwd == raw.cwd.value
      ensures raw.cwd.None? && raw.tabs != [] && k < |raw.tabs[0].records| &&
              raw.tabs[0].records[k].key == raw.tabs[0].rootKey &&
              (forall j | 0 <= j < k :: raw.tabs[0].records[j].key != raw.tabs[0].rootKey) ==>
                workspace.cwd == raw.tabs[0].records[k].cwd
    {
      if raw.cwd.None? && raw.tabs != [] && k < |raw.tabs[0].records| &&
         raw.tabs[0].records[k].key == raw.tabs[0].rootKey &&
         (forall j | 0 <= j < k :: raw.tabs[0].records[j].key != raw.tabs[0].rootKey)
      {
        FirstWithKey(raw.tabs[0].records, raw.tabs[0].rootKey, k);
      }
    }

    /** A converted workspace has a name and an existing directory: its own, or one of
        its first tab's panes. */
    lemma {:induction false} WorkspaceHasNameAndPlace(raw: RawWorkspace, workspace: Workspace)
      requires WorkspaceAccepted(raw) && IsConvertedWorkspace(raw, workspace)
      ensures workspace.name != [] && IsPath(workspace.cwd)
      ensures raw.cwd.None? ==>
                exists i | 0 <= i < |raw.tabs[0].records| :: raw.tabs[0].records[i].cwd == workspace.cwd
    {
      if raw.cwd.None? {
        RecordWithKeyIsOne(raw.tabs[0].records, raw.tabs[0].rootKey);
      }
    }

    function ActiveOf(raw: RawSnapshot): RawId {
      if raw.active.Some? then raw.active.value else raw.selected
    }

    predicate SnapshotAccepted(raw: RawSnapshot) {
      && IsKnownVersion(raw.version)
      && (forall i | 0 <= i < |raw.workspaces| :: WorkspaceAccepted(raw.workspaces[i]))
      && ActiveOf(raw).Id?
      && (raw.workspaces != [] ==> IndexInto(ActiveOf(raw), |raw.workspaces|))
    }

    /** A snapshot is accepted exactly when everything in it is; each workspace is
        converted faithfully, and the active one exists unless there are none. */
    method ConvertSnapshot(raw: RawSnapshot) returns (snapshot: Option<Snapshot>)
      ensures snapshot.Some? <==> SnapshotAccepted(raw)
      ensures snapshot.Some? <==>
                && (raw.version.NoVersion? || raw.version in {Version(0.0), Version(1.0), Version(2.0), Version(3.0)})
                && (forall i | 0 <= i < |raw.workspaces| :: WorkspaceAccepted(raw.workspaces[i]))
                && var active := if raw.active.Some? then raw.active.value else raw.selected;
                   active.Id? && (raw.workspaces == [] || 0 <= active.n < |raw.workspaces|)
      ensures snapshot.Some? ==>
                && |snapshot.value.workspaces| == |raw.workspaces|
                && (forall i | 0 <= i < |raw.workspaces| ::
                      IsConvertedWorkspace(raw.workspaces[i], snapshot.value.workspaces[i]))
                && ActiveOf(raw) == Id(snapshot.value.activeWorkspace)
                && (raw.workspaces != [] ==> 0 <= snapshot.value.activeWorkspace < |snapshot.value.workspaces|)
    {
      if !IsKnownVersion(raw.version) {
        return None;
      }
      var workspaces: seq<Workspace> := [];
      for i := 0 to |raw.workspaces|
        invariant |workspaces| == i
        invariant forall j | 0 <= j < i ::
            WorkspaceAccepted(raw.workspaces[j]) && IsConvertedWorkspace(raw.workspaces[j], workspaces[j])
      {
        var workspace := ConvertWorkspace(raw.workspaces[i]);
        if workspace.None? {
          return None;
        }
        workspaces := workspaces + [workspace.value];
      }
      var active := ActiveOf(raw);
      if !active.Id? || (workspaces != [] && !(0 <= active.n < |workspaces|)) {
        return None;
      }
      snapshot := Some(Snapshot(active.n, workspaces));
    }
  }
}
