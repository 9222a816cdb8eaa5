/**
  The shared settings file (src/config.rs). Any number of named servers save to
  it, each from its own, possibly very old, copy. A save computes what its server
  changed, takes the file lock, reloads the newest document and applies the
  change and the optional explicit patch to that.

  The lock makes a save one atomic step. Whether the lock was obtained, and whether
  the replacement was written, is the environment's choice for each attempt.
*/
module ConfigStore {
  import opened JsonValue
  import opened Options
  import opened ConfigDelta

  /** How this build reads documents. `settle` decodes, normalizes and encodes
      again, and fails on a document that does not decode. */
  datatype Codec = Codec(settle: Value -> Option<Value>, fallback: Value)

  /** A settled document settles to itself. */
  ghost predicate Stable(codec: Codec) {
    forall v: Value :: codec.settle(v).Some? ==> codec.settle(codec.settle(v).value) == codec.settle(v)
  }

  datatype SaveRequest = SaveRequest(base: Value, desired: Value, explicit: Option<Value>)

  /** One call of the save, with what the lock and the file system did. */
  datatype Attempt = Attempt(request: SaveRequest, locked: bool, written: bool)

  /** The document a reader of the file sees; the defaults when there is none or
      it does not decode. */
  function Latest(codec: Codec, disk: Option<Value>): Value {
    if disk.Some? && codec.settle(disk.value).Some? then codec.settle(disk.value).value else codec.fallback
  }

  function Merged(codec: Codec, disk: Option<Value>, request: SaveRequest): Value {
    ApplyIfAny(ApplyIfAny(Latest(codec, disk), ValueDelta(request.base, request.desired)), request.explicit)
  }

  predicate IsNoOp(request: SaveRequest) {
    ValueDelta(request.base, request.desired).None? && request.explicit.None?
  }

  /** Whether the save reports success. */
  predicate Succeeds(codec: Codec, disk: Option<Value>, attempt: Attempt) {
    IsNoOp(attempt.request) ||
    (attempt.locked && attempt.written && codec.settle(Merged(codec, disk, attempt.request)).Some?)
  }

  function DiskAfter(codec: Codec, disk: Option<Value>, attempt: Attempt): Option<Value> {
    if !IsNoOp(attempt.request) && Succeeds(codec, disk, attempt)
    then codec.settle(Merged(codec, disk, attempt.request))
    else disk
  }

  /** Settling the document this attempt writes does not change what is read at `p`. */
  predicate KeptBySettling(codec: Codec, disk: Option<Value>, attempt: Attempt, p: Path) {
    var settled := codec.settle(Merged(codec, disk, attempt.request));
    settled.Some? ==> Observe(settled.value, p) == Observe(Merged(codec, disk, attempt.request), p)
  }

  /** When a save succeeds and what it leaves on disk. With nothing changed and nothing
      to record it succeeds whatever the lock does. Otherwise it succeeds exactly when the
      lock was held, the replacement was written, and the newest document, with the change
      and then the patch applied, settles. */
  lemma {:induction false} SaveOutcome(codec: Codec, disk: Option<Value>, attempt: Attempt)
    ensures attempt.request.base == attempt.request.desired && attempt.request.explicit.None? ==>
              Succeeds(codec, disk, attempt) && DiskAfter(codec, disk, attempt) == disk
    ensures attempt.request.base != attempt.request.desired || attempt.request.explicit.Some? ==>
              var decoded := if disk.Some? then codec.settle(disk.value) else None;
              var newest := if decoded.Some? then decoded.value else codec.fallback;
              var changed := ApplyIfAny(newest, ValueDelta(attempt.request.base, attempt.request.desired));
              var patched := if attempt.request.explicit.Some?
                             then ApplyDelta(changed, attempt.request.explicit.value) else changed;
              && (Succeeds(codec, disk, attempt) <==>
                  attempt.locked && attempt.written && codec.settle(patched).Some?)
              && DiskAfter(codec, disk, attempt) ==
                 if Succeeds(codec, disk, attempt) then codec.settle(patched) else disk
  {
    NoDeltaIffEqual(attempt.request.base, attempt.request.desired);
  }

  class ConfigFile {
    var disk: Option<Value>
    const codec: Codec

    constructor (codec: Codec, disk: Option<Value>)
      ensures this.codec == codec && this.disk == disk
    {
      this.codec := codec;
      this.disk := disk;
    }

    method Save(attempt: Attempt) returns (saved: bool)
      modifies this
      ensures saved == Succeeds(codec, old(disk), attempt)
      ensures disk == DiskAfter(codec, old(disk), attempt)
      ensures attempt.request.base == attempt.request.desired && attempt.request.explicit.None? ==>
                saved && disk == old(disk)
      ensures attempt.request.base != attempt.request.desired || attempt.request.explicit.Some? ==>
                var decoded := if old(disk).Some? then codec.settle(old(disk).value) else None;
                var newest := if decoded.Some? then decoded.value else codec.fallback;
                var changed := ApplyIfAny(newest, ValueDelta(attempt.request.base, attempt.request.desired));
                var patched := if attempt.request.explicit.Some?
                               then ApplyDelta(changed, attempt.request.explicit.value) else changed;
                && (saved <==> attempt.locked && attempt.written && codec.settle(patched).Some?)
                && disk == if saved then codec.settle(patched) else old(disk)
    {
      SaveOutcome(codec, disk, attempt);
      var delta := ComputeDelta(attempt.request.base, attempt.request.desired);
      if delta.None? && attempt.request.explicit.None? {
        return true;
      }
      if !attempt.locked {
        return false;
      }
      var latest := Latest(codec, disk);
      if delta.Some? {
        latest := ApplyDeltaTo(latest, delta.value);
      }
      if attempt.request.explicit.Some? {
        latest := ApplyDeltaTo(latest, attempt.request.explicit.value);
      }
      var merged := codec.settle(latest);
      if merged.None? || !attempt.written {
        return false;
      }
      disk := merged;
      return true;
    }
  }

  // ---- one save ----

  /** The server changed the setting at `p`, or was told to record it. */
  predicate Writes(request: SaveRequest, p: Path) {
    var delta := ValueDelta(request.base, request.desired);
    || (delta.Some? && Touches(delta.value, p))
    || (request.explicit.Some? && Touches(request.explicit.value, p))
  }

  /** What the save records at `p`; the explicit patch wins over the local change. */
  function Written(request: SaveRequest, p: Path): Value {
    if request.explicit.Some? && Touches(request.explicit.value, p)
    then Observe(request.explicit.value, p)
    else Observe(request.desired, p)
  }

  lemma {:induction false} SaveAt(codec: Codec, disk: Option<Value>, attempt: Attempt, p: Path)
    requires Stable(codec) && KeptBySettling(codec, disk, attempt, p)
    ensures Observe(Latest(codec, DiskAfter(codec, disk, attempt)), p) ==
            if Succeeds(codec, disk, attempt) && Writes(attempt.request, p)
            then Written(attempt.request, p)
            else Observe(Latest(codec, disk), p)
  {
    var request := attempt.request;
    if !IsNoOp(request) && Succeeds(codec, disk, attempt) {
      var latest := Latest(codec, disk);
      var delta := ValueDelta(request.base, request.desired);
      var local := ApplyIfAny(latest, delta);
      if delta.Some? {
        ApplyDeltaAt(latest, delta.value, p);
        ValueDeltaAt(request.base, request.desired, p);
      }
      if request.explicit.Some? {
        ApplyDeltaAt(local, request.explicit.value, p);
      }
    }
  }

  /** A server that did not change a setting leaves it as another server last
      wrote it, however old its own copy is. */
  lemma {:induction false} StaleServerKeepsNewerSetting(codec: Codec, disk: Option<Value>, attempt: Attempt, p: Path)
    requires Stable(codec) && KeptBySettling(codec, disk, attempt, p)
    requires SameAt(attempt.request.base, attempt.request.desired, p)
    requires attempt.request.explicit.Some? ==> !Touches(attempt.request.explicit.value, p)
    ensures Observe(Latest(codec, DiskAfter(codec, disk, attempt)), p) == Observe(Latest(codec, disk), p)
  {
    SaveAt(codec, disk, attempt, p);
    if ValueDelta(attempt.request.base, attempt.request.desired).Some? {
      UnchangedIsUntouched(attempt.request.base, attempt.request.desired, p);
    }
  }

  /** A change that did not reach the disk is in the next save from the same
      baseline: after its success the disk reads as the server's own copy at every
      path the server ever changed since that baseline. */
  lemma {:induction false} RetryPublishesEveryChange(codec: Codec, disk: Option<Value>, attempt: Attempt, p: Path)
    requires Stable(codec) && KeptBySettling(codec, disk, attempt, p)
    requires Succeeds(codec, disk, attempt)
    requires attempt.request.explicit.Some? ==> !Touches(attempt.request.explicit.value, p)
    requires Observe(attempt.request.base, p) != Observe(attempt.request.desired, p)
    ensures Observe(Latest(codec, DiskAfter(codec, disk, attempt)), p) == Observe(attempt.request.desired, p)
  {
    SaveAt(codec, disk, attempt, p);
    NoDeltaIffEqual(attempt.request.base, attempt.request.desired);
    ValueDeltaAt(attempt.request.base, attempt.request.desired, p);
  }

  // ---- whole runs ----

  /** The file after every attempt of the run, in the order the lock was taken. */
  function RunDisk(codec: Codec, disk: Option<Value>, run: seq<Attempt>): Option<Value> {
    if run == [] then disk else DiskAfter(codec, RunDisk(codec, disk, run[..|run| - 1]), run[|run| - 1])
  }

  predicate RunKeptBySettling(codec: Codec, disk: Option<Value>, run: seq<Attempt>, p: Path) {
    forall j | 0 <= j < |run| :: KeptBySettling(codec, RunDisk(codec, disk, run[..j]), run[j], p)
  }

  lemma {:induction false} PrefixKeptBySettling(codec: Codec, disk: Option<Value>, run: seq<Attempt>, p: Path)
    requires run != [] && RunKeptBySettling(codec, disk, run, p)
    ensures RunKeptBySettling(codec, disk, run[..|run| - 1], p)
  {
    forall j | 0 <= j < |run| - 1
      ensures KeptBySettling(codec, RunDisk(codec, disk, run[..|run| - 1][..j]), run[j], p)
    {
      assert run[..|run| - 1][..j] == run[..j];
    }
  }

  /** Attempt `i` of the run succeeded and recorded something at `p`. */
  predicate RecordedBy(codec: Codec, disk: Option<Value>, run: seq<Attempt>, i: nat, p: Path)
    requires i < |run|
  {
    Succeeds(codec, RunDisk(codec, disk, run[..i]), run[i]) && Writes(run[i].request, p)
  }

  lemma {:induction false} RecordedInPrefix(codec: Codec, disk: Option<Value>, run: seq<Attempt>, i: nat, p: Path)
    requires i < |run| - 1
    ensures RecordedBy(codec, disk, run[..|run| - 1], i, p) == RecordedBy(codec, disk, run, i, p)
  {
    assert run[..|run| - 1][..i] == run[..i];
  }

  /** Nothing after attempt `i` records anything at `p`. */
  predicate LastToRecord(codec: Codec, disk: Option<Value>, run: seq<Attempt>, i: nat, p: Path)
    requires i < |run|
  {
    RecordedBy(codec, disk, run, i, p) && forall j | i < j < |run| :: !RecordedBy(codec, disk, run, j, p)
  }

  lemma {:induction false} LastOfPrefix(codec: Codec, disk: Option<Value>, run: seq<Attempt>, i: nat, p: Path)
    requires i < |run| - 1 && LastToRecord(codec, disk, run, i, p)
    ensures LastToRecord(codec, disk, run[..|run| - 1], i, p) && !RecordedBy(codec, disk, run, |run| - 1, p)
  {
    RecordedInPrefix(codec, disk, run, i, p);
    var front := run[..|run| - 1];
    forall j | i < j < |front| ensures !RecordedBy(codec, disk, front, j, p) {
      RecordedInPrefix(codec, disk, run, j, p);
    }
  }

  /** No run of saves, from any baselines and in any order, loses an update: every
      path reads as the last successful save that wrote it recorded. */
  lemma {:induction false} NoLostUpdates(codec: Codec, disk: Option<Value>, run: seq<Attempt>, i: nat, p: Path)
    requires Stable(codec) && RunKeptBySettling(codec, disk, run, p)
    requires i < |run| && LastToRecord(codec, disk, run, i, p)
    ensures Observe(Latest(codec, RunDisk(codec, disk, run)), p) == Written(run[i].request, p)
    decreases |run|
  {
    var last := |run| - 1;
    PrefixKeptBySettling(codec, disk, run, p);
    SaveAt(codec, RunDisk(codec, disk, run[..last]), run[last], p);
    if i < last {
      LastOfPrefix(codec, disk, run, i, p);
      NoLostUpdates(codec, disk, run[..last], i, p);
    }
  }

  /** A path no successful save of the run wrote still reads as before the run. */
  lemma {:induction false} UnwrittenPathIsKept(codec: Codec, disk: Option<Value>, run: seq<Attempt>, p: Path)
    requires Stable(codec) && RunKeptBySettling(codec, disk, run, p)
    requires forall j | 0 <= j < |run| :: !RecordedBy(codec, disk, run, j, p)
    ensures Observe(Latest(codec, RunDisk(codec, disk, run)), p) == Observe(Latest(codec, disk), p)
    decreases |run|
  {
    if run != [] {
      var last := |run| - 1;
      PrefixKeptBySettling(codec, disk, run, p);
      SaveAt(codec, RunDisk(codec, disk, run[..last]), run[last], p);
      forall j | 0 <= j < last ensures !RecordedBy(codec, disk, run[..last], j, p) {
        RecordedInPrefix(codec, disk, run, j, p);
      }
      UnwrittenPathIsKept(codec, disk, run[..last], p);
      assert !RecordedBy(codec, disk, run, last, p);
    }
  }

  // ---- normalization ----

  const CONFIG_VERSION := 2
  const MAX_CONTEXT_LINES := 20
  const MIB := 1024 * 1024
  const SCROLLBACK_DEFAULT := 2000
  const SCROLLBACK_MIN := 200
  const SCROLLBACK_MAX := 20000
  const SCROLLBACK_BYTES_DEFAULT := 10 * MIB
  const SCROLLBACK_BYTES_MIN := MIB
  const SCROLLBACK_BYTES_MAX := 256 * MIB

  function Clamp(n: int, low: int, high: int): int {
    if n < low then low else if n > high then high else n
  }

  function LegacyScrollbackBytes(lines: nat): nat {
    if lines == SCROLLBACK_DEFAULT then SCROLLBACK_BYTES_DEFAULT
    else Clamp(Clamp(lines, SCROLLBACK_MIN, SCROLLBACK_MAX) * SCROLLBACK_BYTES_DEFAULT / 5000,
               SCROLLBACK_BYTES_MIN, SCROLLBACK_BYTES_MAX)
  }

  /** The byte budget is in range and grows with the lines, but for one dip: the old
      default has the whole default budget, up to 5,000 lines have less. */
  lemma {:induction false} LegacyBudgetGrowsIff(fewer: nat, more: nat)
    requires fewer <= more
    ensures SCROLLBACK_BYTES_MIN <= LegacyScrollbackBytes(fewer) <= SCROLLBACK_BYTES_MAX
    ensures LegacyScrollbackBytes(fewer) <= LegacyScrollbackBytes(more) <==>
            !(fewer == SCROLLBACK_DEFAULT && SCROLLBACK_DEFAULT < more < 5000)
  {
  }

  lemma OldDefaultDips()
    ensures LegacyScrollbackBytes(2001) < LegacyScrollbackBytes(2000) == 10 * MIB
  {
  }

  /** A decoded configuration: it has every field normalization reads, but for
      `scrollback_bytes`, which may be unset. */
  predicate ConfigShaped(v: Value) {
    && v.Object?
    && "version" in v.members && v.members["version"].Number? && v.members["version"].n >= 0
    && "keybindings" in v.members && v.members["keybindings"].Object?
    && (forall command | command in v.members["keybindings"].members ::
          v.members["keybindings"].members[command].String?)
    && "layout" in v.members && LayoutShaped(v.members["layout"])
  }

  predicate LayoutShaped(layout: Value) {
    && layout.Object?
    && "scrollback" in layout.members && layout.members["scrollback"].Number? && layout.members["scrollback"].n >= 0
    && "diff_context_lines" in layout.members && layout.members["diff_context_lines"].Number?
    && layout.members["diff_context_lines"].n >= 0
    && ("scrollback_bytes" in layout.members ==>
          layout.members["scrollback_bytes"].Number? && layout.members["scrollback_bytes"].n >= 0)
  }

  /** Version 2 gives `m` to Mission Control and `M` to the Switcher. */
  predicate KeepsBinding(command: string, key: string) {
    if key == "m" then command == "open_mission" else if key == "M" then command == "switcher" else true
  }

  function NormalizedKeybindings(version: int, bindings: map<string, Value>): map<string, Value>
    requires forall command | command in bindings :: bindings[command].String?
  {
    if version < CONFIG_VERSION
    then map command | command in bindings && KeepsBinding(command, bindings[command].s) :: bindings[command]
    else bindings
  }

  /** Migrating to version 2 leaves its two new keys to their owners and takes no
      other key away. */
  lemma {:induction false} NewKeysAreFree(v: Value, command: string, key: string)
    requires ConfigShaped(v) && v.members["version"].n < CONFIG_VERSION
    ensures var before, after := v.members["keybindings"].members, NormalizeConfig(v).members["keybindings"].members;
            && (command in after && after[command] == String("m") ==> command == "open_mission")
            && (command in after && after[command] == String("M") ==> command == "switcher")
            && (command in after ==> command in before && after[command] == before[command])
            && (command in before && before[command] == String(key) && key != "m" && key != "M" ==> command in after)
            && (command == "open_mission" && command in before && before[command] == String("m") ==> command in after)
            && (command == "switcher" && command in before && before[command] == String("M") ==> command in after)
  {
  }

  function NormalizedLayout(layout: Value): Value
    requires LayoutShaped(layout)
  {
    var legacy := Number(LegacyScrollbackBytes(layout.members["scrollback"].n));
    var filled := if "scrollback_bytes" in layout.members then layout.members
                  else layout.members["scrollback_bytes" := legacy];
    var lines := filled["diff_context_lines"].n;
    Object(filled["diff_context_lines" := Number(if lines < MAX_CONTEXT_LINES then lines else MAX_CONTEXT_LINES)])
  }

  function NormalizeConfig(v: Value): Value
    requires ConfigShaped(v)
  {
    var version := v.members["version"].n;
    var bindings := NormalizedKeybindings(version, v.members["keybindings"].members);
    Object(v.members["keybindings" := Object(bindings)]
                    ["layout" := NormalizedLayout(v.members["layout"])]
                    ["version" := Number(if version > CONFIG_VERSION then version else CONFIG_VERSION)])
  }

  /** Nothing is left to migrate or clamp. */
  predicate Normal(v: Value)
    requires ConfigShaped(v)
  {
    && v.members["version"].n >= CONFIG_VERSION
    && "scrollback_bytes" in v.members["layout"].members
    && v.members["layout"].members["diff_context_lines"].n <= MAX_CONTEXT_LINES
  }

  /** Normalizing ends in a normal document and changes nothing exactly when the
      document is normal already; so doing it again changes nothing. */
  lemma {:induction false} NormalizeSettles(v: Value)
    requires ConfigShaped(v)
    ensures ConfigShaped(NormalizeConfig(v)) && Normal(NormalizeConfig(v))
    ensures NormalizeConfig(v) == v <==> Normal(v)
    ensures NormalizeConfig(NormalizeConfig(v)) == NormalizeConfig(v)
  {
    NormalIsFixed(v);
    var once := NormalizeConfig(v);
    assert forall command | command in once.members["keybindings"].members ::
        command in v.members["keybindings"].members;
    NormalIsFixed(once);
  }

  lemma {:induction false} NormalIsFixed(v: Value)
    requires ConfigShaped(v)
    ensures NormalizeConfig(v) == v <==> Normal(v)
  {
    var once := NormalizeConfig(v);
    var layout := v.members["layout"];
    if Normal(v) {
      assert NormalizedLayout(layout).members == layout.members;
      assert once.members == v.members;
    } else {
      assert once.members["version"] != v.members["version"] || once.members["layout"] != layout by {
        if "scrollback_bytes" !in layout.members {
          assert "scrollback_bytes" in NormalizedLayout(layout).members;
        }
      }
    }
  }

  /** What each migrated setting becomes: the version at least 2, the context lines at
      most the limit, and a byte budget left as it is set or else made from the lines. */
  lemma {:induction false} MigratesExactly(v: Value)
    requires ConfigShaped(v)
    ensures var before, after := v.members["layout"].members, NormalizeConfig(v).members["layout"].members;
            && (v.members["version"].n >= 2 ==> NormalizeConfig(v).members["version"] == v.members["version"])
            && (v.members["version"].n < 2 ==> NormalizeConfig(v).members["version"] == Number(2))
            && (before["diff_context_lines"].n <= 20 ==> after["diff_context_lines"] == before["diff_context_lines"])
            && (before["diff_context_lines"].n > 20 ==> after["diff_context_lines"] == Number(20))
            && (if "scrollback_bytes" in before then after["scrollback_bytes"] == before["scrollback_bytes"]
                else after["scrollback_bytes"] == Number(LegacyScrollbackBytes(before["scrollback"].n)))
            && (v.members["version"].n >= 2 ==> NormalizeConfig(v).members["keybindings"] == v.members["keybindings"])
  {
  }

  /** The settings normalization may rewrite. */
  predicate Migrated(p: Path) {
    p != [] && (p[0] == "version" || p[0] == "keybindings" ||
                (p[0] == "layout" && |p| > 1 && (p[1] == "scrollback_bytes" || p[1] == "diff_context_lines")))
  }

  lemma {:induction false} NormalizeLeavesOtherSettings(v: Value, p: Path)
    requires ConfigShaped(v) && !Migrated(p)
    ensures Observe(NormalizeConfig(v), p) == Observe(v, p)
  {
    if p != [] && p[0] == "layout" && |p| > 1 {
      assert p[1..][0] == p[1];
    }
  }

  // ---- this build's decoding and encoding ----

  /** The line count is read for its migration and never written again. */
  function Encode(c: Value): Value
    requires ConfigShaped(c)
  {
    Object(c.members["layout" := Object(c.members["layout"].members - {"scrollback"})])
  }

  /** What is read from `v`, normalized and written, reads back the same, with the
      default in place of the line count. */
  predicate ReadsBack(decode: Value -> Option<Value>, v: Value) {
    decode(v).Some? && ConfigShaped(decode(v).value) ==>
      var c := NormalizeConfig(decode(v).value);
      decode(Encode(c)) == Some(WithLineCount(c, Number(SCROLLBACK_DEFAULT)))
  }

  /** Decoding gives configurations and reads them back as they were written. */
  ghost predicate Decodes(decode: Value -> Option<Value>) {
    && (forall v | decode(v).Some? :: ConfigShaped(decode(v).value))
    && (forall v {:trigger ReadsBack(decode, v)} :: ReadsBack(decode, v))
  }

  function WithLineCount(c: Value, lines: Value): Value
    requires ConfigShaped(c)
  {
    Object(c.members["layout" := Object(c.members["layout"].members["scrollback" := lines])])
  }

  /** Decode, normalize, encode. */
  function BuildCodec(decode: Value -> Option<Value>, fallback: Value): Codec {
    Codec((v: Value) =>
            if decode(v).Some? && ConfigShaped(decode(v).value)
            then Some(Encode(NormalizeConfig(decode(v).value))) else None,
          fallback)
  }

  lemma {:induction false} LineCountIsNotWritten(c: Value, lines: nat)
    requires ConfigShaped(c) && Normal(c)
    ensures var again := WithLineCount(c, Number(lines));
            ConfigShaped(again) && Normal(again) && Encode(again) == Encode(c)
  {
    var again := WithLineCount(c, Number(lines));
    assert again.members["layout"].members - {"scrollback"} == c.members["layout"].members - {"scrollback"};
    assert Encode(again).members == Encode(c).members;
  }

  lemma {:induction false} SettledIsStable(decode: Value -> Option<Value>, fallback: Value, v: Value)
    requires Decodes(decode) && BuildCodec(decode, fallback).settle(v).Some?
    ensures var settle := BuildCodec(decode, fallback).settle; settle(settle(v).value) == settle(v)
  {
    var c := NormalizeConfig(decode(v).value);
    assert ReadsBack(decode, v);
    NormalizeSettles(decode(v).value);
    LineCountIsNotWritten(c, SCROLLBACK_DEFAULT);
    NormalIsFixed(WithLineCount(c, Number(SCROLLBACK_DEFAULT)));
  }

  predicate IsLineCount(p: Path) {
    |p| > 1 && p[0] == "layout" && p[1] == "scrollback"
  }

  lemma {:induction false} EncodeLeavesOtherSettings(c: Value, p: Path)
    requires ConfigShaped(c) && !IsLineCount(p)
    ensures Observe(Encode(c), p) == Observe(c, p)
  {
    if p != [] && p[0] == "layout" && |p| > 1 {
      assert p[1..][0] == p[1];
    }
  }

  function MergedAt(codec: Codec, disk: Option<Value>, run: seq<Attempt>, j: nat): Value
    requires j < |run|
  {
    Merged(codec, RunDisk(codec, disk, run[..j]), run[j].request)
  }

  /** Decoding what the run is about to write does not change what is read at `p`. */
  predicate RunKeptByDecoding(decode: Value -> Option<Value>, codec: Codec, disk: Option<Value>, run: seq<Attempt>,
                              p: Path)
  {
    forall j | 0 <= j < |run| ::
      var merged := MergedAt(codec, disk, run, j);
      decode(merged).Some? ==> Observe(decode(merged).value, p) == Observe(merged, p)
  }

  /** Every configuration the run writes is normal, so nothing is migrated or clamped. */
  predicate WritesNormal(decode: Value -> Option<Value>, codec: Codec, disk: Option<Value>, run: seq<Attempt>) {
    forall j | 0 <= j < |run| ::
      var c := decode(MergedAt(codec, disk, run, j));
      c.Some? && ConfigShaped(c.value) ==> Normal(c.value)
  }

  /** No lost updates with this build's own normalization and encoding: for every
      setting that is not migrated, and for every setting at all in a run that writes
      only normal configurations, but for the line count that is never written. */
  lemma {:induction false} NoLostUpdatesWithNormalization(decode: Value -> Option<Value>, codec: Codec,
                                                          disk: Option<Value>, run: seq<Attempt>, i: nat, p: Path)
    requires Decodes(decode) && codec == BuildCodec(decode, codec.fallback) && !IsLineCount(p)
    requires !Migrated(p) || WritesNormal(decode, codec, disk, run)
    requires RunKeptByDecoding(decode, codec, disk, run, p)
    requires i < |run| && LastToRecord(codec, disk, run, i, p)
    ensures Observe(Latest(codec, RunDisk(codec, disk, run)), p) == Written(run[i].request, p)
  {
    forall v: Value | codec.settle(v).Some? ensures codec.settle(codec.settle(v).value) == codec.settle(v) {
      SettledIsStable(decode, codec.fallback, v);
    }
    forall j | 0 <= j < |run| ensures KeptBySettling(codec, RunDisk(codec, disk, run[..j]), run[j], p) {
      var merged := MergedAt(codec, disk, run, j);
      if decode(merged).Some? {
        var c := decode(merged).value;
        NormalizeSettles(c);
        if !Migrated(p) {
          NormalizeLeavesOtherSettings(c, p);
        }
        EncodeLeavesOtherSettings(NormalizeConfig(c), p);
      }
    }
    NoLostUpdates(codec, disk, run, i, p);
  }

  // ---- defaults for missing fields ----

  /** What decoding fills in: fields of a configuration, and of a layout. */
  datatype Defaults = Defaults(config: map<string, Value>, layout: map<string, Value>)
  {
    predicate Valid() {
      && "layout" in config && config["layout"].Object?
      && "scrollback" in layout && layout["scrollback"] == Number(SCROLLBACK_DEFAULT)
      && "scrollback_bytes" !in layout
    }

    /** A missing field reads as its default; a field of another type is refused. */
    function Decode(v: Value): Option<Value>
      requires Valid()
    {
      if !v.Object? then None
      else
        var filled := config + v.members;
        if !filled["layout"].Object? then None
        else
          var c := Object(filled["layout" := Object(layout + filled["layout"].members)]);
          if ConfigShaped(c) then Some(c) else None
    }

    function Decoder(): Value -> Option<Value>
      requires Valid()
    {
      (v: Value) => if Valid() then Decode(v) else None
    }

    lemma {:induction false} DecoderDecodes()
      requires Valid()
      ensures Decodes(Decoder())
    {
      forall v ensures ReadsBack(Decoder(), v) {
        if Decode(v).Some? {
          ReadsItsOwn(Decode(v).value);
        }
      }
    }

    lemma {:induction false} ReadsItsOwn(c: Value)
      requires Valid() && ConfigShaped(c) && config.Keys <= c.members.Keys
      requires layout.Keys <= c.members["layout"].members.Keys
      ensures ConfigShaped(NormalizeConfig(c))
      ensures Decode(Encode(NormalizeConfig(c))) ==
              Some(WithLineCount(NormalizeConfig(c), Number(SCROLLBACK_DEFAULT)))
    {
      NormalizeSettles(c);
      var n := NormalizeConfig(c);
      var e := Encode(n);
      var lines := Number(SCROLLBACK_DEFAULT);
      assert config + e.members == e.members;
      assert n.members["layout"].members.Keys >= layout.Keys;
      assert layout + e.members["layout"].members == n.members["layout"].members["scrollback" := lines];
      assert e.members["layout" := Object(n.members["layout"].members["scrollback" := lines])] ==
             WithLineCount(n, lines).members;
      assert ConfigShaped(WithLineCount(n, lines));
    }

    /** A missing field reads as its default, at the top and inside the layout, and a
        field that is there is not replaced. */
    lemma {:induction false} MissingReadsDefault(v: Value, k: string)
      requires Valid() && Decode(v).Some? && k != "layout"
      ensures k !in Members(v) && k in config ==>
                k in Decode(v).value.members && Decode(v).value.members[k] == config[k]
      ensures k in Members(v) ==> k in Decode(v).value.members && Decode(v).value.members[k] == Members(v)[k]
      ensures var held := if "layout" in Members(v) then Members(Members(v)["layout"]) else config["layout"].members;
              var decoded := Decode(v).value.members["layout"].members;
              if k in held then k in decoded && decoded[k] == held[k]
              else if k in layout then k in decoded && decoded[k] == layout[k] else k !in decoded
    {
    }

    /** A missing setting at `p` is filled in: by itself or with a section above it. */
    predicate HasDefault(p: Path) {
      p != [] && p[0] in config &&
      (p[0] == "layout" && |p| > 1 ==> p[1] in layout || p[1] in Members(config["layout"]))
    }

    /** A setting that is there, and one that has no default, reads the same after
        decoding. */
    lemma {:induction false} DecodingKeeps(v: Value, p: Path)
      requires Valid() && Decode(v).Some? && (!Observe(v, p).Null? || !HasDefault(p))
      ensures Observe(Decode(v).value, p) == Observe(v, p)
    {
      if |p| > 1 && p[0] == "layout" {
        assert p[1..][0] == p[1];
      }
    }
  }

  /** No save of the run leaves the setting out or makes it null. */
  predicate AlwaysHeld(codec: Codec, disk: Option<Value>, run: seq<Attempt>, p: Path) {
    forall j | 0 <= j < |run| :: !Observe(MergedAt(codec, disk, run, j), p).Null?
  }

  lemma {:induction false} HeldIsKeptByDecoding(defaults: Defaults, codec: Codec, disk: Option<Value>,
                                                run: seq<Attempt>, p: Path)
    requires defaults.Valid() && (AlwaysHeld(codec, disk, run, p) || !defaults.HasDefault(p))
    ensures RunKeptByDecoding(defaults.Decoder(), codec, disk, run, p)
  {
    forall j | 0 <= j < |run| && defaults.Decode(MergedAt(codec, disk, run, j)).Some?
      ensures Observe(defaults.Decode(MergedAt(codec, disk, run, j)).value, p) ==
              Observe(MergedAt(codec, disk, run, j), p)
    {
      defaults.DecodingKeeps(MergedAt(codec, disk, run, j), p);
    }
  }

  /** With missing fields filled in from defaults and everything migrated, the last save
      that wrote a setting is what is read: of every setting without a default, and of
      one with a default in a run that never leaves it out. */
  lemma {:induction false} NoLostUpdatesWithDefaults(defaults: Defaults, codec: Codec, disk: Option<Value>,
                                                     run: seq<Attempt>, i: nat, p: Path)
    requires defaults.Valid() && codec == BuildCodec(defaults.Decoder(), codec.fallback)
    requires !IsLineCount(p) && (AlwaysHeld(codec, disk, run, p) || !defaults.HasDefault(p))
    requires !Migrated(p) || WritesNormal(defaults.Decoder(), codec, disk, run)
    requires i < |run| && LastToRecord(codec, disk, run, i, p)
    ensures Observe(Latest(codec, RunDisk(codec, disk, run)), p) == Written(run[i].request, p)
  {
    defaults.DecoderDecodes();
    HeldIsKeptByDecoding(defaults, codec, disk, run, p);
    NoLostUpdatesWithNormalization(defaults.Decoder(), codec, disk, run, i, p);
  }
}
