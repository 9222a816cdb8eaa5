/**
  Recursive deltas between settings documents (src/config.rs).

  `ApplyDelta` is JSON Merge Patch (RFC 7396, section 2) except that a member the
  target lacks is inserted verbatim. Its whole behaviour, read path by path, is
  one law (`ApplyDeltaAt`): a path the delta touches reads as the delta says,
  every other path reads as before. The algebra below follows from it.
*/
module ConfigDelta {
  import opened JsonValue
  import opened Options

  // ---- applying a delta ----

  function ApplyDelta(target: Value, delta: Value): Value
    decreases delta
  {
    if !delta.Object? then
      delta
    else
      var held := Members(target);
      var patch := delta.members;
      Object(map k | k in held.Keys + patch.Keys && !(k in patch && patch[k].Null?) ::
               if k !in patch then held[k]
               else if k in held then ApplyDelta(held[k], patch[k])
               else patch[k])
  }

  /** The rewriting loop: one member of the delta at a time, in any order. */
  method ApplyDeltaTo(target: Value, delta: Value) returns (updated: Value)
    ensures updated == ApplyDelta(target, delta)
    decreases delta
  {
    if !delta.Object? {
      return delta;
    }
    var held := Members(target);
    var members := held;
    var pending := delta.members.Keys;
    while pending != {}
      invariant pending <= delta.members.Keys
      invariant forall k | k in members :: k in held || (k in delta.members && k !in pending)
      invariant forall k | k in delta.members.Keys - pending ::
          if delta.members[k].Null? then k !in members
          else k in members && members[k] ==
               if k in held then ApplyDelta(held[k], delta.members[k]) else delta.members[k]
      invariant forall k | k in held && (k !in delta.members || k in pending) :: k in members && members[k] == held[k]
      decreases pending
    {
      var key :| key in pending;
      var value := delta.members[key];
      if value.Null? {
        members := members - {key};
      } else if key in members {
        var current := ApplyDeltaTo(members[key], value);
        members := members[key := current];
      } else {
        members := members[key := value];
      }
      pending := pending - {key};
    }
    updated := Object(members);
    assert members == ApplyDelta(target, delta).members;
  }

  /** The delta decides what is read at `p`. */
  predicate Touches(delta: Value, p: Path) {
    p == [] || !delta.Object? || (p[0] in delta.members && Touches(delta.members[p[0]], p[1..]))
  }

  lemma {:induction false} UntouchedReadsNothing(delta: Value, p: Path)
    ensures !Touches(delta, p) ==> Observe(delta, p) == Null
  {
    if p != [] && p[0] in Members(delta) {
      UntouchedReadsNothing(Members(delta)[p[0]], p[1..]);
    }
  }

  lemma {:induction false} ApplyDeltaAt(target: Value, delta: Value, p: Path)
    ensures Observe(ApplyDelta(target, delta), p) ==
            if Touches(delta, p) then Observe(delta, p) else Observe(target, p)
    decreases p
  {
    if p != [] && p[0] in Members(delta) {
      var k := p[0];
      if k in Members(target) {
        ApplyDeltaAt(Members(target)[k], delta.members[k], p[1..]);
      } else {
        UntouchedReadsNothing(delta.members[k], p[1..]);
      }
    }
  }

  // ---- relation to RFC 7396, section 2 ----

  /** The RFC's MergePatch. An undefined target is not an object, like `Null`. */
  function MergePatch(target: Value, patch: Value): Value
    decreases patch
  {
    if !patch.Object? then
      patch
    else
      var held := Members(target);
      Object(map k | k in held.Keys + patch.members.Keys && !(k in patch.members && patch.members[k].Null?) ::
               if k !in patch.members then held[k]
               else MergePatch(if k in held then held[k] else Null, patch.members[k]))
  }

  /** Everything the delta inserts verbatim into this target is free of nulls. */
  predicate InsertsNullFree(target: Value, delta: Value)
    decreases delta
  {
    delta.Object? ==>
      forall k | k in delta.members && !delta.members[k].Null? ::
        if k in Members(target) then InsertsNullFree(Members(target)[k], delta.members[k])
        else NoNullMembers(delta.members[k])
  }

  lemma {:induction false} MergePatchIntoNothing(patch: Value)
    ensures MergePatch(Null, patch) == Strip(patch)
    decreases patch
  {
    if patch.Object? {
      forall k | k in patch.members ensures MergePatch(Null, patch.members[k]) == Strip(patch.members[k]) {
        MergePatchIntoNothing(patch.members[k]);
      }
      assert MergePatch(Null, patch).members == Strip(patch).members;
    }
  }

  lemma {:induction false} MergePatchAt(target: Value, patch: Value, p: Path)
    ensures Observe(MergePatch(target, patch), p) ==
            if Touches(patch, p) then Observe(patch, p) else Observe(target, p)
    decreases p
  {
    if p != [] && p[0] in Members(patch) {
      var k := p[0];
      MergePatchAt(if k in Members(target) then Members(target)[k] else Null, patch.members[k], p[1..]);
    }
  }

  /** Same document as the RFC's up to null and absent; the very same document
      exactly when nothing with nulls is inserted. */
  lemma {:induction false} AgreesWithMergePatch(target: Value, delta: Value)
    ensures Strip(ApplyDelta(target, delta)) == Strip(MergePatch(target, delta))
    ensures ApplyDelta(target, delta) == MergePatch(target, delta) <==> InsertsNullFree(target, delta)
  {
    forall p: Path ensures Observe(ApplyDelta(target, delta), p) == Observe(MergePatch(target, delta), p) {
      ApplyDeltaAt(target, delta, p);
      MergePatchAt(target, delta, p);
    }
    ObservationsDetermineStrip(ApplyDelta(target, delta), MergePatch(target, delta));
    EqualsMergePatchIff(target, delta);
  }

  lemma {:induction false} EqualsMergePatchIff(target: Value, delta: Value)
    ensures ApplyDelta(target, delta) == MergePatch(target, delta) <==> InsertsNullFree(target, delta)
    decreases delta
  {
    if delta.Object? {
      var ours, theirs := ApplyDelta(target, delta).members, MergePatch(target, delta).members;
      assert ours.Keys == theirs.Keys;
      forall k | k in delta.members && !delta.members[k].Null?
        ensures ours[k] == theirs[k] <==>
                if k in Members(target) then InsertsNullFree(Members(target)[k], delta.members[k])
                else NoNullMembers(delta.members[k])
      {
        if k in Members(target) {
          EqualsMergePatchIff(Members(target)[k], delta.members[k]);
        } else {
          MergePatchIntoNothing(delta.members[k]);
          StripFixesExactlyNullFree(delta.members[k]);
        }
      }
      SameMapsIff(ours, theirs);
      assert forall k | k in ours && !(k in delta.members) :: ours[k] == theirs[k];
    }
  }

  lemma SameMapsIff(m: map<string, Value>, n: map<string, Value>)
    requires m.Keys == n.Keys
    ensures m == n <==> forall k | k in m :: m[k] == n[k]
  {
    if forall k | k in m :: m[k] == n[k] {
      assert m == n;
    }
  }

  /** Setting `b` to null inside an absent `a`: the code keeps the null, the RFC drops it. */
  lemma NullInsideAbsentSection(a: string, b: string)
    ensures var delta := Object(map[a := Object(map[b := Null])]);
            && ApplyDelta(EMPTY_OBJECT, delta) == delta
            && MergePatch(EMPTY_OBJECT, delta) == Object(map[a := EMPTY_OBJECT])
            && ApplyDelta(delta, delta) == Object(map[a := EMPTY_OBJECT])
  {
    var inner := Object(map[b := Null]);
    var delta := Object(map[a := inner]);
    assert ApplyDelta(EMPTY_OBJECT, delta).members == delta.members;
    assert MergePatch(Null, inner).members == map[];
    assert MergePatch(EMPTY_OBJECT, delta).members == map[a := EMPTY_OBJECT];
    assert ApplyDelta(inner, inner).members == map[];
    assert ApplyDelta(delta, delta).members == map[a := EMPTY_OBJECT];
  }

  // ---- applying a delta twice ----

  lemma {:induction false} ApplyToItself(delta: Value)
    ensures ApplyDelta(delta, delta) == Strip(delta)
    decreases delta
  {
    if delta.Object? {
      forall k | k in delta.members ensures ApplyDelta(delta.members[k], delta.members[k]) == Strip(delta.members[k]) {
        ApplyToItself(delta.members[k]);
      }
      assert ApplyDelta(delta, delta).members == Strip(delta).members;
    }
  }

  lemma {:induction false} TwiceIsOnce(target: Value, delta: Value)
    ensures Strip(ApplyDelta(ApplyDelta(target, delta), delta)) == Strip(ApplyDelta(target, delta))
    ensures ApplyDelta(ApplyDelta(target, delta), delta) == ApplyDelta(target, delta) <==>
            InsertsNullFree(target, delta)
  {
    var once := ApplyDelta(target, delta);
    forall p: Path ensures Observe(ApplyDelta(once, delta), p) == Observe(once, p) {
      ApplyDeltaAt(once, delta, p);
      ApplyDeltaAt(target, delta, p);
    }
    ObservationsDetermineStrip(ApplyDelta(once, delta), once);
    TwiceEqualsOnceIff(target, delta);
  }

  lemma {:induction false} TwiceEqualsOnceIff(target: Value, delta: Value)
    ensures ApplyDelta(ApplyDelta(target, delta), delta) == ApplyDelta(target, delta) <==>
            InsertsNullFree(target, delta)
    decreases delta
  {
    if delta.Object? {
      var once := ApplyDelta(target, delta);
      var twice := ApplyDelta(once, delta).members;
      assert once.members.Keys == twice.Keys;
      forall k | k in delta.members && !delta.members[k].Null?
        ensures twice[k] == once.members[k] <==>
                if k in Members(target) then InsertsNullFree(Members(target)[k], delta.members[k])
                else NoNullMembers(delta.members[k])
      {
        if k in Members(target) {
          TwiceEqualsOnceIff(Members(target)[k], delta.members[k]);
        } else {
          ApplyToItself(delta.members[k]);
          StripFixesExactlyNullFree(delta.members[k]);
        }
      }
      SameMapsIff(twice, once.members);
    }
  }

  // ---- two deltas in either order ----

  /** The two deltas share only members on which they say the same, where two
      objects say the same when their own shared members do. */
  predicate Agree(d1: Value, d2: Value)
    decreases d1
  {
    if d1.Object? && d2.Object? then
      forall k | k in d1.members && k in d2.members :: Agree(d1.members[k], d2.members[k])
    else
      d1 == d2
  }

  lemma {:induction false} AgreeAt(d1: Value, d2: Value, p: Path)
    requires Agree(d1, d2) && Touches(d1, p) && Touches(d2, p)
    ensures Observe(d1, p) == Observe(d2, p)
    decreases p
  {
    if p != [] && d1.Object? && d2.Object? {
      AgreeAt(d1.members[p[0]], d2.members[p[0]], p[1..]);
    }
  }

  lemma {:induction false} Disagreement(d1: Value, d2: Value) returns (p: Path)
    requires !Agree(d1, d2)
    ensures Touches(d1, p) && Touches(d2, p) && Observe(d1, p) != Observe(d2, p)
    decreases d1
  {
    if d1.Object? && d2.Object? {
      var k :| k in d1.members && k in d2.members && !Agree(d1.members[k], d2.members[k]);
      var rest := Disagreement(d1.members[k], d2.members[k]);
      p := [k] + rest;
      ObserveMember(d1, k, rest);
      ObserveMember(d2, k, rest);
      assert p[1..] == rest;
    } else {
      p := [];
    }
  }

  /** For every target, the order of two deltas is immaterial exactly when they agree. */
  lemma {:induction false} CommuteIffAgree(target: Value, d1: Value, d2: Value)
    ensures Strip(ApplyDelta(ApplyDelta(target, d1), d2)) == Strip(ApplyDelta(ApplyDelta(target, d2), d1)) <==>
            Agree(d1, d2)
  {
    var a, b := ApplyDelta(ApplyDelta(target, d1), d2), ApplyDelta(ApplyDelta(target, d2), d1);
    forall p: Path
      ensures Observe(a, p) == if Touches(d2, p) then Observe(d2, p) else
                               if Touches(d1, p) then Observe(d1, p) else Observe(target, p)
      ensures Observe(b, p) == if Touches(d1, p) then Observe(d1, p) else
                               if Touches(d2, p) then Observe(d2, p) else Observe(target, p)
    {
      ApplyDeltaAt(ApplyDelta(target, d1), d2, p);
      ApplyDeltaAt(ApplyDelta(target, d2), d1, p);
      ApplyDeltaAt(target, d1, p);
      ApplyDeltaAt(target, d2, p);
    }
    SameStripIffSameObservations(a, b);
    if Agree(d1, d2) {
      forall p: Path ensures Observe(a, p) == Observe(b, p) {
        if Touches(d1, p) && Touches(d2, p) {
          AgreeAt(d1, d2, p);
        }
      }
    } else {
      var p := Disagreement(d1, d2);
      assert Observe(a, p) != Observe(b, p);
    }
  }

  /** Two agreeing objects that reach the target verbatim: neither brings a null
      the other lacks. */
  predicate NoLoneNulls(d1: Value, d2: Value)
    requires d1.Object? && d2.Object?
    decreases d1
  {
    forall k | k in d1.members.Keys + d2.members.Keys ::
      if k !in d1.members then !d2.members[k].Null?
      else if k !in d2.members then !d1.members[k].Null?
      else d1.members[k].Object? && d2.members[k].Object? ==> NoLoneNulls(d1.members[k], d2.members[k])
  }

  /** As `NoLoneNulls`, wherever a shared object is missing from the target. */
  predicate CommutesExactly(target: Value, d1: Value, d2: Value)
    decreases d1
  {
    d1.Object? && d2.Object? ==>
      forall k | k in d1.members && k in d2.members && d1.members[k].Object? && d2.members[k].Object? ::
        if k in Members(target) then CommutesExactly(Members(target)[k], d1.members[k], d2.members[k])
        else NoLoneNulls(d1.members[k], d2.members[k])
  }

  lemma {:induction false} VerbatimCommuteIff(d1: Value, d2: Value)
    requires d1.Object? && d2.Object? && Agree(d1, d2)
    ensures ApplyDelta(d1, d2) == ApplyDelta(d2, d1) <==> NoLoneNulls(d1, d2)
    decreases d1
  {
    var a, b := ApplyDelta(d1, d2).members, ApplyDelta(d2, d1).members;
    forall k | k in d1.members && k in d2.members && d1.members[k].Object? && d2.members[k].Object?
      ensures a[k] == b[k] <==> NoLoneNulls(d1.members[k], d2.members[k])
    {
      VerbatimCommuteIff(d1.members[k], d2.members[k]);
    }
    if NoLoneNulls(d1, d2) {
      assert a.Keys == b.Keys;
      assert a == b;
    } else {
      var k :| k in d1.members.Keys + d2.members.Keys && !(
          if k !in d1.members then !d2.members[k].Null?
          else if k !in d2.members then !d1.members[k].Null?
          else d1.members[k].Object? && d2.members[k].Object? ==> NoLoneNulls(d1.members[k], d2.members[k]));
      assert (k in a) != (k in b) || a[k] != b[k];
    }
  }

  /** For agreeing deltas: the two orders give the very same document exactly when
      no shared object is inserted with a null only one of them has. */
  lemma {:induction false} ExactCommuteIff(target: Value, d1: Value, d2: Value)
    requires Agree(d1, d2)
    ensures ApplyDelta(ApplyDelta(target, d1), d2) == ApplyDelta(ApplyDelta(target, d2), d1) <==>
            CommutesExactly(target, d1, d2)
    decreases d1
  {
    if d1.Object? && d2.Object? {
      var a := ApplyDelta(ApplyDelta(target, d1), d2).members;
      var b := ApplyDelta(ApplyDelta(target, d2), d1).members;
      assert a.Keys == b.Keys;
      forall k | k in d1.members && k in d2.members && d1.members[k].Object? && d2.members[k].Object?
        ensures a[k] == b[k] <==>
                if k in Members(target) then CommutesExactly(Members(target)[k], d1.members[k], d2.members[k])
                else NoLoneNulls(d1.members[k], d2.members[k])
      {
        if k in Members(target) {
          ExactCommuteIff(Members(target)[k], d1.members[k], d2.members[k]);
        } else {
          VerbatimCommuteIff(d1.members[k], d2.members[k]);
        }
      }
      SameMapsIff(a, b);
    }
  }

  /** The target already holds every object both deltas edit. */
  predicate HoldsShared(target: Value, d1: Value, d2: Value)
    decreases d1
  {
    d1.Object? && d2.Object? ==>
      forall k | k in d1.members && k in d2.members && d1.members[k].Object? && d2.members[k].Object? ::
        k in Members(target) && HoldsShared(Members(target)[k], d1.members[k], d2.members[k])
  }

  /** Edits of sections the target already has commute exactly. */
  lemma {:induction false} HeldSectionsCommuteExactly(target: Value, d1: Value, d2: Value)
    requires Agree(d1, d2) && HoldsShared(target, d1, d2)
    ensures ApplyDelta(ApplyDelta(target, d1), d2) == ApplyDelta(ApplyDelta(target, d2), d1)
  {
    HoldsSharedCommutes(target, d1, d2);
    ExactCommuteIff(target, d1, d2);
  }

  lemma {:induction false} HoldsSharedCommutes(target: Value, d1: Value, d2: Value)
    requires HoldsShared(target, d1, d2)
    ensures CommutesExactly(target, d1, d2)
    decreases d1
  {
    if d1.Object? && d2.Object? {
      forall k | k in d1.members && k in d2.members && d1.members[k].Object? && d2.members[k].Object?
        ensures CommutesExactly(Members(target)[k], d1.members[k], d2.members[k])
      {
        HoldsSharedCommutes(Members(target)[k], d1.members[k], d2.members[k]);
      }
    }
  }

  /** Two edits of an absent section, one of them a null: the order shows. */
  lemma AbsentSectionShowsOrder(a: string, b: string, c: string, v: Value)
    requires b != c && !v.Null?
    ensures var d1, d2 := Object(map[a := Object(map[b := Null])]), Object(map[a := Object(map[c := v])]);
            && Agree(d1, d2)
            && ApplyDelta(ApplyDelta(EMPTY_OBJECT, d1), d2) != ApplyDelta(ApplyDelta(EMPTY_OBJECT, d2), d1)
  {
    var d1, d2 := Object(map[a := Object(map[b := Null])]), Object(map[a := Object(map[c := v])]);
    assert !NoLoneNulls(d1.members[a], d2.members[a]) by {
      assert b in d1.members[a].members.Keys + d2.members[a].members.Keys;
    }
    ExactCommuteIff(EMPTY_OBJECT, d1, d2);
  }

  // ---- computing a delta ----

  function ValueDelta(base: Value, desired: Value): Option<Value>
    decreases desired
  {
    if base.Object? && desired.Object? then
      var b, d := base.members, desired.members;
      var delta := map k | k in b.Keys + d.Keys && (k in b && k in d ==> ValueDelta(b[k], d[k]).Some?) ::
          if k !in d then Null else if k in b then ValueDelta(b[k], d[k]).value else d[k];
      if delta == map[] then None else Some(Object(delta))
    else if base == desired then
      None
    else
      Some(desired)
  }

  /** The two filling loops: removed members first, then changed and added ones. */
  method ComputeDelta(base: Value, desired: Value) returns (delta: Option<Value>)
    ensures delta == ValueDelta(base, desired)
    decreases desired
  {
    if !base.Object? || !desired.Object? {
      return if base == desired then None else Some(desired);
    }
    var b, d := base.members, desired.members;
    var changes: map<string, Value> := map[];
    var pending := b.Keys;
    while pending != {}
      invariant pending <= b.Keys
      invariant changes.Keys == b.Keys - pending - d.Keys
      invariant forall k | k in changes :: changes[k] == Null
      decreases pending
    {
      var key :| key in pending;
      if key !in d {
        changes := changes[key := Null];
      }
      pending := pending - {key};
    }
    pending := d.Keys;
    while pending != {}
      invariant pending <= d.Keys
      invariant forall k :: k in changes <==>
          || (k in b && k !in d)
          || (k in d && k !in pending && (k in b ==> ValueDelta(b[k], d[k]).Some?))
      invariant forall k | k in changes ::
          changes[k] == (if k !in d then Null else if k in b then ValueDelta(b[k], d[k]).value else d[k])
      decreases pending
    {
      var key :| key in pending;
      if key in b {
        var inner := ComputeDelta(b[key], d[key]);
        if inner.Some? {
          changes := changes[key := inner.value];
        }
      } else {
        changes := changes[key := d[key]];
      }
      pending := pending - {key};
    }
    ghost var expected := map k | k in b.Keys + d.Keys && (k in b && k in d ==> ValueDelta(b[k], d[k]).Some?) ::
        if k !in d then Null else if k in b then ValueDelta(b[k], d[k]).value else d[k];
    assert changes == expected;
    delta := if changes == map[] then None else Some(Object(changes));
  }

  /** No delta is produced exactly when nothing changed. */
  lemma {:induction false} NoDeltaIffEqual(base: Value, desired: Value)
    ensures ValueDelta(base, desired) == None <==> base == desired
    decreases desired
  {
    if base.Object? && desired.Object? {
      var b, d := base.members, desired.members;
      forall k | k in b && k in d ensures ValueDelta(b[k], d[k]) == None <==> b[k] == d[k] {
        NoDeltaIffEqual(b[k], d[k]);
      }
      var delta := map k | k in b.Keys + d.Keys && (k in b && k in d ==> ValueDelta(b[k], d[k]).Some?) ::
          if k !in d then Null else if k in b then ValueDelta(b[k], d[k]).value else d[k];
      if b == d {
        assert delta == map[];
      } else if k :| k in b.Keys + d.Keys && (k in b && k in d ==> b[k] != d[k]) {
        assert k in delta;
      }
    }
  }

  /** Reads of a computed delta: a touched path reads as in `desired`, and on an
      untouched one `base` and `desired` already read the same. */
  lemma {:induction false} ValueDeltaAt(base: Value, desired: Value, p: Path)
    requires ValueDelta(base, desired).Some?
    ensures var delta := ValueDelta(base, desired).value;
            if Touches(delta, p) then Observe(delta, p) == Observe(desired, p)
            else Observe(base, p) == Observe(desired, p)
    decreases p
  {
    var delta := ValueDelta(base, desired).value;
    if p != [] {
      var k, rest := p[0], p[1..];
      if base.Object? && desired.Object? {
        var b, d := base.members, desired.members;
        if k in b && k in d {
          NoDeltaIffEqual(b[k], d[k]);
          if ValueDelta(b[k], d[k]).Some? {
            ValueDeltaAt(b[k], d[k], rest);
          }
        } else if k in d {
          UntouchedReadsNothing(d[k], rest);
        } else if k in b {
          assert delta.members[k] == Null;
          assert Touches(Null, rest) && Observe(Null, rest) == Null;
        } else {
          assert k !in delta.members;
        }
      } else {
        UntouchedReadsNothing(desired, p);
      }
    }
  }

  /** The very document `desired` is restored: no changed member of it is a null,
      except one that `base` holds as the same null. */
  predicate RestoresExactly(base: Value, desired: Value)
    decreases desired
  {
    desired.Object? ==>
      forall k | k in desired.members ::
        if k in Members(base) then
          base.members[k] == desired.members[k] ||
          (!desired.members[k].Null? && RestoresExactly(base.members[k], desired.members[k]))
        else
          !desired.members[k].Null?
  }

  function ApplyIfAny(target: Value, delta: Option<Value>): Value {
    if delta.Some? then ApplyDelta(target, delta.value) else target
  }

  /** Applying the delta to its own base gives `desired` up to null and absent,
      and exactly `desired` if and only if `RestoresExactly`. */
  lemma {:induction false} DeltaRoundTrip(base: Value, desired: Value)
    ensures Strip(ApplyIfAny(base, ValueDelta(base, desired))) == Strip(desired)
    ensures ApplyIfAny(base, ValueDelta(base, desired)) == desired <==> RestoresExactly(base, desired)
    ensures NoNullMembers(desired) ==> ApplyIfAny(base, ValueDelta(base, desired)) == desired
  {
    NoDeltaIffEqual(base, desired);
    if ValueDelta(base, desired).Some? {
      var restored := ApplyDelta(base, ValueDelta(base, desired).value);
      forall p: Path ensures Observe(restored, p) == Observe(desired, p) {
        ApplyDeltaAt(base, ValueDelta(base, desired).value, p);
        ValueDeltaAt(base, desired, p);
      }
      ObservationsDetermineStrip(restored, desired);
    }
    RestoredIff(base, desired);
    if NoNullMembers(desired) {
      NullFreeRestores(base, desired);
    }
  }

  lemma {:induction false} NullFreeRestores(base: Value, desired: Value)
    requires NoNullMembers(desired)
    ensures RestoresExactly(base, desired)
    decreases desired
  {
    if desired.Object? {
      forall k | k in desired.members && k in Members(base)
        ensures RestoresExactly(base.members[k], desired.members[k])
      {
        NullFreeRestores(base.members[k], desired.members[k]);
      }
    }
  }

  /** A new null member is not restored. */
  lemma NewNullIsLost(k: string)
    ensures var desired := Object(map[k := Null]);
            ApplyIfAny(EMPTY_OBJECT, ValueDelta(EMPTY_OBJECT, desired)) == EMPTY_OBJECT != desired
  {
    var desired := Object(map[k := Null]);
    assert k in desired.members && desired != EMPTY_OBJECT;
    NoDeltaIffEqual(EMPTY_OBJECT, desired);
    var delta := ValueDelta(EMPTY_OBJECT, desired).value;
    assert ApplyDelta(EMPTY_OBJECT, delta).members == map[];
  }

  lemma {:induction false} SelfRestores(v: Value)
    ensures RestoresExactly(v, v)
  {
  }

  lemma {:induction false} RestoredIff(base: Value, desired: Value)
    ensures ApplyIfAny(base, ValueDelta(base, desired)) == desired <==> RestoresExactly(base, desired)
    decreases desired
  {
    NoDeltaIffEqual(base, desired);
    if base == desired {
      SelfRestores(base);
    } else if desired.Object? {
      var delta := ValueDelta(base, desired).value;
      var restored := ApplyDelta(base, delta).members;
      forall k: string
        ensures k !in desired.members ==> k !in restored
        ensures k in desired.members ==>
          ((k in restored && restored[k] == desired.members[k]) <==>
           if k in Members(base) then
             base.members[k] == desired.members[k] ||
             (!desired.members[k].Null? && RestoresExactly(base.members[k], desired.members[k]))
           else !desired.members[k].Null?)
      {
        if k in desired.members && k in Members(base) {
          NoDeltaIffEqual(base.members[k], desired.members[k]);
          RestoredIff(base.members[k], desired.members[k]);
        }
      }
      if RestoresExactly(base, desired) {
        assert restored == desired.members;
      }
    }
  }

  /** Both documents lead through objects to `p` and hold the same thing there. */
  predicate SameAt(base: Value, desired: Value, p: Path) {
    if p == [] then
      base == desired
    else
      && base.Object? && desired.Object?
      && (p[0] in base.members <==> p[0] in desired.members)
      && (p[0] in base.members ==> SameAt(base.members[p[0]], desired.members[p[0]], p[1..]))
  }

  /** A setting the server did not change is not in its delta. */
  lemma {:induction false} UnchangedIsUntouched(base: Value, desired: Value, p: Path)
    requires SameAt(base, desired, p) && ValueDelta(base, desired).Some?
    ensures !Touches(ValueDelta(base, desired).value, p)
    decreases p
  {
    NoDeltaIffEqual(base, desired);
    var k, rest := p[0], p[1..];
    if k in base.members && ValueDelta(base.members[k], desired.members[k]).Some? {
      UnchangedIsUntouched(base.members[k], desired.members[k], rest);
    }
  }

  // ---- composing explicit patches before they are written ----

  /** Folding a newer explicit patch into an older, not yet written one
      (src/app/config_persistence.rs). Nulls are kept: they delete. */
  function MergeExplicit(older: Value, newer: Value): Value
    decreases newer
  {
    if older.Object? && newer.Object? then
      Object(map k | k in older.members.Keys + newer.members.Keys ::
               if k !in newer.members then older.members[k]
               else if k in older.members then MergeExplicit(older.members[k], newer.members[k])
               else newer.members[k])
    else
      newer
  }

  /** No leaf of the older patch (a deletion, say) is followed by an edit inside it. */
  predicate Composes(older: Value, newer: Value)
    decreases newer
  {
    newer.Object? ==>
      older.Object? &&
      forall k | k in older.members && k in newer.members :: Composes(older.members[k], newer.members[k])
  }

  lemma {:induction false} MergeExplicitAt(older: Value, newer: Value, p: Path)
    requires Composes(older, newer)
    ensures Touches(MergeExplicit(older, newer), p) == (Touches(newer, p) || Touches(older, p))
    ensures Observe(MergeExplicit(older, newer), p) ==
            if Touches(newer, p) then Observe(newer, p) else Observe(older, p)
    decreases p
  {
    if p != [] && older.Object? && newer.Object? && p[0] in newer.members {
      if p[0] in older.members {
        MergeExplicitAt(older.members[p[0]], newer.members[p[0]], p[1..]);
      } else {
        UntouchedReadsNothing(newer.members[p[0]], p[1..]);
      }
    }
  }

  /** A string that is not among the given ones. */
  lemma {:induction false} FreshKey(keys: set<string>) returns (k: string)
    ensures k !in keys
  {
    var rest := keys;
    k := "";
    while rest != {}
      invariant rest <= keys
      invariant forall s | s in keys - rest :: |s| < |k|
      decreases rest
    {
      var s :| s in rest;
      if |k| <= |s| {
        k := s + "x";
      }
      rest := rest - {s};
    }
    assert keys - rest == keys;
  }

  /** An older leaf under a newer edit: on a target with one more member there,
      the composed patch keeps that member and the two patches in turn drop it. */
  lemma {:induction false} ComposedPatchDiffers(older: Value, newer: Value) returns (target: Value, p: Path)
    requires !Composes(older, newer)
    ensures Observe(ApplyDelta(target, MergeExplicit(older, newer)), p) !=
            Observe(ApplyDelta(ApplyDelta(target, older), newer), p)
    decreases newer
  {
    if !older.Object? {
      var k := FreshKey(newer.members.Keys);
      target, p := Object(map[k := Bool(true)]), [k];
      ObserveMember(target, k, []);
      assert [k] + [] == [k];
      ApplyDeltaAt(target, newer, p);
      ApplyDeltaAt(ApplyDelta(target, older), newer, p);
    } else {
      var k :| k in older.members && k in newer.members && !Composes(older.members[k], newer.members[k]);
      var inner, rest := ComposedPatchDiffers(older.members[k], newer.members[k]);
      target, p := Object(map[k := inner]), [k] + rest;
      ObserveMember(ApplyDelta(target, MergeExplicit(older, newer)), k, rest);
      ObserveMember(ApplyDelta(ApplyDelta(target, older), newer), k, rest);
      assert newer.members[k].Object?;
      OneMemberDeeper(target, older, newer, k, inner);
    }
  }

  lemma OneMemberDeeper(target: Value, older: Value, newer: Value, k: string, inner: Value)
    requires older.Object? && newer.Object? && k in older.members && k in newer.members
    requires newer.members[k].Object? && target == Object(map[k := inner])
    ensures k in Members(ApplyDelta(target, MergeExplicit(older, newer)))
    ensures Members(ApplyDelta(target, MergeExplicit(older, newer)))[k] ==
            ApplyDelta(inner, MergeExplicit(older.members[k], newer.members[k]))
    ensures k in Members(ApplyDelta(ApplyDelta(target, older), newer))
    ensures forall p: Path ::
              Observe(Members(ApplyDelta(ApplyDelta(target, older), newer))[k], p) ==
              Observe(ApplyDelta(ApplyDelta(inner, older.members[k]), newer.members[k]), p)
  {
    var first := ApplyDelta(target, older);
    if older.members[k].Null? {
      forall p: Path
        ensures Observe(newer.members[k], p) == Observe(ApplyDelta(Null, newer.members[k]), p)
      {
        ApplyDeltaAt(Null, newer.members[k], p);
        UntouchedReadsNothing(newer.members[k], p);
      }
    } else {
      assert first.members[k] == ApplyDelta(inner, older.members[k]);
    }
  }

  /** Writing the composed patch equals writing both patches in turn, on every
      target, exactly when no newer edit lies inside a leaf of the older patch. */
  lemma {:induction false} ComposedPatchIff(older: Value, newer: Value)
    ensures Composes(older, newer) <==>
            forall target: Value ::
              Strip(ApplyDelta(target, MergeExplicit(older, newer))) ==
              Strip(ApplyDelta(ApplyDelta(target, older), newer))
  {
    if Composes(older, newer) {
      forall target: Value
        ensures Strip(ApplyDelta(target, MergeExplicit(older, newer))) ==
                Strip(ApplyDelta(ApplyDelta(target, older), newer))
      {
        var a, b := ApplyDelta(target, MergeExplicit(older, newer)), ApplyDelta(ApplyDelta(target, older), newer);
        forall p: Path ensures Observe(a, p) == Observe(b, p) {
          MergeExplicitAt(older, newer, p);
          ApplyDeltaAt(target, MergeExplicit(older, newer), p);
          ApplyDeltaAt(ApplyDelta(target, older), newer, p);
          ApplyDeltaAt(target, older, p);
        }
        ObservationsDetermineStrip(a, b);
      }
    } else {
      var target, p := ComposedPatchDiffers(older, newer);
      SameStripIffSameObservations(ApplyDelta(target, MergeExplicit(older, newer)),
                                   ApplyDelta(ApplyDelta(target, older), newer));
    }
  }

  /** Deleting a section and then setting `c` in it: folded into one patch, the
      deletion is lost and an old member survives. */
  lemma DeletionIsLost(a: string, b: string, c: string, v: Value)
    requires b != c && !v.Null?
    ensures var older, newer := Object(map[a := Null]), Object(map[a := Object(map[c := v])]);
            var target := Object(map[a := Object(map[b := v])]);
            && Observe(ApplyDelta(target, MergeExplicit(older, newer)), [a, b]) == Observe(v, [])
            && Observe(ApplyDelta(ApplyDelta(target, older), newer), [a, b]) == Null
  {
    var older, newer := Object(map[a := Null]), Object(map[a := Object(map[c := v])]);
    var target := Object(map[a := Object(map[b := v])]);
    assert [a, b][1..] == [b] && [b][1..] == [];
    assert MergeExplicit(older, newer).members == newer.members;
    ApplyDeltaAt(target, MergeExplicit(older, newer), [a, b]);
    ApplyDeltaAt(ApplyDelta(target, older), newer, [a, b]);
    ApplyDeltaAt(target, older, [a, b]);
  }
}
