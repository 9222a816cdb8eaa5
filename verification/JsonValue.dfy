/**
  JSON documents as the settings code sees them. Arrays are atomic values: no
  operation of the settings code looks inside one.

  A member holding `null` and a missing member mean the same to an optional
  setting, so documents are compared by what can be read at each path
  (`Observe`). `Strip` is the normal form of that comparison.
*/
module JsonValue {
  /** Integers and floating-point numbers are distinct, as in serde_json. */
  datatype Value =
    | Null
    | Bool(b: bool)
    | Number(n: int)
    | Float(x: real)
    | String(s: string)
    | Array(items: seq<Value>)
    | Object(members: map<string, Value>)

  type Path = seq<string>

  const EMPTY_OBJECT: Value := Object(map[])

  /** The members of an object; any other value has none. */
  function Members(v: Value): map<string, Value> {
    if v.Object? then v.members else map[]
  }

  /** What is found at a path: a leaf, the bare fact that an object is there, or
      `Null` when the path leads nowhere. */
  function Observe(v: Value, p: Path): Value {
    if p == [] then
      if v.Object? then EMPTY_OBJECT else v
    else if p[0] in Members(v) then
      Observe(Members(v)[p[0]], p[1..])
    else
      Null
  }

  /** Drops every `null` member, at every depth of objects. */
  function Strip(v: Value): Value {
    if v.Object? then
      Object(map k | k in v.members && !v.members[k].Null? :: Strip(v.members[k]))
    else
      v
  }

  /** No object inside `v` (outside arrays) has a `null` member. */
  predicate NoNullMembers(v: Value) {
    v.Object? ==> forall k | k in v.members :: !v.members[k].Null? && NoNullMembers(v.members[k])
  }

  /** No path tells the two documents apart. */
  ghost predicate SameObservations(v: Value, w: Value) {
    forall p: Path :: Observe(v, p) == Observe(w, p)
  }

  lemma ObserveMember(v: Value, k: string, p: Path)
    ensures Observe(v, [k] + p) == if k in Members(v) then Observe(Members(v)[k], p) else Null
  {
    assert ([k] + p)[0] == k && ([k] + p)[1..] == p;
  }

  lemma {:induction false} StripObserve(v: Value, p: Path)
    ensures Observe(Strip(v), p) == Observe(v, p)
    decreases p
  {
    if p != [] && p[0] in Members(v) {
      StripObserve(Members(v)[p[0]], p[1..]);
      if Members(v)[p[0]].Null? && p[1..] != [] {
        assert Observe(Null, p[1..]) == Null;
      }
    }
  }

  lemma {:induction false} ObservationsDetermineStrip(v: Value, w: Value)
    requires SameObservations(v, w)
    ensures Strip(v) == Strip(w)
    decreases v
  {
    assert Observe(v, []) == Observe(w, []);
    if v.Object? {
      forall k: string
        ensures (k in v.members && !v.members[k].Null?) == (k in w.members && !w.members[k].Null?)
        ensures k in v.members && !v.members[k].Null? ==> Strip(v.members[k]) == Strip(w.members[k])
      {
        assert Observe(v, [k]) == Observe(w, [k]);
        ObserveMember(v, k, []);
        ObserveMember(w, k, []);
        assert [k] + [] == [k];
        if k in v.members && !v.members[k].Null? {
          forall p: Path ensures Observe(v.members[k], p) == Observe(w.members[k], p) {
            ObserveMember(v, k, p);
            ObserveMember(w, k, p);
            assert Observe(v, [k] + p) == Observe(w, [k] + p);
          }
          ObservationsDetermineStrip(v.members[k], w.members[k]);
        }
      }
    }
  }

  /** Two documents have the same normal form exactly when no path tells them apart. */
  lemma {:induction false} SameStripIffSameObservations(v: Value, w: Value)
    ensures Strip(v) == Strip(w) <==> SameObservations(v, w)
  {
    if Strip(v) == Strip(w) {
      forall p: Path ensures Observe(v, p) == Observe(w, p) {
        StripObserve(v, p);
        StripObserve(w, p);
      }
    }
    if SameObservations(v, w) {
      ObservationsDetermineStrip(v, w);
    }
  }

  lemma {:induction false} StripFixesExactlyNullFree(v: Value)
    ensures Strip(v) == v <==> NoNullMembers(v)
    decreases v
  {
    if v.Object? {
      forall k | k in v.members ensures Strip(v.members[k]) == v.members[k] <==> NoNullMembers(v.members[k]) {
        StripFixesExactlyNullFree(v.members[k]);
      }
      var s := Strip(v).members;
      if NoNullMembers(v) {
        assert s == v.members;
      } else {
        var k :| k in v.members && (v.members[k].Null? || !NoNullMembers(v.members[k]));
        assert k !in s || s[k] != v.members[k];
      }
    }
  }
}
