/**
  Looking for an agent's name as a standalone word (`contains_agent_word` in
  src/detect.rs). The code inspects only matches that do not overlap, left to
  right; the intent is any occurrence with a boundary on both sides.
*/
module WordSearch {
  import opened Text

  /** Path separators and dots do not end a word here. */
  predicate IsBoundary(alphanumeric: CharClass, c: char) {
    !alphanumeric(c) && c != '.' && c != '/' && c != '\\'
  }

  predicate OccursAt(hay: string, needle: string, i: nat) {
    i + |needle| <= |hay| && hay[i..i + |needle|] == needle
  }

  predicate IsBoundedAt(alphanumeric: CharClass, hay: string, needle: string, i: nat)
    requires i + |needle| <= |hay|
  {
    && (i == 0 || IsBoundary(alphanumeric, hay[i - 1]))
    && (i + |needle| == |hay| || IsBoundary(alphanumeric, hay[i + |needle|]))
  }

  /** Some match from `from` on is bounded; after a match the search goes on behind it. */
  predicate SearchFrom(alphanumeric: CharClass, hay: string, needle: string, from: nat)
    decreases if from <= |hay| then |hay| + 1 - from else 0
  {
    from + |needle| <= |hay| &&
    if OccursAt(hay, needle, from) then
      IsBoundedAt(alphanumeric, hay, needle, from) ||
      SearchFrom(alphanumeric, hay, needle, from + if needle == [] then 1 else |needle|)
    else
      SearchFrom(alphanumeric, hay, needle, from + 1)
  }

  predicate ContainsAgentWord(alphanumeric: CharClass, hay: string, needle: string) {
    SearchFrom(alphanumeric, hay, needle, 0)
  }

  predicate IsStandaloneAt(alphanumeric: CharClass, hay: string, needle: string, i: nat) {
    OccursAt(hay, needle, i) && IsBoundedAt(alphanumeric, hay, needle, i)
  }

  /** The intent: any bounded occurrence, overlapping others or not. */
  predicate HasStandaloneWord(alphanumeric: CharClass, hay: string, needle: string) {
    exists i | 0 <= i <= |hay| :: IsStandaloneAt(alphanumeric, hay, needle, i)
  }

  /** Moved right by `d`, the needle overlaps itself, right behind a boundary of its own. */
  predicate HidesItselfAt(alphanumeric: CharClass, needle: string, d: nat) {
    0 < d < |needle| && needle[d..] == needle[..|needle| - d] && IsBoundary(alphanumeric, needle[d - 1])
  }

  predicate HidesItself(alphanumeric: CharClass, needle: string) {
    exists d | 0 <= d < |needle| :: HidesItselfAt(alphanumeric, needle, d)
  }

  lemma {:induction false} FoundIsStandalone(alphanumeric: CharClass, hay: string, needle: string, from: nat)
    requires SearchFrom(alphanumeric, hay, needle, from)
    ensures HasStandaloneWord(alphanumeric, hay, needle)
    decreases if from <= |hay| then |hay| + 1 - from else 0
  {
    if OccursAt(hay, needle, from) {
      if IsBoundedAt(alphanumeric, hay, needle, from) {
        assert IsStandaloneAt(alphanumeric, hay, needle, from);
      } else {
        FoundIsStandalone(alphanumeric, hay, needle, from + if needle == [] then 1 else |needle|);
      }
    } else {
      FoundIsStandalone(alphanumeric, hay, needle, from + 1);
    }
  }

  lemma {:induction false} OverlapHides(alphanumeric: CharClass, hay: string, needle: string, i: nat, j: nat)
    requires OccursAt(hay, needle, i) && IsStandaloneAt(alphanumeric, hay, needle, j)
    requires i < j < i + |needle|
    ensures HidesItselfAt(alphanumeric, needle, j - i)
  {
    var d := j - i;
    assert needle[d..] == hay[j..i + |needle|];
    assert needle[..|needle| - d] == hay[j..j + |needle|][..|needle| - d] == hay[j..i + |needle|];
    assert hay[j - 1] == hay[i..i + |needle|][d - 1];
  }

  lemma {:induction false} StandaloneIsFound(alphanumeric: CharClass, hay: string, needle: string, from: nat, j: nat)
    requires !HidesItself(alphanumeric, needle)
    requires from <= j && IsStandaloneAt(alphanumeric, hay, needle, j)
    ensures SearchFrom(alphanumeric, hay, needle, from)
    decreases j - from
  {
    if from < j {
      if OccursAt(hay, needle, from) {
        if j < from + |needle| {
          OverlapHides(alphanumeric, hay, needle, from, j);
        } else {
          StandaloneIsFound(alphanumeric, hay, needle, from + if needle == [] then 1 else |needle|, j);
        }
      } else {
        StandaloneIsFound(alphanumeric, hay, needle, from + 1, j);
      }
    }
  }

  /** A text in which a needle that hides itself is overlooked: its only bounded
      occurrence lies behind an unbounded one that overlaps it. */
  function Overlooked(needle: string, d: nat, letter: char): string
    requires d < |needle|
  {
    [letter] + (needle[..d] + needle)
  }

  lemma {:induction false} OverlookedIsMissed(alphanumeric: CharClass, needle: string, d: nat, letter: char)
    requires HidesItselfAt(alphanumeric, needle, d) && alphanumeric(letter) && letter != needle[0]
    ensures HasStandaloneWord(alphanumeric, Overlooked(needle, d, letter), needle)
    ensures !ContainsAgentWord(alphanumeric, Overlooked(needle, d, letter), needle)
  {
    var hay := Overlooked(needle, d, letter);
    var n := |needle|;
    assert hay[1 + d..1 + d + n] == needle;
    assert hay[d] == needle[d - 1];
    assert IsStandaloneAt(alphanumeric, hay, needle, 1 + d);
    assert !OccursAt(hay, needle, 0) by {
      assert hay[0..n][0] == letter;
    }
    assert hay[1..1 + n] == needle by {
      assert hay[1..1 + n] == needle[..d] + needle[..n - d];
      assert needle == needle[..d] + needle[d..];
    }
    assert !SearchFrom(alphanumeric, hay, needle, 1 + n);
    assert !SearchFrom(alphanumeric, hay, needle, 1);
  }

  /** The search meets its intent on every text exactly for the needles that do not
      hide themselves. Two letters are needed to put one before any needle. */
  lemma {:induction false} SearchIsExactIff(alphanumeric: CharClass, needle: string)
    requires alphanumeric('x') && alphanumeric('y')
    ensures !HidesItself(alphanumeric, needle) <==>
            forall hay: string ::
              ContainsAgentWord(alphanumeric, hay, needle) == HasStandaloneWord(alphanumeric, hay, needle)
  {
    if HidesItself(alphanumeric, needle) {
      var d :| 0 <= d < |needle| && HidesItselfAt(alphanumeric, needle, d);
      OverlookedIsMissed(alphanumeric, needle, d, if needle[0] == 'x' then 'y' else 'x');
    } else {
      forall hay: string
        ensures ContainsAgentWord(alphanumeric, hay, needle) == HasStandaloneWord(alphanumeric, hay, needle)
      {
        if ContainsAgentWord(alphanumeric, hay, needle) {
          FoundIsStandalone(alphanumeric, hay, needle, 0);
        }
        if HasStandaloneWord(alphanumeric, hay, needle) {
          var j :| 0 <= j <= |hay| && IsStandaloneAt(alphanumeric, hay, needle, j);
          StandaloneIsFound(alphanumeric, hay, needle, 0, j);
        }
      }
    }
  }

  /** Names of letters and digits, and names that never overlap themselves, are safe. */
  lemma PlainNamesAreSafe(alphanumeric: CharClass, needle: string)
    requires (forall c | c in needle :: alphanumeric(c)) ||
             (forall d | 0 < d < |needle| :: needle[d..] != needle[..|needle| - d])
    ensures !HidesItself(alphanumeric, needle)
  {
    forall d | 0 < d < |needle| ensures !HidesItselfAt(alphanumeric, needle, d) {
      assert needle[d - 1] in needle;
    }
  }

  /** `a-a` hides itself, for one letter `a`, and is overlooked in `xa-a-a`. */
  lemma HyphenatedNameIsOverlooked(alphanumeric: CharClass, a: char, x: char)
    requires alphanumeric(a) && alphanumeric(x) && x != a && IsBoundary(alphanumeric, '-')
    ensures HasStandaloneWord(alphanumeric, [x, a, '-', a, '-', a], [a, '-', a])
    ensures !ContainsAgentWord(alphanumeric, [x, a, '-', a, '-', a], [a, '-', a])
  {
    var needle := [a, '-', a];
    assert needle[2..] == [a] == needle[..1];
    OverlookedIsMissed(alphanumeric, needle, 2, x);
    assert Overlooked(needle, 2, x) == [x, a, '-', a, '-', a];
  }

  // ---- whole lines above a text ----

  /** A name that fits on a line. */
  predicate IsLineWord(needle: string) {
    needle != [] && '\n' !in needle
  }

  /** Between whole lines and what follows them no name is found. */
  lemma {:induction false} NothingAcrossNewline(t: string, s: string, needle: string, i: nat)
    requires NewlineEnded(t) && IsLineWord(needle) && i < |t| && OccursAt(t + s, needle, i)
    ensures i + |needle| < |t| && OccursAt(t, needle, i)
  {
    var hay := t + s;
    assert forall k | 0 <= k < |needle| :: needle[k] == hay[i + k] && needle[k] in needle;
    assert hay[i + (|t| - 1 - i)] == '\n';
    assert hay[i..i + |needle|] == t[i..i + |needle|];
  }

  lemma SameOccurrence(t: string, s: string, needle: string, i: nat)
    requires OccursAt(t, needle, i)
    ensures OccursAt(t + s, needle, i)
  {
    assert (t + s)[i..i + |needle|] == t[i..i + |needle|];
  }

  /** `s` is what `hay` holds from `n` on, behind a boundary. */
  predicate EndsWithBehindBoundary(alphanumeric: CharClass, hay: string, n: nat, s: string) {
    0 < n <= |hay| && hay[n..] == s && IsBoundary(alphanumeric, hay[n - 1])
  }

  lemma SameFurther(alphanumeric: CharClass, hay: string, n: nat, s: string, needle: string, i: nat)
    requires EndsWithBehindBoundary(alphanumeric, hay, n, s) && i + |needle| <= |s|
    ensures OccursAt(hay, needle, n + i) == OccursAt(s, needle, i)
    ensures IsBoundedAt(alphanumeric, hay, needle, n + i) == IsBoundedAt(alphanumeric, s, needle, i)
  {
    var end := i + |needle|;
    assert forall k | 0 <= k < |s| :: hay[n + k] == s[k];
    assert hay[n + i..n + end] == s[i..end];
    if i > 0 {
      assert hay[n + (i - 1)] == s[i - 1];
    }
    if end < |s| {
      assert hay[n + end] == s[end];
    }
  }

  lemma {:induction false} SearchFurther(alphanumeric: CharClass, hay: string, n: nat, s: string, needle: string,
                                         from: nat)
    requires EndsWithBehindBoundary(alphanumeric, hay, n, s) && needle != []
    ensures SearchFrom(alphanumeric, hay, needle, n + from) == SearchFrom(alphanumeric, s, needle, from)
    decreases if from <= |s| then |s| + 1 - from else 0
  {
    if from + |needle| <= |s| {
      SameFurther(alphanumeric, hay, n, s, needle, from);
      if OccursAt(s, needle, from) {
        SearchFurther(alphanumeric, hay, n, s, needle, from + |needle|);
      } else {
        SearchFurther(alphanumeric, hay, n, s, needle, from + 1);
      }
    }
  }

  lemma {:induction false} SearchBelowLines(alphanumeric: CharClass, t: string, s: string, needle: string)
    requires t != [] && NewlineEnded(t) && IsLineWord(needle) && IsBoundary(alphanumeric, '\n')
    ensures SearchFrom(alphanumeric, t + s, needle, |t|) == SearchFrom(alphanumeric, s, needle, 0)
  {
    assert (t + s)[|t| - 1] == '\n' && (t + s)[|t|..] == s;
    SearchFurther(alphanumeric, t + s, |t|, s, needle, 0);
  }

  lemma {:induction false} SearchThroughLines(alphanumeric: CharClass, t: string, s: string, needle: string, from: nat)
    requires t != [] && NewlineEnded(t) && IsLineWord(needle) && IsBoundary(alphanumeric, '\n') && from <= |t|
    ensures SearchFrom(alphanumeric, t + s, needle, from) <==>
            SearchFrom(alphanumeric, t, needle, from) || SearchFrom(alphanumeric, s, needle, 0)
    decreases |t| - from
  {
    if from == |t| {
      SearchBelowLines(alphanumeric, t, s, needle);
    } else if OccursAt(t + s, needle, from) {
      NothingAcrossNewline(t, s, needle, from);
      assert IsBoundedAt(alphanumeric, t + s, needle, from) == IsBoundedAt(alphanumeric, t, needle, from);
      SearchThroughLines(alphanumeric, t, s, needle, from + |needle|);
    } else {
      assert !OccursAt(t, needle, from) by {
        if OccursAt(t, needle, from) {
          SameOccurrence(t, s, needle, from);
        }
      }
      SearchThroughLines(alphanumeric, t, s, needle, from + 1);
      NoRoomLeft(alphanumeric, t, s, needle, from);
    }
  }

  /** Near the end of the lines the search in the longer text goes on. */
  lemma {:induction false} NoRoomLeft(alphanumeric: CharClass, t: string, s: string, needle: string, from: nat)
    requires needle != [] && from < |t| && !OccursAt(t + s, needle, from)
    ensures SearchFrom(alphanumeric, t + s, needle, from) == SearchFrom(alphanumeric, t + s, needle, from + 1)
    ensures !OccursAt(t, needle, from) ==>
              SearchFrom(alphanumeric, t, needle, from) == SearchFrom(alphanumeric, t, needle, from + 1)
  {
  }

  /** A name stands in whole lines and a text below them exactly when it stands in the
      lines or in the text. */
  lemma {:induction false} WordInLinesAndText(alphanumeric: CharClass, t: string, s: string, needle: string)
    requires NewlineEnded(t) && IsLineWord(needle) && IsBoundary(alphanumeric, '\n')
    ensures ContainsAgentWord(alphanumeric, t + s, needle) <==>
            ContainsAgentWord(alphanumeric, t, needle) || ContainsAgentWord(alphanumeric, s, needle)
  {
    if t == [] {
      assert t + s == s;
    } else {
      SearchThroughLines(alphanumeric, t, s, needle, 0);
    }
  }

  /** A name with a newline is found across the seam, in neither part. */
  lemma NewlineNameCrosses(alphanumeric: CharClass, a: char, b: char)
    ensures ContainsAgentWord(alphanumeric, [a, '\n'] + [b], [a, '\n', b])
    ensures !ContainsAgentWord(alphanumeric, [a, '\n'], [a, '\n', b])
    ensures !ContainsAgentWord(alphanumeric, [b], [a, '\n', b])
  {
    assert [a, '\n'] + [b] == [a, '\n', b];
    assert OccursAt([a, '\n', b], [a, '\n', b], 0);
  }

  /** The empty name is found behind whole lines, but not before a letter. */
  lemma EmptyNameIsLost(alphanumeric: CharClass, letter: char)
    requires alphanumeric(letter) && IsBoundary(alphanumeric, '\n')
    ensures ContainsAgentWord(alphanumeric, [letter, '\n'], [])
    ensures !ContainsAgentWord(alphanumeric, [letter, '\n'] + [letter], [])
  {
    var t, hay := [letter, '\n'], [letter, '\n', letter];
    assert t + [letter] == hay;
    assert SearchFrom(alphanumeric, t, [], 2);
    assert SearchFrom(alphanumeric, t, [], 1);
    assert !SearchFrom(alphanumeric, hay, [], 4);
    assert !SearchFrom(alphanumeric, hay, [], 3);
    assert !SearchFrom(alphanumeric, hay, [], 2);
    assert !SearchFrom(alphanumeric, hay, [], 1);
  }

  /** A name right behind or before a letter, a digit, a dot or a path separator is no
      word; behind and before anything else it is. */
  lemma {:induction false} NeighboursDecide(alphanumeric: CharClass, name: string, c: char)
    requires name != [] && forall i | 0 <= i < |name| :: alphanumeric(name[i])
    requires name[0] != c && name[|name| - 1] != c
    ensures ContainsAgentWord(alphanumeric, [c] + name, name) <==>
            !alphanumeric(c) && c != '.' && c != '/' && c != '\\'
    ensures ContainsAgentWord(alphanumeric, name + [c], name) <==>
            !alphanumeric(c) && c != '.' && c != '/' && c != '\\'
  {
    var n, before, behind := |name|, [c] + name, name + [c];
    assert before[1..1 + n] == name && before[0] == c;
    assert OccursAt(before, name, 1);
    assert !OccursAt(before, name, 0) by {
      assert before[0..n][0] == c;
    }
    assert before[1 - 1] == c;
    assert !SearchFrom(alphanumeric, before, name, 1 + n);
    assert SearchFrom(alphanumeric, before, name, 1) <==> IsBoundary(alphanumeric, c);
    assert behind[0..n] == name && behind[n] == c;
    assert OccursAt(behind, name, 0);
    assert !SearchFrom(alphanumeric, behind, name, n) by {
      if n == 1 {
        assert behind[1..2][0] == c;
      }
    }
  }
}
