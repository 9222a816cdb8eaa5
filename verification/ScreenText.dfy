/**
  The text the state of a pane is read from (src/terminal/vt/alacritty.rs): the
  bottom rows of the live screen, either as they stand or only those that show
  something. Every row is trimmed at its end and the rows are joined by newlines.

  A row is given as the characters of its cells.
*/
module ScreenText {
  import opened Text

  function JoinRows(rows: seq<string>): string {
    if rows == [] then []
    else if |rows| == 1 then rows[0]
    else rows[0] + ['\n'] + JoinRows(rows[1..])
  }

  function Trimmed(rows: seq<string>): seq<string> {
    if rows == [] then [] else [TrimEnd(rows[0])] + Trimmed(rows[1..])
  }

  /** Without the leading rows that show nothing. */
  function FromFirstShown(rows: seq<string>): seq<string> {
    if rows != [] && rows[0] == [] then FromFirstShown(rows[1..]) else rows
  }

  function Shown(rows: seq<string>): seq<string> {
    if rows == [] then [] else (if rows[0] == [] then [] else [rows[0]]) + Shown(rows[1..])
  }

  function LastOf(rows: seq<string>, n: nat): (last: seq<string>)
    ensures |last| <= |rows| && last == rows[|rows| - |last|..]
  {
    if |rows| <= n then rows else rows[|rows| - n..]
  }

  /** The rows kept of the `n` bottom rows. */
  function BottomRows(screen: seq<string>, n: nat): seq<string> {
    FromFirstShown(Trimmed(LastOf(screen, n)))
  }

  /** The `n` last rows that show something; all of them for `n` zero. */
  function ShownRows(screen: seq<string>, n: nat): seq<string> {
    if n == 0 then Shown(Trimmed(screen)) else LastOf(Shown(Trimmed(screen)), n)
  }

  function KeptRows(screen: seq<string>, n: nat, nonEmpty: bool): seq<string> {
    if nonEmpty then ShownRows(screen, n) else BottomRows(screen, n)
  }

  /** The text itself, in either form. */
  function DetectionText(screen: seq<string>, n: nat, nonEmpty: bool): string {
    JoinRows(KeptRows(screen, n, nonEmpty))
  }

  /** The bottom rows: each of the last `n` in its place and trimmed at its end, from the
      first of them that shows something. */
  lemma {:induction false} BottomRowsMean(screen: seq<string>, n: nat) returns (from: nat)
    ensures from <= |screen| && |screen| - from <= n
    ensures BottomRows(screen, n) == Trimmed(screen[from..])
    ensures forall i | 0 <= i < from && |screen| - i <= n :: TrimEnd(screen[i]) == []
    ensures from < |screen| ==> TrimEnd(screen[from]) != []
  {
    var start := if |screen| <= n then 0 else |screen| - n;
    var window := LastOf(screen, n);
    assert window == screen[start..];
    var k := FirstShownMeans(window);
    from := start + k;
    assert window[k..] == screen[from..];
    forall i | start <= i < from ensures TrimEnd(screen[i]) == [] {
      assert screen[i] == window[i - start];
    }
  }

  lemma {:induction false} FirstShownMeans(rows: seq<string>) returns (k: nat)
    ensures k <= |rows| && FromFirstShown(Trimmed(rows)) == Trimmed(rows[k..])
    ensures forall i | 0 <= i < k :: TrimEnd(rows[i]) == []
    ensures k < |rows| ==> TrimEnd(rows[k]) != []
    decreases |rows|
  {
    k := 0;
    if rows != [] && TrimEnd(rows[0]) == [] {
      k := FirstShownMeans(rows[1..]);
      assert rows[1..][k..] == rows[k + 1..];
      k := k + 1;
    }
  }

  lemma {:induction false} TrimmedEach(rows: seq<string>)
    ensures |Trimmed(rows)| == |rows| && forall i | 0 <= i < |rows| :: Trimmed(rows)[i] == TrimEnd(rows[i])
    decreases |rows|
  {
    if rows != [] {
      TrimmedEach(rows[1..]);
    }
  }

  /** The rows that show something: each of them, in order, as many as are asked for, from
      the bottom up. */
  lemma {:induction false} ShownRowsMean(screen: seq<string>, n: nat) returns (from: nat)
    ensures from <= |screen| && ShownRows(screen, n) == Shown(Trimmed(screen[from..]))
    ensures forall row | row in ShownRows(screen, n) :: row != []
    ensures if n == 0 || |Shown(Trimmed(screen))| <= n then from == 0 else |ShownRows(screen, n)| == n
  {
    if n == 0 || |Shown(Trimmed(screen))| <= n {
      from := 0;
      assert screen[0..] == screen;
    } else {
      from := ShownFrom(screen, n);
    }
    ShownShow(Trimmed(screen[from..]));
  }

  lemma {:induction false} ShownFrom(screen: seq<string>, n: nat) returns (from: nat)
    requires |Shown(Trimmed(screen))| >= n
    ensures from <= |screen| && |Shown(Trimmed(screen[from..]))| == n
    ensures Shown(Trimmed(screen[from..])) == LastOf(Shown(Trimmed(screen)), n)
    decreases |screen|
  {
    if |Shown(Trimmed(screen))| == n {
      from := 0;
      assert screen[0..] == screen;
    } else {
      var k := ShownFrom(screen[1..], n);
      assert screen[1..][k..] == screen[k + 1..];
      from := k + 1;
    }
  }

  lemma {:induction false} ShownShow(rows: seq<string>)
    ensures forall row | row in Shown(rows) :: row != [] && row in rows
    decreases |rows|
  {
    if rows != [] {
      ShownShow(rows[1..]);
    }
  }

  // ---- the loops ----

  lemma {:induction false} TrimmedAppend(a: seq<string>, b: seq<string>)
    ensures Trimmed(a + b) == Trimmed(a) + Trimmed(b)
    decreases |a|
  {
    if a == [] {
      assert a + b == b;
    } else {
      assert (a + b)[1..] == a[1..] + b;
      TrimmedAppend(a[1..], b);
    }
  }

  lemma {:induction false} JoinOneMore(rows: seq<string>, row: string)
    requires rows != []
    ensures JoinRows(rows + [row]) == JoinRows(rows) + ['\n'] + row
    decreases |rows|
  {
    var all := rows + [row];
    assert all[1..] == rows[1..] + [row];
    if |rows| > 1 {
      JoinOneMore(rows[1..], row);
    } else {
      assert all[1..] == [row];
    }
  }

  lemma {:induction false} FirstShownAppend(a: seq<string>, b: seq<string>)
    ensures FromFirstShown(a + b) == if FromFirstShown(a) == [] then FromFirstShown(b) else FromFirstShown(a) + b
    decreases |a|
  {
    if a == [] {
      assert a + b == b;
    } else if a[0] == [] {
      assert (a + b)[1..] == a[1..] + b;
      FirstShownAppend(a[1..], b);
    }
  }

  lemma {:induction false} FirstShownShows(rows: seq<string>)
    ensures FromFirstShown(rows) == [] <==> JoinRows(FromFirstShown(rows)) == []
    decreases |rows|
  {
    if rows != [] && rows[0] == [] {
      FirstShownShows(rows[1..]);
    }
  }

  lemma {:induction false} OneMoreRow(rows: seq<string>, row: string)
    ensures var out := JoinRows(FromFirstShown(Trimmed(rows)));
            JoinRows(FromFirstShown(Trimmed(rows + [row]))) ==
            (if out == [] then [] else out + ['\n']) + TrimEnd(row)
  {
    TrimmedAppend(rows, [row]);
    assert Trimmed([row]) == [TrimEnd(row)];
    FirstShownAppend(Trimmed(rows), [TrimEnd(row)]);
    FirstShownShows(Trimmed(rows));
    if FromFirstShown(Trimmed(rows)) != [] {
      JoinOneMore(FromFirstShown(Trimmed(rows)), TrimEnd(row));
    }
  }

  method BottomText(screen: seq<string>, n: nat) returns (out: string)
    ensures out == DetectionText(screen, n, false)
  {
    var start := if n <= |screen| then |screen| - n else 0;
    out := [];
    for r := start to |screen|
      invariant out == JoinRows(FromFirstShown(Trimmed(screen[start..r])))
    {
      OneMoreRow(screen[start..r], screen[r]);
      assert screen[start..r + 1] == screen[start..r] + [screen[r]];
      if out != [] {
        out := out + ['\n'];
      }
      out := out + TrimEnd(screen[r]);
    }
    assert screen[start..] == screen[start..|screen|] == LastOf(screen, n);
  }

  lemma {:induction false} ShownAppend(a: seq<string>, b: seq<string>)
    ensures Shown(a + b) == Shown(a) + Shown(b)
    decreases |a|
  {
    if a == [] {
      assert a + b == b;
    } else {
      assert (a + b)[1..] == a[1..] + b;
      ShownAppend(a[1..], b);
    }
  }

  lemma {:induction false} ShownAbove(screen: seq<string>, r: nat)
    requires r < |screen|
    ensures Shown(Trimmed(screen[r..])) ==
            (if TrimEnd(screen[r]) == [] then [] else [TrimEnd(screen[r])]) + Shown(Trimmed(screen[r + 1..]))
    ensures exists above: seq<string> :: Shown(Trimmed(screen)) == above + Shown(Trimmed(screen[r..]))
  {
    assert screen[r..][1..] == screen[r + 1..];
    assert screen == screen[..r] + screen[r..];
    TrimmedAppend(screen[..r], screen[r..]);
    ShownAppend(Trimmed(screen[..r]), Trimmed(screen[r..]));
  }

  /** From the bottom up, until enough rows are selected. */
  method NonEmptyText(screen: seq<string>, n: nat) returns (out: string)
    ensures out == DetectionText(screen, n, true)
  {
    var selected: seq<string> := [];
    var r: nat := |screen|;
    while r > 0
      invariant r <= |screen| && selected == Shown(Trimmed(screen[r..]))
      invariant n > 0 ==> |selected| < n
    {
      r := r - 1;
      ShownAbove(screen, r);
      var line := TrimEnd(screen[r]);
      if line != [] {
        selected := [line] + selected;
        if |selected| == n {
          return JoinRows(selected);
        }
      }
    }
    assert screen[r..] == screen;
    return JoinRows(selected);
  }

  // ---- rows above rows ----

  /** A row as both texts hold it: nothing to trim at its end, and no newline. */
  predicate IsRow(row: string) {
    TrimEnd(row) == row && '\n' !in row
  }

  predicate AreRows(rows: seq<string>) {
    forall i | 0 <= i < |rows| :: IsRow(rows[i])
  }

  predicate NoNewlines(rows: seq<string>) {
    forall i | 0 <= i < |rows| :: '\n' !in rows[i]
  }

  /** Each row with its newline. */
  function EndedRows(rows: seq<string>): string {
    if rows == [] then [] else rows[0] + ['\n'] + EndedRows(rows[1..])
  }

  lemma {:induction false} TrimmedAreRows(rows: seq<string>)
    requires NoNewlines(rows)
    ensures AreRows(Trimmed(rows))
    decreases |rows|
  {
    if rows != [] {
      TrimEndStays(rows[0]);
      assert forall c | c in TrimEnd(rows[0]) :: c in rows[0];
      TrimmedAreRows(rows[1..]);
    }
  }

  lemma {:induction false} KeptAreRows(screen: seq<string>, n: nat, nonEmpty: bool)
    requires NoNewlines(screen)
    ensures AreRows(KeptRows(screen, n, nonEmpty))
  {
    TrimmedAreRows(LastOf(screen, n));
    FirstShownAreRows(Trimmed(LastOf(screen, n)));
    TrimmedAreRows(screen);
    ShownAreRows(Trimmed(screen));
  }

  lemma {:induction false} FirstShownAreRows(rows: seq<string>)
    requires AreRows(rows)
    ensures AreRows(FromFirstShown(rows))
    decreases |rows|
  {
    if rows != [] && rows[0] == [] {
      FirstShownAreRows(rows[1..]);
    }
  }

  lemma {:induction false} ShownAreRows(rows: seq<string>)
    requires AreRows(rows)
    ensures AreRows(Shown(rows))
    decreases |rows|
  {
    if rows != [] {
      ShownAreRows(rows[1..]);
    }
  }

  lemma RowEndsInNoReturn(row: string)
    requires IsRow(row)
    ensures !EndsInReturn(row)
  {
    if EndsInReturn(row) {
      TrimEndStays(row[..|row| - 1]);
    }
  }

  /** Joined rows are lines again, but for an empty last one, and none ended in a return. */
  lemma {:induction false} NoReturnsInJoined(rows: seq<string>)
    requires AreRows(rows)
    ensures DroppedReturns(JoinRows(rows)) == 0
    ensures Lines(JoinRows(rows)) == if rows != [] && rows[|rows| - 1] == [] then rows[..|rows| - 1] else rows
    decreases |rows|
  {
    if rows != [] {
      RowEndsInNoReturn(rows[0]);
      if |rows| == 1 {
        assert LineEnd(rows[0]) == |rows[0]|;
      } else {
        NoReturnsInJoined(rows[1..]);
        OneLine(rows[0], JoinRows(rows[1..]));
      }
    }
  }

  lemma {:induction false} NoReturnsInEnded(rows: seq<string>)
    requires AreRows(rows)
    ensures DroppedReturns(EndedRows(rows)) == 0 && NewlineEnded(EndedRows(rows))
    decreases |rows|
  {
    if rows != [] {
      RowEndsInNoReturn(rows[0]);
      NoReturnsInEnded(rows[1..]);
      OneLine(rows[0], EndedRows(rows[1..]));
    }
  }

  lemma {:induction false} JoinedBelow(above: seq<string>, rows: seq<string>)
    requires rows != []
    ensures JoinRows(above + rows) == EndedRows(above) + JoinRows(rows)
    decreases |above|
  {
    if above == [] {
      assert above + rows == rows;
    } else {
      assert (above + rows)[1..] == above[1..] + rows;
      JoinedBelow(above[1..], rows);
    }
  }

  lemma {:induction false} ShownStay(rows: seq<string>)
    requires AreRows(rows) && forall i | 0 <= i < |rows| :: rows[i] != []
    ensures Trimmed(rows) == rows && Shown(rows) == rows
    decreases |rows|
  {
    if rows != [] {
      ShownStay(rows[1..]);
    }
  }

  /** Rows above a screen come into its text above the rows it keeps by itself. */
  lemma {:induction false} RowsAbove(above: seq<string>, screen: seq<string>, n: nat, nonEmpty: bool)
      returns (kept: seq<string>)
    requires KeptRows(screen, n, nonEmpty) != []
    ensures KeptRows(above + screen, n, nonEmpty) == kept + KeptRows(screen, n, nonEmpty)
  {
    if nonEmpty {
      TrimmedAppend(above, screen);
      ShownAppend(Trimmed(above), Trimmed(screen));
      kept := LastBelow(Shown(Trimmed(above)), Shown(Trimmed(screen)), n);
      if n == 0 {
        kept := Shown(Trimmed(above));
      }
    } else {
      var part := LastBelow(above, screen, n);
      var window := LastOf(screen, n);
      TrimmedAppend(part, window);
      kept := FirstShownBelow(Trimmed(part), Trimmed(window));
    }
  }

  lemma {:induction false} LastBelow(a: seq<string>, b: seq<string>, n: nat) returns (part: seq<string>)
    ensures LastOf(a + b, n) == part + LastOf(b, n)
  {
    var k := if |a + b| <= n then 0 else if |b| <= n then |a| + |b| - n else |a|;
    part := a[k..];
  }

  lemma {:induction false} FirstShownBelow(a: seq<string>, b: seq<string>) returns (part: seq<string>)
    ensures FromFirstShown(a + b) == part + FromFirstShown(b)
  {
    FirstShownAppend(a, b);
    if FromFirstShown(a) == [] {
      part := [];
    } else {
      var skipped := SkippedBlanks(b);
      part := FromFirstShown(a) + skipped;
      assert FromFirstShown(a) + b == part + FromFirstShown(b);
    }
  }

  lemma {:induction false} SkippedBlanks(rows: seq<string>) returns (skipped: seq<string>)
    ensures rows == skipped + FromFirstShown(rows)
    decreases |rows|
  {
    skipped := [];
    if rows != [] && rows[0] == [] {
      skipped := SkippedBlanks(rows[1..]);
      skipped := [rows[0]] + skipped;
    }
  }

  /** The text of a screen with rows above it is whole lines above the screen's own
      text, and neither holds a carriage return before a newline. */
  lemma {:induction false} TextBelowRows(above: seq<string>, screen: seq<string>, n: nat, nonEmpty: bool)
      returns (transcript: string)
    requires NoNewlines(above) && NoNewlines(screen) && DetectionText(screen, n, nonEmpty) != []
    ensures DetectionText(above + screen, n, nonEmpty) == transcript + DetectionText(screen, n, nonEmpty)
    ensures NewlineEnded(transcript) && DroppedReturns(transcript) == 0
    ensures DroppedReturns(DetectionText(screen, n, nonEmpty)) == 0
  {
    var kept := RowsAbove(above, screen, n, nonEmpty);
    var rows := KeptRows(screen, n, nonEmpty);
    KeptAreRows(screen, n, nonEmpty);
    KeptAreRows(above + screen, n, nonEmpty);
    assert AreRows(kept) by {
      assert forall i | 0 <= i < |kept| :: kept[i] == (kept + rows)[i];
    }
    JoinedBelow(kept, rows);
    NoReturnsInEnded(kept);
    NoReturnsInJoined(rows);
    transcript := EndedRows(kept);
  }
}
