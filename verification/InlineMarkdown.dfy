/**
  The inline markdown of release notes (src/changelog.rs): bold markers, dropped
  code marks, links. A printer is written against the parser, and parsing what it
  prints gives the segments back.
*/
module InlineMarkdown {
  import opened Options
  import opened Text

  datatype Seg = Seg(text: string, url: Option<string>, bold: bool)

  const STAR: char := '*'
  const TICK: char := '`'

  /** The first position of a character; the length when there is none. */
  function IndexOf(s: string, c: char): (n: nat)
    ensures n <= |s|
    ensures n < |s| ==> s[n] == c
    ensures forall i | 0 <= i < n :: s[i] != c
  {
    if s == [] || s[0] == c then 0 else 1 + IndexOf(s[1..], c)
  }

  datatype Link = Link(caption: string, url: string, length: nat)

  /** The link a text starts with: to the first `]`, which a `(` must follow, and
      from there to the first `)`. */
  function LinkOf(s: string): (link: Option<Link>)
    ensures link.Some? ==> |link.value.caption| < link.value.length <= |s|
  {
    if s == [] || s[0] != '[' then None
    else
      var close := 1 + IndexOf(s[1..], ']');
      if close + 1 >= |s| || s[close + 1] != '(' then None
      else
        var paren := close + 2 + IndexOf(s[close + 2..], ')');
        if paren >= |s| then None else Some(Link(s[1..close], s[close + 2..paren], paren + 1))
  }

  predicate StartsWithBoldMark(s: string) {
    |s| > 1 && s[0] == STAR && s[1] == STAR
  }

  function Flush(buf: string, bold: bool): seq<Seg> {
    if buf == [] then [] else [Seg(buf, None, bold)]
  }

  /** Parses `rest`, with plain text `buf` pending. */
  function Scan(rest: string, buf: string, bold: bool): seq<Seg>
    decreases |rest|, 0
  {
    if rest == [] then Flush(buf, bold)
    else if StartsWithBoldMark(rest) then Flush(buf, bold) + Scan(rest[2..], [], !bold)
    else if rest[0] == TICK then Scan(rest[1..], buf, bold)
    else
      var link := LinkOf(rest);
      if link.None? then Scan(rest[1..], buf + [rest[0]], bold)
      else
        var text, url := StripInline(link.value.caption), Trim(link.value.url);
        if text == [] || url == [] then Flush(buf, bold) + Scan(rest[link.value.length..], text, bold)
        else Flush(buf, bold) + ([Seg(text, Some(url), bold)] + Scan(rest[link.value.length..], [], bold))
  }

  function Inline(s: string): seq<Seg>
    decreases |s|, 1
  {
    Scan(s, [], false)
  }

  function TextOf(segs: seq<Seg>): string {
    if segs == [] then [] else segs[0].text + TextOf(segs[1..])
  }

  /** Links flattened to their caption. */
  function StripInline(s: string): string
    decreases |s|, 2
  {
    TextOf(Inline(s))
  }

  /** One round of the scan: the segments it ends, and what is left pending. */
  datatype Round = Round(emitted: seq<Seg>, buf: string, bold: bool, length: nat)

  function RoundOf(rest: string, buf: string, bold: bool): (round: Round)
    requires rest != []
    ensures 0 < round.length <= |rest|
  {
    if StartsWithBoldMark(rest) then Round(Flush(buf, bold), [], !bold, 2)
    else if rest[0] == TICK then Round([], buf, bold, 1)
    else if LinkOf(rest).None? then Round([], buf + [rest[0]], bold, 1)
    else LinkRound(LinkOf(rest).value, buf, bold)
  }

  function LinkRound(link: Link, buf: string, bold: bool): Round {
    var text, url := StripInline(link.caption), Trim(link.url);
    if text == [] || url == [] then Round(Flush(buf, bold), text, bold, link.length)
    else Round(Flush(buf, bold) + [Seg(text, Some(url), bold)], [], bold, link.length)
  }

  lemma {:induction false} ScanByRounds(rest: string, buf: string, bold: bool)
    requires rest != []
    ensures var round := RoundOf(rest, buf, bold);
            Scan(rest, buf, bold) == round.emitted + Scan(rest[round.length..], round.buf, round.bold)
  {
    if !StartsWithBoldMark(rest) && rest[0] != TICK && LinkOf(rest).Some? {
      var link := LinkOf(rest).value;
      var text, url := StripInline(link.caption), Trim(link.url);
      AppendIsAssociative(Flush(buf, bold), [Seg(text, Some(url), bold)], Scan(rest[link.length..], [], bold));
    }
  }

  /** The scanning loop; a link's caption is parsed by the same method. */
  method ParseInline(s: string) returns (out: seq<Seg>)
    ensures out == Inline(s)
    decreases |s|
  {
    out := [];
    var buf: string := [];
    var i, bold := 0, false;
    while i < |s|
      invariant 0 <= i <= |s|
      invariant out + Scan(s[i..], buf, bold) == Inline(s)
    {
      ghost var round := RoundOf(s[i..], buf, bold);
      ghost var start, before := i, out;
      ScanByRounds(s[i..], buf, bold);
      AppendIsAssociative(before, round.emitted, Scan(s[i..][round.length..], round.buf, round.bold));
      var c := s[i];
      var link := LinkOf(s[i..]);
      if c == STAR && i + 1 < |s| && s[i + 1] == STAR {
        out := out + Flush(buf, bold);
        buf := [];
        bold := !bold;
        i := i + 2;
      } else if c == TICK {
        i := i + 1;
      } else if link.Some? {
        var inner := ParseInline(link.value.caption);
        var text := TextOf(inner);
        var url := Trim(link.value.url);
        out := out + Flush(buf, bold);
        buf := [];
        if text == [] || url == [] {
          buf := text;
        } else {
          AppendIsAssociative(before, round.emitted[..|round.emitted| - 1], [Seg(text, Some(url), bold)]);
          out := out + [Seg(text, Some(url), bold)];
        }
        i := i + link.value.length;
      } else {
        buf := buf + [c];
        i := i + 1;
      }
      assert out == before + round.emitted && i == start + round.length;
      assert s[i..] == s[start..][round.length..];
    }
    out := out + Flush(buf, bold);
  }

  // ---- what segments look like ----

  predicate IsSubsequence(a: string, b: string)
    decreases |b|
  {
    a == [] || (b != [] && ((a[0] == b[0] && IsSubsequence(a[1..], b[1..])) || IsSubsequence(a, b[1..])))
  }

  lemma {:induction false} SubsequenceAppend(a: string, b: string, c: string, d: string)
    requires IsSubsequence(a, b) && IsSubsequence(c, d)
    ensures IsSubsequence(a + c, b + d)
    decreases |b|
  {
    if b == [] {
      assert a + c == c && b + d == d;
    } else {
      assert (b + d)[1..] == b[1..] + d;
      if a == [] {
        assert a + c == c;
        SubsequenceAppend(a, b[1..], c, d);
      } else if a[0] == b[0] && IsSubsequence(a[1..], b[1..]) {
        assert (a + c)[1..] == a[1..] + c;
        SubsequenceAppend(a[1..], b[1..], c, d);
      } else {
        SubsequenceAppend(a, b[1..], c, d);
      }
    }
  }

  lemma {:induction false} SubsequenceOfItself(a: string)
    ensures IsSubsequence(a, a)
    decreases |a|
  {
    if a != [] {
      SubsequenceOfItself(a[1..]);
    }
  }

  lemma {:induction false} TextOfAppend(a: seq<Seg>, b: seq<Seg>)
    ensures TextOf(a + b) == TextOf(a) + TextOf(b)
    decreases |a|
  {
    if a == [] {
      assert a + b == b;
    } else {
      assert (a + b)[1..] == a[1..] + b;
      TextOfAppend(a[1..], b);
    }
  }

  lemma TextOfFlush(buf: string, bold: bool)
    ensures TextOf(Flush(buf, bold)) == buf
  {
  }

  /** Every segment shows something, no code mark is left, and a link goes somewhere. */
  predicate IsCleanSeg(seg: Seg) {
    && seg.text != [] && TICK !in seg.text
    && (seg.url.Some? ==> seg.url.value != [] && Trim(seg.url.value) == seg.url.value)
  }

  predicate AreClean(segs: seq<Seg>) {
    forall i | 0 <= i < |segs| :: IsCleanSeg(segs[i])
  }

  lemma {:induction false} CleanText(segs: seq<Seg>)
    requires AreClean(segs)
    ensures TICK !in TextOf(segs)
    decreases |segs|
  {
    if segs != [] {
      CleanText(segs[1..]);
    }
  }

  lemma {:induction false} TrimStartStops(s: string)
    ensures TrimStart(s) != [] ==> !IsWhitespace(TrimStart(s)[0])
    decreases |s|
  {
    if s != [] && IsWhitespace(s[0]) {
      TrimStartStops(s[1..]);
    }
  }

  lemma {:induction false} TrimTwice(s: string)
    ensures Trim(Trim(s)) == Trim(s)
  {
    TrimStartStops(s);
    TrimEndStays(TrimStart(s));
  }

  lemma {:induction false} CleanRound(rest: string, buf: string, bold: bool)
    requires rest != [] && TICK !in buf
    requires LinkOf(rest).Some? ==> TICK !in StripInline(LinkOf(rest).value.caption)
    ensures AreClean(RoundOf(rest, buf, bold).emitted) && TICK !in RoundOf(rest, buf, bold).buf
  {
    if LinkOf(rest).Some? {
      TrimTwice(LinkOf(rest).value.url);
    }
  }

  lemma {:induction false} ScanIsClean(rest: string, buf: string, bold: bool)
    requires TICK !in buf
    ensures AreClean(Scan(rest, buf, bold))
    decreases |rest|
  {
    if rest != [] {
      if LinkOf(rest).Some? {
        var caption := LinkOf(rest).value.caption;
        ScanIsClean(caption, [], false);
        CleanText(Inline(caption));
      }
      CleanRound(rest, buf, bold);
      ScanByRounds(rest, buf, bold);
      var round := RoundOf(rest, buf, bold);
      ScanIsClean(rest[round.length..], round.buf, round.bold);
    }
  }

  lemma {:induction false} ScanShowsInput(rest: string, buf: string, bold: bool)
    ensures IsSubsequence(TextOf(Scan(rest, buf, bold)), buf + rest)
    decreases |rest|
  {
    if rest == [] {
      TextOfFlush(buf, bold);
      SubsequenceOfItself(buf);
      assert buf + rest == buf;
    } else if StartsWithBoldMark(rest) {
      BoldMarkShowsInput(rest, buf, bold);
    } else if rest[0] == TICK {
      ScanShowsInput(rest[1..], buf, bold);
      DroppedChar(TextOf(Scan(rest, buf, bold)), buf, rest);
    } else if LinkOf(rest).Some? {
      LinkShowsInput(rest, buf, bold);
    } else {
      ScanShowsInput(rest[1..], buf + [rest[0]], bold);
      assert buf + [rest[0]] + rest[1..] == buf + rest;
    }
  }

  lemma {:induction false} BoldMarkShowsInput(rest: string, buf: string, bold: bool)
    requires StartsWithBoldMark(rest)
    ensures IsSubsequence(TextOf(Scan(rest, buf, bold)), buf + rest)
    decreases |rest|, 0
  {
    ScanShowsInput(rest[2..], [], !bold);
    assert [] + rest[2..] == rest[2..];
    FlushedShowsInput(buf, bold, Scan(rest[2..], [], !bold), rest[..2], rest[2..]);
    assert rest[..2] + rest[2..] == rest;
  }

  lemma {:induction false} FlushedShowsInput(buf: string, bold: bool, segs: seq<Seg>, skipped: string, rest: string)
    requires IsSubsequence(TextOf(segs), rest)
    ensures IsSubsequence(TextOf(Flush(buf, bold) + segs), buf + (skipped + rest))
  {
    TextOfFlush(buf, bold);
    TextOfAppend(Flush(buf, bold), segs);
    SubsequenceOfItself(buf);
    ShownAfter(buf, buf, skipped, rest, TextOf(segs));
    assert buf + skipped + rest == buf + (skipped + rest);
  }

  /** A text shown from `rest` is shown from `skipped + rest`, behind `shown` from `part`. */
  lemma {:induction false} ShownAfter(shown: string, part: string, skipped: string, rest: string, text: string)
    requires IsSubsequence(shown, part) && IsSubsequence(text, rest)
    ensures IsSubsequence(shown + text, part + skipped + rest)
  {
    SubsequenceAppend([], skipped, text, rest);
    assert [] + text == text;
    SubsequenceAppend(shown, part, text, skipped + rest);
    assert part + (skipped + rest) == part + skipped + rest;
  }

  lemma {:induction false} DroppedChar(text: string, buf: string, rest: string)
    requires rest != [] && IsSubsequence(text, buf + rest[1..])
    ensures IsSubsequence(text, buf + rest)
    decreases |buf|
  {
    var shorter := buf + rest[1..];
    if buf == [] {
      assert buf + rest == rest && shorter == rest[1..];
    } else if text != [] {
      assert shorter[1..] == buf[1..] + rest[1..] && (buf + rest)[1..] == buf[1..] + rest;
      if text[0] == buf[0] && IsSubsequence(text[1..], shorter[1..]) {
        DroppedChar(text[1..], buf[1..], rest);
      } else {
        DroppedChar(text, buf[1..], rest);
      }
    }
  }

  lemma LinkParts(rest: string) returns (middle: string)
    requires LinkOf(rest).Some?
    ensures var link := LinkOf(rest).value;
            rest == (['['] + link.caption) + middle + rest[link.length..]
  {
    var link := LinkOf(rest).value;
    middle := rest[1 + |link.caption|..link.length];
  }

  lemma {:induction false} LinkShowsInput(rest: string, buf: string, bold: bool)
    requires rest != [] && !StartsWithBoldMark(rest) && rest[0] != TICK && LinkOf(rest).Some?
    ensures IsSubsequence(TextOf(Scan(rest, buf, bold)), buf + rest)
    decreases |rest|, 0
  {
    var link := LinkOf(rest).value;
    var text, url := StripInline(link.caption), Trim(link.url);
    var tail := rest[link.length..];
    var middle := LinkParts(rest);
    ScanShowsInput(link.caption, [], false);
    assert [] + link.caption == link.caption && Inline(link.caption) == Scan(link.caption, [], false);
    SubsequenceAppend([], ['['], text, link.caption);
    assert [] + text == text;
    SubsequenceOfItself(buf);
    TextOfFlush(buf, bold);
    if text == [] || url == [] {
      ScanShowsInput(tail, text, bold);
      var shown := TextOf(Scan(tail, text, bold));
      SubsequenceThrough(shown, text, tail, ['['] + link.caption, middle);
      TextOfAppend(Flush(buf, bold), Scan(tail, text, bold));
      SubsequenceAppend(buf, buf, shown, rest);
    } else {
      ScanShowsInput(tail, [], bold);
      assert [] + tail == tail;
      var shown := TextOf(Scan(tail, [], bold));
      ShownAfter(text, ['['] + link.caption, middle, tail, shown);
      LinkText(Flush(buf, bold), Seg(text, Some(url), bold), Scan(tail, [], bold));
      SubsequenceAppend(buf, buf, text + shown, rest);
    }
  }

  lemma LinkText(before: seq<Seg>, seg: Seg, after: seq<Seg>)
    ensures TextOf(before + ([seg] + after)) == TextOf(before) + (seg.text + TextOf(after))
  {
    TextOfAppend(before, [seg] + after);
    TextOfAppend([seg], after);
    assert TextOf([seg]) == seg.text + TextOf([seg][1..]) == seg.text;
  }

  /** Shown from `text + tail`, where `text` is itself shown from `part`. */
  lemma {:induction false} SubsequenceThrough(shown: string, text: string, tail: string, part: string, middle: string)
    requires IsSubsequence(shown, text + tail) && IsSubsequence(text, part)
    ensures IsSubsequence(shown, part + middle + tail)
  {
    SubsequenceOfItself(tail);
    ShownAfter(text, part, middle, tail, tail);
    SubsequenceTransitive(shown, text + tail, part + middle + tail);
  }

  lemma {:induction false} SubsequenceTransitive(a: string, b: string, c: string)
    requires IsSubsequence(a, b) && IsSubsequence(b, c)
    ensures IsSubsequence(a, c)
    decreases |c|
  {
    if a != [] {
      if b[0] == c[0] && IsSubsequence(b[1..], c[1..]) {
        if a[0] == b[0] && IsSubsequence(a[1..], b[1..]) {
          SubsequenceTransitive(a[1..], b[1..], c[1..]);
        } else {
          SubsequenceTransitive(a, b[1..], c[1..]);
        }
      } else {
        SubsequenceTransitive(a, b, c[1..]);
      }
    }
  }

  /** For every input: no empty segment, no code mark, only links that go somewhere,
      and nothing shown that the input does not hold in that order. */
  lemma {:induction false} InlineIsClean(s: string)
    ensures AreClean(Inline(s)) && IsSubsequence(StripInline(s), s)
  {
    ScanIsClean(s, [], false);
    ScanShowsInput(s, [], false);
    assert [] + s == s;
  }

  // ---- printing ----

  function PrintSeg(seg: Seg): string {
    if seg.url.None? then seg.text else ['['] + seg.text + [']', '('] + seg.url.value + [')']
  }

  function Mark(toggle: bool): string {
    if toggle then [STAR, STAR] else []
  }

  /** Bold marks where the emphasis changes; emphasis is closed at the end. */
  function Print(segs: seq<Seg>, bold: bool): string {
    if segs == [] then Mark(bold)
    else Mark(segs[0].bold != bold) + PrintSeg(segs[0]) + Print(segs[1..], segs[0].bold)
  }

  predicate NoBoldMark(s: string) {
    forall i | 0 <= i < |s| - 1 :: !(s[i] == STAR && s[i + 1] == STAR)
  }

  predicate IsPlainText(s: string) {
    s != [] && TICK !in s && NoBoldMark(s)
  }

  /** Between plain text and what follows it no mark arises: no bracket of the text
      starts a link, and a star at its end meets no other. */
  predicate StaysPlain(text: string, rest: string) {
    && (forall j | 0 <= j < |text| && text[j] == '[' :: LinkOf(text[j..] + rest).None?)
    && (text != [] && text[|text| - 1] == STAR ==> rest == [] || rest[0] != STAR)
  }

  predicate IsLabel(s: string) {
    s != [] && TICK !in s && ']' !in s && NoBoldMark(s)
  }

  predicate IsUrl(s: string) {
    s != [] && Trim(s) == s && ')' !in s
  }

  predicate IsPrintable(seg: Seg) {
    if seg.url.None? then IsPlainText(seg.text) else IsLabel(seg.text) && IsUrl(seg.url.value)
  }

  /** A bracket that nothing closes starts no link. */
  lemma UnclosedStaysPlain(text: string, rest: string)
    requires ']' !in text + rest && (text != [] ==> text[|text| - 1] != STAR)
    ensures StaysPlain(text, rest)
  {
    forall j | 0 <= j < |text| && text[j] == '[' ensures LinkOf(text[j..] + rest).None? {
      var s := text[j..] + rest;
      assert forall i | 0 <= i < |s| :: s[i] == (text + rest)[j + i];
      assert forall i | 0 <= i < |s| :: s[i] in text + rest;
    }
  }

  /** Segments the notation can tell apart: plain text stays plain before what follows
      it, and no two plain neighbours are of one style. */
  predicate ArePrintable(segs: seq<Seg>) {
    segs != [] ==>
      && IsPrintable(segs[0])
      && (segs[0].url.None? ==> StaysPlain(segs[0].text, Print(segs[1..], segs[0].bold)))
      && (segs[0].url.None? && |segs| > 1 && segs[1].url.None? ==> segs[1].bold != segs[0].bold)
      && ArePrintable(segs[1..])
  }

  lemma NoMarkArises(text: string, rest: string)
    requires text != [] && NoBoldMark(text) && StaysPlain(text, rest)
    ensures !StartsWithBoldMark(text + rest)
  {
    var all := text + rest;
    assert all[0] == text[0];
    if |text| > 1 {
      assert all[1] == text[1];
    } else if rest != [] {
      assert all[1] == rest[0];
    }
  }

  lemma {:induction false} StaysPlainFurther(text: string, rest: string)
    requires text != [] && NoBoldMark(text) && StaysPlain(text, rest)
    ensures NoBoldMark(text[1..]) && StaysPlain(text[1..], rest)
    ensures text[0] == '[' ==> LinkOf(text + rest).None?
  {
    assert forall i | 0 <= i < |text| - 1 :: text[1..][i] == text[i + 1];
    assert forall j | 0 <= j < |text| - 1 :: text[1..][j..] == text[j + 1..];
    assert text[0..] == text;
  }

  lemma {:induction false} ScanPlainText(text: string, rest: string, buf: string, bold: bool)
    requires TICK !in text && NoBoldMark(text) && StaysPlain(text, rest)
    ensures Scan(text + rest, buf, bold) == Scan(rest, buf + text, bold)
    decreases |text|
  {
    if text == [] {
      assert text + rest == rest && buf + text == buf;
    } else {
      var all := text + rest;
      assert all[1..] == text[1..] + rest && text[0] in text;
      NoMarkArises(text, rest);
      StaysPlainFurther(text, rest);
      ScanPlainText(text[1..], rest, buf + [text[0]], bold);
      assert buf + [text[0]] + text[1..] == buf + text;
    }
  }

  lemma {:induction false} ScanLabel(caption: string, buf: string, bold: bool)
    requires TICK !in caption && ']' !in caption && NoBoldMark(caption)
    ensures Scan(caption, buf, bold) == Flush(buf + caption, bold)
    decreases |caption|
  {
    if caption == [] {
      assert buf + caption == buf;
    } else {
      assert caption[0] in caption;
      assert forall i | 0 <= i < |caption| - 1 :: caption[1..][i] == caption[i + 1];
      assert IndexOf(caption[1..], ']') == |caption| - 1;
      ScanLabel(caption[1..], buf + [caption[0]], bold);
      assert buf + [caption[0]] + caption[1..] == buf + caption;
    }
  }

  lemma LabelIsItsText(caption: string)
    requires IsLabel(caption)
    ensures StripInline(caption) == caption
  {
    ScanLabel(caption, [], false);
    assert [] + caption == caption;
    TextOfFlush(caption, false);
  }

  lemma {:induction false} IndexOfMark(before: string, c: char, after: string)
    requires c !in before
    ensures IndexOf(before + ([c] + after), c) == |before|
    decreases |before|
  {
    var s := before + ([c] + after);
    if before != [] {
      assert s[0] == before[0] && before[0] in before;
      assert s[1..] == before[1..] + ([c] + after);
      IndexOfMark(before[1..], c, after);
    }
  }

  lemma PrintedLinkIsRead(caption: string, url: string, rest: string)
    requires ']' !in caption && ')' !in url
    ensures var s := ['['] + caption + [']', '('] + url + [')'] + rest;
            var n := |caption| + |url| + 4;
            LinkOf(s) == Some(Link(caption, url, n)) && s[n..] == rest
  {
    var s := ['['] + caption + [']', '('] + url + [')'] + rest;
    assert s[1..] == caption + ([']'] + (['('] + url + [')'] + rest));
    IndexOfMark(caption, ']', ['('] + url + [')'] + rest);
    var close := 1 + |caption|;
    assert s[close + 1] == '(';
    assert s[close + 2..] == url + ([')'] + rest);
    IndexOfMark(url, ')', rest);
    assert s[1..close] == caption && s[close + 2..close + 2 + |url|] == url;
  }

  lemma {:induction false} ScanPrintedLink(seg: Seg, rest: string, buf: string)
    requires seg.url.Some? && IsPrintable(seg)
    ensures Scan(PrintSeg(seg) + rest, buf, seg.bold) == Flush(buf, seg.bold) + ([seg] + Scan(rest, [], seg.bold))
  {
    var s := PrintSeg(seg) + rest;
    assert s == ['['] + seg.text + [']', '('] + seg.url.value + [')'] + rest;
    PrintedLinkIsRead(seg.text, seg.url.value, rest);
    LabelIsItsText(seg.text);
    assert s[0] == '[';
  }

  /** A link that points nowhere is its caption's text. */
  lemma {:induction false} LinkToNowhereIsText(caption: string, url: string)
    requires IsLabel(caption) && ')' !in url && Trim(url) == []
    ensures Inline(['['] + caption + [']', '('] + url + [')']) == [Seg(caption, None, false)]
  {
    var s := ['['] + caption + [']', '('] + url + [')'];
    PrintedLinkIsRead(caption, url, []);
    assert s + [] == s;
    LabelIsItsText(caption);
    assert s[0] == '[' && LinkOf(s) == Some(Link(caption, url, |s|)) && s[|s|..] == [];
    assert Scan(s, [], false) == Flush([], false) + Scan([], caption, false);
  }

  lemma {:induction false} ScanMark(rest: string, buf: string, bold: bool)
    ensures Scan([STAR, STAR] + rest, buf, bold) == Flush(buf, bold) + Scan(rest, [], !bold)
  {
    assert ([STAR, STAR] + rest)[2..] == rest;
  }

  /** One segment whose emphasis is already on, with `buf` pending before it. */
  lemma {:induction false} ScanPrintedSeg(seg: Seg, others: seq<Seg>, buf: string)
    requires ArePrintable([seg] + others)
    requires buf != [] ==> seg.url.Some?
    ensures Scan(PrintSeg(seg) + Print(others, seg.bold), buf, seg.bold) == Flush(buf, seg.bold) + ([seg] + others)
    decreases |others|, 1
  {
    var rest := Print(others, seg.bold);
    var segs := [seg] + others;
    assert segs[0] == seg && segs[1..] == others;
    assert |others| > 0 ==> segs[1] == others[0];
    if seg.url.Some? {
      ScanPrintedLink(seg, rest, buf);
      ScanPrinted(others, [], seg.bold);
      assert [] + others == others;
    } else {
      ScanPlainText(seg.text, rest, [], seg.bold);
      assert [] + seg.text == seg.text;
      ScanPrinted(others, seg.text, seg.bold);
      assert seg == Seg(seg.text, None, seg.bold);
      assert [] + segs == segs;
    }
  }

  lemma PrintUnfolds(segs: seq<Seg>, bold: bool)
    requires segs != []
    ensures var body := PrintSeg(segs[0]) + Print(segs[1..], segs[0].bold);
            Print(segs, bold) == if segs[0].bold != bold then [STAR, STAR] + body else body
  {
    var body := PrintSeg(segs[0]) + Print(segs[1..], segs[0].bold);
    assert [] + body == body;
    AppendIsAssociative(Mark(segs[0].bold != bold), PrintSeg(segs[0]), Print(segs[1..], segs[0].bold));
  }

  lemma {:induction false} ScanPrinted(segs: seq<Seg>, buf: string, bold: bool)
    requires ArePrintable(segs)
    requires buf != [] && segs != [] && segs[0].url.None? ==> segs[0].bold != bold
    ensures Scan(Print(segs, bold), buf, bold) == Flush(buf, bold) + segs
    decreases |segs|, 0
  {
    if segs == [] {
      assert Flush(buf, bold) + segs == Flush(buf, bold);
      if bold {
        assert Print(segs, bold) == [STAR, STAR] + [];
        ScanMark([], buf, bold);
      }
    } else {
      var seg, others := segs[0], segs[1..];
      assert segs == [seg] + others;
      PrintUnfolds(segs, bold);
      if seg.bold != bold {
        ScanMark(PrintSeg(seg) + Print(others, seg.bold), buf, bold);
        ScanPrintedSeg(seg, others, []);
        assert [] + segs == segs;
      } else {
        ScanPrintedSeg(seg, others, buf);
      }
    }
  }

  /** Parsing printed segments gives the segments back. */
  lemma {:induction false} ParsePrintRoundTrip(segs: seq<Seg>)
    requires ArePrintable(segs)
    ensures Inline(Print(segs, false)) == segs
  {
    ScanPrinted(segs, [], false);
  }

  // ---- code marks ----

  function WithoutTicks(s: string): string {
    if s == [] then [] else (if s[0] == TICK then [] else [s[0]]) + WithoutTicks(s[1..])
  }

  /** Text with code marks but no other. */
  predicate HasOnlyTicks(s: string) {
    STAR !in s && '[' !in s
  }

  lemma {:induction false} ScanTicked(text: string, rest: string, buf: string, bold: bool)
    requires HasOnlyTicks(text)
    ensures Scan(text + rest, buf, bold) == Scan(rest, buf + WithoutTicks(text), bold)
    decreases |text|
  {
    if text == [] {
      assert text + rest == rest && buf + [] == buf;
    } else {
      var c, tail := text[0], text[1..];
      assert c in text && text + rest == [c] + (tail + rest);
      if c == TICK {
        ScanTick(tail + rest, buf, bold);
        ScanTicked(tail, rest, buf, bold);
        assert WithoutTicks(text) == WithoutTicks(tail);
      } else {
        ScanOrdinary(c, tail + rest, buf, bold);
        ScanTicked(tail, rest, buf + [c], bold);
        assert buf + [c] + WithoutTicks(tail) == buf + WithoutTicks(text);
      }
    }
  }

  lemma ScanTick(rest: string, buf: string, bold: bool)
    ensures Scan([TICK] + rest, buf, bold) == Scan(rest, buf, bold)
  {
    assert ([TICK] + rest)[1..] == rest;
  }

  lemma ScanOrdinary(c: char, rest: string, buf: string, bold: bool)
    requires c != TICK && c != STAR && c != '['
    ensures Scan([c] + rest, buf, bold) == Scan(rest, buf + [c], bold)
  {
    assert ([c] + rest)[1..] == rest;
  }

  lemma {:induction false} TickedText(text: string)
    requires HasOnlyTicks(text)
    ensures Inline(text) == Flush(WithoutTicks(text), false) && StripInline(text) == WithoutTicks(text)
  {
    ScanTicked(text, [], [], false);
    assert text + [] == text && [] + WithoutTicks(text) == WithoutTicks(text);
    TextOfFlush(WithoutTicks(text), false);
  }

  /** Code marks go, and all text between and around them stays. */
  lemma {:induction false} CodeIsKept(text: string)
    requires HasOnlyTicks(text) && WithoutTicks(text) != []
    ensures Inline(text) == [Seg(WithoutTicks(text), None, false)]
  {
    TickedText(text);
  }

  /** So too in the caption of a link. */
  lemma {:induction false} CodeInCaptionIsKept(text: string, url: string)
    requires HasOnlyTicks(text) && WithoutTicks(text) != [] && ']' !in text && IsUrl(url)
    ensures Inline(['['] + text + [']', '('] + url + [')']) == [Seg(WithoutTicks(text), Some(url), false)]
  {
    var s := ['['] + text + [']', '('] + url + [')'];
    PrintedLinkIsRead(text, url, []);
    assert s + [] == s;
    TickedText(text);
    ScanWholeLink(s, text, url);
  }

  lemma ScanWholeLink(s: string, text: string, url: string)
    requires LinkOf(s) == Some(Link(text, url, |s|)) && StripInline(text) != [] && Trim(url) != []
    ensures Inline(s) == [Seg(StripInline(text), Some(Trim(url)), false)]
  {
    assert s[0] == '[' && s[|s|..] == [];
    assert Scan([], [], false) == [];
  }

  /** Everything but the marks, in order. */
  lemma {:induction false} WithoutTicksAppend(a: string, b: string)
    ensures WithoutTicks(a + b) == WithoutTicks(a) + WithoutTicks(b)
    decreases |a|
  {
    if a == [] {
      assert a + b == b;
    } else {
      assert (a + b)[1..] == a[1..] + b;
      WithoutTicksAppend(a[1..], b);
      var first: string := if a[0] == TICK then [] else [a[0]];
      AppendIsAssociative(first, WithoutTicks(a[1..]), WithoutTicks(b));
    }
  }

  lemma {:induction false} NoTicksStay(s: string)
    requires TICK !in s
    ensures WithoutTicks(s) == s
    decreases |s|
  {
    if s != [] {
      NoTicksStay(s[1..]);
      assert s == [s[0]] + s[1..];
    }
  }
}
