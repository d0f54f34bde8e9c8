/**
  * LSP positions, and what they mean on plain text: an editor with no line index.
  *
  * A position is a zero-based line and a UTF-16 column (LSP 3.17, "Position"), and
  * every position has an offset: an excessive column means where the content of its
  * line stops, an excessive line means the length of the text.
  */
module Positions {
  import opened Prelude
  import opened Utf8
  import opened Lines

  type u32 = n: int | 0 <= n < 0x1_0000_0000

  datatype Position = Position(line: u32, character: u32)

  datatype Range = Range(start: Position, end: Position)

  /** Where the content of the line that begins at `from` ends: LF and one CR are left out. */
  function ContentEnd(text: seq<byte>, from: nat): (n: nat)
    requires from <= |text|
    ensures from <= n <= FindByte(text, LF, from)
  {
    var n := FindByte(text, LF, from);
    if from < n && text[n - 1] == CR then n - 1 else n
  }

  /** A line may end here: the text does, or an LF follows, or a CR that does. */
  predicate EndsLine(text: seq<byte>, e: nat) {
    e <= |text| && (AtTerminator(text, e) || (text[e] == CR && AtTerminator(text, e + 1)))
  }

  predicate AtTerminator(text: seq<byte>, e: nat) {
    e == |text| || (e < |text| && text[e] == LF)
  }

  /** That is where its content ends: the first such place with no LF before it, and the CR, if any, after it. */
  lemma ContentEndExact(text: seq<byte>, from: nat, e: nat)
    requires from <= |text|
    ensures e == ContentEnd(text, from) <==>
            && from <= e && EndsLine(text, e) && LF !in text[from..e]
            && !(from < e && text[e - 1] == CR && AtTerminator(text, e))
  {
    var n := FindByte(text, LF, from);
    assert from <= n < e <= |text| ==> text[from..e][n - from] == LF;
  }

  predicate InsideCrLf(text: seq<byte>, o: nat) {
    0 < o < |text| && text[o - 1] == CR && text[o] == LF
  }

  function Content(text: seq<byte>, from: nat): seq<byte>
    requires from <= |text|
  {
    text[from..ContentEnd(text, from)]
  }

  lemma ContentIsText(text: seq<byte>, from: nat)
    requires Valid(text) && IsBoundary(text, from)
    ensures Valid(Content(text, from)) && IsBoundary(text, ContentEnd(text, from))
    ensures FindByte(text, LF, from) < |text| ==> IsBoundary(text, FindByte(text, LF, from) + 1)
  {
    var n, m := FindByte(text, LF, from), ContentEnd(text, from);
    if n < |text| {
      AsciiStandsAlone(text, n);
    }
    if m < n {
      AsciiStandsAlone(text, m);
    }
    BoundaryOfSlice(text, from, m, 0);
  }

  /** Where the line `line` lines below the one that begins at `from` begins, if there is one. */
  function LineBegin(text: seq<byte>, from: nat, line: nat): (r: Option<nat>)
    requires from <= |text|
    ensures r.Some? ==> from <= r.value <= |text|
    decreases line
  {
    var n := FindByte(text, LF, from);
    if line == 0 then Some(from)
    else if n == |text| then None
    else LineBegin(text, n + 1, line - 1)
  }

  /** One line further; `n` is where this one ends. */
  lemma LineBeginStep(text: seq<byte>, from: nat, line: nat, above: nat, n: nat)
    requires from <= |text| && line == above + 1 && n == FindByte(text, LF, from)
    ensures LineBegin(text, from, line) == if n == |text| then None else LineBegin(text, n + 1, above)
  {
  }

  /** What follows an LF is a boundary, and not inside a CRLF. */
  lemma AfterLf(text: seq<byte>, n: nat, next: nat)
    requires Valid(text) && n < |text| && text[n] == LF && next == n + 1
    ensures IsBoundary(text, next) && !InsideCrLf(text, next)
  {
    AsciiStandsAlone(text, n);
  }

  lemma {:induction false} LineBeginIsBoundary(text: seq<byte>, from: nat, line: nat)
    requires Valid(text) && IsBoundary(text, from) && !InsideCrLf(text, from)
    ensures LineBegin(text, from, line).Some? ==>
              && IsBoundary(text, LineBegin(text, from, line).value)
              && !InsideCrLf(text, LineBegin(text, from, line).value)
    decreases line
  {
    if 0 < line {
      var n, above := FindByte(text, LF, from), line - 1;
      LineBeginStep(text, from, line, above, n);
      if n < |text| {
        var next := n + 1;
        AfterLf(text, n, next);
        LineBeginIsBoundary(text, next, above);
        assert LineBegin(text, from, line) == LineBegin(text, next, above);
      }
    }
  }

  /** Byte offset of a position, found by walking the text line by line. */
  function Offset(text: seq<byte>, p: Position): (o: nat)
    requires Valid(text)
    ensures o <= |text|
  {
    LineBeginIsBoundary(text, 0, p.line);
    match LineBegin(text, 0, p.line)
    case None => |text|
    case Some(start) =>
      ContentIsText(text, start);
      start + ByteOfColumn(Content(text, start), p.character)
  }

  /** The text a range selects; an inverted range selects nothing. */
  function Selected(text: seq<byte>, range: Range): seq<byte>
    requires Valid(text)
  {
    var start := Offset(text, range.start);
    text[start..Max(Offset(text, range.end), start)]
  }

  /** It is what lies between its two ends, the later of which counts if they come in the wrong order. */
  lemma SelectedIsBetween(text: seq<byte>, range: Range)
    requires Valid(text)
    ensures var start, end := Offset(text, range.start), Offset(text, range.end);
            && text == text[..start] + Selected(text, range) + text[Max(end, start)..]
            && (end <= start ==> Selected(text, range) == [])
  {
    ThreeParts(text, Offset(text, range.start), Max(Offset(text, range.end), Offset(text, range.start)));
  }

  // ---- the walk and the line index ----

  /** Where line `line` ends, its terminator included: the next entry of the index, if any. */
  function LineEnd(text: seq<byte>, line: nat): nat {
    Entry(LineStarts(text), line + 1, |text|)
  }

  lemma IndexOrdered(text: seq<byte>, i: nat, j: nat)
    requires i < j < |LineStarts(text)|
    ensures 0 <= LineStarts(text)[i] < LineStarts(text)[j] <= |text|
  {
    LineStartsExact(text, LineStarts(text));
    assert LineStarts(text)[j] in LineStarts(text);
  }

  lemma IndexOrder(text: seq<byte>, i: nat, j: nat)
    requires i <= j < |LineStarts(text)|
    ensures LineStarts(text)[i] <= LineStarts(text)[j]
  {
    if i < j {
      IndexOrdered(text, i, j);
    }
  }

  /** Every entry of the index is a character boundary, and all but the first follow an LF. */
  lemma IndexEntry(text: seq<byte>, k: nat)
    requires Valid(text) && k < |LineStarts(text)|
    ensures var x := LineStarts(text)[k];
            && x <= |text| && IsBoundary(text, x)
            && (if k == 0 then x == 0 else 0 < x && text[x - 1] == LF)
  {
    if 0 < k {
      LineStartsExact(text, LineStarts(text));
      IndexOrdered(text, 0, k);
      assert LineStarts(text)[k] in LineStarts(text);
      AsciiStandsAlone(text, LineStarts(text)[k] - 1);
    }
  }

  /** Every LF has its entry in the index. */
  lemma EntryOf(text: seq<byte>, n: nat) returns (j: nat)
    requires n < |text| && text[n] == LF
    ensures 0 < j < |LineStarts(text)| && LineStarts(text)[j] == n + 1
  {
    LineStartsExact(text, LineStarts(text));
    assert n + 1 in LineStarts(text);
    j :| 0 <= j < |LineStarts(text)| && LineStarts(text)[j] == n + 1;
  }

  /** The next entry of the index follows an LF at or after this one. */
  lemma NextEntryFollowsLf(text: seq<byte>, k: nat, next: nat)
    requires Valid(text) && next == k + 1 < |LineStarts(text)|
    ensures LineStarts(text)[k] < LineStarts(text)[next] <= |text|
    ensures FindByte(text, LF, LineStarts(text)[k]) < LineStarts(text)[next]
  {
    IndexEntry(text, next);
    IndexOrdered(text, k, next);
    assert text[LineStarts(text)[next] - 1] == LF;
  }

  /** The next LF has the next entry. */
  lemma NextLfHasEntry(text: seq<byte>, k: nat, next: nat, n: nat)
    requires Valid(text) && next == k + 1 <= |LineStarts(text)| && LineStarts(text)[k] <= |text|
    requires n == FindByte(text, LF, LineStarts(text)[k]) < |text|
    ensures next < |LineStarts(text)| && LineStarts(text)[next] <= n + 1
  {
    var j := EntryOf(text, n);
    if j <= k {
      IndexOrder(text, j, k);
    } else {
      IndexOrder(text, next, j);
    }
  }

  /** The next entry of the index is where the walk goes next. */
  lemma IndexFollowsWalk(text: seq<byte>, k: nat)
    requires Valid(text) && k < |LineStarts(text)|
    ensures LineStarts(text)[k] <= |text| && IsBoundary(text, LineStarts(text)[k])
    ensures k + 1 < |LineStarts(text)| ==>
              FindByte(text, LF, LineStarts(text)[k]) == LineStarts(text)[k + 1] - 1 < |text|
    ensures k + 1 == |LineStarts(text)| ==> FindByte(text, LF, LineStarts(text)[k]) == |text|
  {
    var next := k + 1;
    IndexEntry(text, k);
    var n := FindByte(text, LF, LineStarts(text)[k]);
    if next < |LineStarts(text)| {
      NextEntryFollowsLf(text, k, next);
    }
    if n < |text| {
      NextLfHasEntry(text, k, next, n);
    }
  }

  lemma IndexIsBoundaries(text: seq<byte>)
    requires Valid(text)
    ensures forall k: nat :: k < |LineStarts(text)| ==>
              LineStarts(text)[k] <= |text| && IsBoundary(text, LineStarts(text)[k])
  {
    forall k: nat | k < |LineStarts(text)|
      ensures LineStarts(text)[k] <= |text| && IsBoundary(text, LineStarts(text)[k])
    {
      IndexEntry(text, k);
    }
  }

  lemma EntryIsBoundary(text: seq<byte>, ls: seq<nat>, k: nat)
    requires forall j: nat :: j < |ls| ==> ls[j] <= |text| && IsBoundary(text, ls[j])
    ensures Entry(ls, k, |text|) <= |text| && IsBoundary(text, Entry(ls, k, |text|))
  {
  }

  lemma LineEndIsBoundary(text: seq<byte>, k: nat)
    requires Valid(text)
    ensures LineEnd(text, k) <= |text| && IsBoundary(text, LineEnd(text, k))
  {
    IndexIsBoundaries(text);
    EntryIsBoundary(text, LineStarts(text), k + 1);
  }

  /** Entry `k` is where a line starts, and the next entry where the line after it does, if there is one. */
  predicate IsLineEntry(text: seq<byte>, ls: seq<nat>, k: nat)
    requires k < |ls|
  {
    && ls[k] <= |text|
    && (k + 1 < |ls| ==> FindByte(text, LF, ls[k]) < |text| && FindByte(text, LF, ls[k]) + 1 == ls[k + 1])
    && (k + 1 == |ls| ==> FindByte(text, LF, ls[k]) == |text|)
  }

  /** The walk finds exactly what such entries list. */
  lemma {:induction false} WalkFindsEntries(text: seq<byte>, ls: seq<nat>, k: nat, line: nat, d: nat)
    requires forall j: nat :: j < |ls| ==> IsLineEntry(text, ls, j)
    requires k + d == line && k < |ls| && ls[k] <= |text|
    ensures LineBegin(text, ls[k], d) == if line < |ls| then Some(ls[line]) else None
    decreases d
  {
    if 0 < d {
      var next, above := k + 1, d - 1;
      assert IsLineEntry(text, ls, k);
      LineBeginStep(text, ls[k], d, above, FindByte(text, LF, ls[k]));
      if next < |ls| {
        assert IsLineEntry(text, ls, next);
        WalkFindsEntries(text, ls, next, line, above);
      }
    }
  }

  lemma IndexHasLineEntries(text: seq<byte>)
    requires Valid(text)
    ensures forall k: nat :: k < |LineStarts(text)| ==> IsLineEntry(text, LineStarts(text), k)
  {
    forall k: nat | k < |LineStarts(text)|
      ensures IsLineEntry(text, LineStarts(text), k)
    {
      IndexFollowsWalk(text, k);
    }
  }

  /** So it finds what the index lists. */
  lemma WalkIsIndex(text: seq<byte>, k: nat, line: nat, d: nat)
    requires Valid(text) && k + d == line && k < |LineStarts(text)|
    ensures LineStarts(text)[k] <= |text|
    ensures LineBegin(text, LineStarts(text)[k], d).Some? <==> line < |LineStarts(text)|
    ensures line < |LineStarts(text)| ==> LineBegin(text, LineStarts(text)[k], d).value == LineStarts(text)[line]
  {
    IndexHasLineEntries(text);
    assert IsLineEntry(text, LineStarts(text), k);
    WalkFindsEntries(text, LineStarts(text), k, line, d);
  }

  /** A position resolved through the index: its line's start plus the column's bytes, or the end. */
  lemma OffsetThroughIndex(text: seq<byte>, p: Position)
    requires Valid(text)
    ensures |LineStarts(text)| <= p.line ==> Offset(text, p) == |text|
    ensures p.line < |LineStarts(text)| ==>
              var start := LineStarts(text)[p.line];
              && IsBoundary(text, start) && Valid(Content(text, start))
              && Offset(text, p) == start + ByteOfColumn(Content(text, start), p.character)
              && Offset(text, p) <= FindByte(text, LF, start)
  {
    WalkIsIndex(text, 0, p.line, p.line);
    if p.line < |LineStarts(text)| {
      IndexFollowsWalk(text, p.line);
      ContentIsText(text, LineStarts(text)[p.line]);
    }
  }

  /** The content of line `k`, cut out through the index. */
  lemma LineByIndex(text: seq<byte>, k: nat, start: nat, end: nat)
    requires Valid(text) && k < |LineStarts(text)|
    requires start == LineStarts(text)[k] && end == LineEnd(text, k)
    ensures start <= end <= |text| && Valid(Content(text, start))
    ensures start < end && text[end - 1] == LF ==> FindByte(text, LF, start) == end - 1
    ensures start == end || text[end - 1] != LF ==> FindByte(text, LF, start) == end
  {
    IndexFollowsWalk(text, k);
    ContentIsText(text, start);
  }

  // ---- what a position may point at ----

  lemma ContentSplitsNoCrLf(text: seq<byte>, from: nat, o: nat)
    requires from <= |text| && !InsideCrLf(text, from) && from <= o <= ContentEnd(text, from)
    ensures !InsideCrLf(text, o)
  {
  }

  lemma ContentOffsetIsBoundary(text: seq<byte>, from: nat, col: nat, o: nat)
    requires Valid(text) && IsBoundary(text, from) && Valid(Content(text, from))
    requires o == from + ByteOfColumn(Content(text, from), col)
    ensures IsBoundary(text, o)
  {
    ContentIsText(text, from);
    ByteOfColumnSound(Content(text, from), col);
    BoundaryOfSlice(text, from, ContentEnd(text, from), o - from);
  }

  /** An offset is a character boundary and never separates a CR from its LF. */
  lemma OffsetIsBoundary(text: seq<byte>, p: Position)
    requires Valid(text)
    ensures IsBoundary(text, Offset(text, p)) && !InsideCrLf(text, Offset(text, p))
  {
    var begin := LineBegin(text, 0, p.line);
    LineBeginIsBoundary(text, 0, p.line);
    if begin.Some? {
      ContentIsText(text, begin.value);
      ContentOffsetIsBoundary(text, begin.value, p.character, Offset(text, p));
      ContentSplitsNoCrLf(text, begin.value, Offset(text, p));
    }
  }

  /**
    * On a line that exists, the offset is the greatest character boundary of the
    * line's content whose UTF-16 prefix is within the column, and nothing else is.
    */
  lemma OffsetIsGreatest(text: seq<byte>, p: Position, b: nat)
    requires Valid(text) && p.line < |LineStarts(text)|
    ensures var start := LineStarts(text)[p.line];
            && start <= |text| && Valid(Content(text, start))
            && (Offset(text, p) == start + b <==>
                var content := Content(text, start);
                && IsBoundary(content, b)
                && ColumnOfByte(content, b) <= p.character
                && forall k :: b < k && IsBoundary(content, k) ==> p.character < ColumnOfByte(content, k))
  {
    OffsetThroughIndex(text, p);
    ByteOfColumnIsGreatest(Content(text, LineStarts(text)[p.line]), p.character, b);
  }

  /** The content of a line before a boundary is text, so that boundary has a UTF-16 column. */
  lemma ContentPrefixIsText(text: seq<byte>, line: nat, start: nat, b: nat)
    requires Valid(text) && line < |LineStarts(text)| && start == LineStarts(text)[line] <= |text|
    requires start <= b <= ContentEnd(text, start) && IsBoundary(text, b)
    ensures Valid(text[start..b])
  {
    IndexFollowsWalk(text, line);
    BoundaryOfSlice(text, start, b, 0);
  }

  lemma PrefixOfContent(text: seq<byte>, start: nat, b: nat, content: seq<byte>, k: nat)
    requires Valid(text) && IsBoundary(text, start) && IsBoundary(text, b)
    requires start + k == b <= ContentEnd(text, start) && content == Content(text, start)
    ensures k <= |content| && IsBoundary(content, k) && content[..k] == text[start..b]
  {
    var end := ContentEnd(text, start);
    ContentIsText(text, start);
    BoundaryOfSlice(text, start, end, k);
    PrefixOfSlice(text, start, end, b, k);
  }

  lemma PrefixOfSlice(s: seq<byte>, lo: nat, hi: nat, b: nat, k: nat)
    requires lo + k == b <= hi <= |s|
    ensures k <= hi - lo && s[lo..hi][..k] == s[lo..b]
  {
  }

  lemma ColumnOfContentPrefix(text: seq<byte>, start: nat, b: nat)
    requires Valid(text) && IsBoundary(text, start) && IsBoundary(text, b)
    requires start <= b <= ContentEnd(text, start) && Valid(text[start..b]) && Valid(Content(text, start))
    ensures ByteOfColumn(Content(text, start), Utf16Len(text[start..b])) == b - start
  {
    var content, k := Content(text, start), b - start;
    PrefixOfContent(text, start, b, content, k);
    assert ColumnOfByte(content, k) == Utf16Len(text[start..b]);
    ColumnRoundTrip(content, k);
  }

  /** The UTF-16 column of a boundary of line `line`, which begins at `start`. */
  function ColumnIn(text: seq<byte>, line: nat, start: nat, b: nat): nat
    requires Valid(text) && line < |LineStarts(text)| && start == LineStarts(text)[line] <= |text|
    requires start <= b <= ContentEnd(text, start) && IsBoundary(text, b)
  {
    ContentPrefixIsText(text, line, start, b);
    Utf16Len(text[start..b])
  }

  /** Every boundary of a line's content is the offset of its own line and UTF-16 column. */
  lemma OffsetRoundTrip(text: seq<byte>, p: Position, start: nat, b: nat)
    requires Valid(text) && p.line < |LineStarts(text)| && start == LineStarts(text)[p.line] <= |text|
    requires start <= b <= ContentEnd(text, start) && IsBoundary(text, b)
    requires p.character == ColumnIn(text, p.line, start, b)
    ensures Offset(text, p) == b
  {
    ContentPrefixIsText(text, p.line, start, b);
    OffsetThroughIndex(text, p);
    ColumnOfContentPrefix(text, start, b);
  }

  predicate Before(p: Position, q: Position) {
    p.line < q.line || (p.line == q.line && p.character <= q.character)
  }

  /** A position on a line that exists stays on that line. */
  lemma OffsetStaysOnLine(text: seq<byte>, p: Position)
    requires Valid(text) && p.line < |LineStarts(text)|
    ensures LineStarts(text)[p.line] <= Offset(text, p)
    ensures p.line + 1 < |LineStarts(text)| ==> Offset(text, p) < LineStarts(text)[p.line + 1]
  {
    var start := LineStarts(text)[p.line];
    IndexFollowsWalk(text, p.line);
    OffsetWithinLine(text, p, start, FindByte(text, LF, start));
  }

  lemma OffsetWithinLine(text: seq<byte>, p: Position, start: nat, end: nat)
    requires Valid(text) && p.line < |LineStarts(text)| && start == LineStarts(text)[p.line] <= |text|
    requires end == FindByte(text, LF, start)
    ensures start <= Offset(text, p) <= end
  {
    OffsetThroughIndex(text, p);
  }

  lemma OffsetMonotoneOnLine(text: seq<byte>, p: Position, q: Position)
    requires Valid(text) && p.line == q.line && p.character <= q.character
    ensures Offset(text, p) <= Offset(text, q)
  {
    var begin := LineBegin(text, 0, p.line);
    if begin.Some? {
      LineBeginIsBoundary(text, 0, p.line);
      ContentIsText(text, begin.value);
      ByteOfColumnMonotone(Content(text, begin.value), p.character, q.character);
    }
  }

  /** Later positions have later offsets. */
  lemma OffsetMonotone(text: seq<byte>, p: Position, q: Position)
    requires Valid(text) && Before(p, q)
    ensures Offset(text, p) <= Offset(text, q)
  {
    if p.line == q.line {
      OffsetMonotoneOnLine(text, p, q);
    } else if q.line < |LineStarts(text)| {
      OffsetStaysOnLine(text, p);
      OffsetStaysOnLine(text, q);
      IndexOrder(text, p.line + 1, q.line);
    } else {
      OffsetThroughIndex(text, q);
    }
  }

  // ---- the window read ----

  /** The window ends where line `last` ends, or is empty when that is before its start. */
  function WindowEnd(text: seq<byte>, start: nat, last: nat): nat {
    Max(LineEnd(text, last), start)
  }

  /** The range, counted from the first line of the window. */
  function Rebased(range: Range): Range {
    var first, last := range.start.line, range.end.line;
    Range(Position(0, range.start.character),
          Position(if first <= last then last - first else 0, range.end.character))
  }

  /** Both ends of the window are line boundaries, so it is text. */
  lemma WindowIsText(text: seq<byte>, first: nat, last: nat, start: nat, end: nat)
    requires Valid(text) && first < |LineStarts(text)|
    requires start == LineStarts(text)[first] && end == WindowEnd(text, start, last)
    ensures start <= end <= |text| && IsBoundary(text, start) && IsBoundary(text, end)
    ensures Valid(text[start..end])
  {
    IndexFollowsWalk(text, first);
    LineEndIsBoundary(text, last);
    BoundaryOfSlice(text, start, end, 0);
  }

  /** A line that ends inside the window ends in the same place seen from inside it. */
  lemma LineInWindow(text: seq<byte>, start: nat, end: nat, from: nat, i: nat)
    requires start + i == from <= end <= |text|
    requires FindByte(text, LF, from) < end || end == |text|
    ensures FindByte(text[start..end], LF, i) == FindByte(text, LF, from) - start
  {
    var window := text[start..end];
    var n, m := FindByte(text, LF, from), FindByte(window, LF, i);
    assert m < |window| ==> window[m] == text[start + m];
    assert n < end ==> window[n - start] == text[n];
  }

  /** And it has the same content. */
  lemma ContentInWindow(text: seq<byte>, start: nat, end: nat, from: nat, i: nat)
    requires start + i == from <= end <= |text|
    requires FindByte(text, LF, from) < end || end == |text|
    ensures Content(text[start..end], i) == Content(text, from)
  {
    LineInWindow(text, start, end, from, i);
    var window := text[start..end];
    var n, m := FindByte(text, LF, from), FindByte(window, LF, i);
    assert from < n ==> window[m - 1] == text[n - 1];
    var c := ContentEnd(window, i);
    assert ContentEnd(text, from) == start + c;
    SliceSlice(text, start, end, i, c);
  }

  /**
    * One line of a walk inside the window keeps step with one line of a walk through the
    * whole text; `goal` is where the latter leads. Either both stop, or they go on, at
    * `j` and at `next`.
    */
  lemma StepInWindow(
    text: seq<byte>, from: nat, line: nat, above: nat, goal: Option<nat>, start: nat, end: nat, window: seq<byte>,
    i: nat) returns (stop: bool, next: nat, j: nat)
    requires start + i == from <= end <= |text| && window == text[start..end] && line == above + 1
    requires goal == LineBegin(text, from, line)
    requires goal.Some? ==> goal.value <= end
    requires goal.None? ==> end == |text|
    ensures stop ==> goal.None? && LineBegin(window, i, line).None?
    ensures !stop ==> start + j == next <= end && goal == LineBegin(text, next, above)
    ensures !stop ==> LineBegin(window, i, line) == LineBegin(window, j, above)
  {
    var n, m := FindByte(text, LF, from), FindByte(window, LF, i);
    stop, next, j := n == |text|, n + 1, m + 1;
    StepOfWalk(text, from, line, above, n, next);
    LineInWindow(text, start, end, from, i);
    StepOfWalk(window, i, line, above, m, j);
  }

  /** `LineBeginStep`, told apart by whether there is a next line. */
  lemma StepOfWalk(text: seq<byte>, from: nat, line: nat, above: nat, n: nat, next: nat)
    requires from <= |text| && line == above + 1 && n == FindByte(text, LF, from) && next == n + 1
    ensures n == |text| ==> LineBegin(text, from, line).None?
    ensures n < |text| ==> LineBegin(text, from, line) == LineBegin(text, next, above)
    ensures n < |text| && LineBegin(text, next, above).Some? ==> next <= LineBegin(text, next, above).value
  {
    LineBeginStep(text, from, line, above, n);
  }

  /** So does the whole walk. */
  lemma {:induction false} WalkInWindow(
    text: seq<byte>, from: nat, line: nat, goal: Option<nat>, start: nat, end: nat, window: seq<byte>, i: nat)
    requires start + i == from <= end <= |text| && window == text[start..end]
    requires goal == LineBegin(text, from, line)
    requires goal.Some? ==> goal.value <= end
    requires goal.None? ==> end == |text|
    ensures LineBegin(window, i, line).Some? <==> goal.Some?
    ensures goal.Some? ==> start + LineBegin(window, i, line).value == goal.value
    decreases line
  {
    if 0 < line {
      var above := line - 1;
      var stop, next, j := StepInWindow(text, from, line, above, goal, start, end, window, i);
      if !stop {
        WalkInWindow(text, next, above, goal, start, end, window, j);
      }
    }
  }

  /** The walk reaches a line inside the window exactly when it does in the whole text. */
  lemma WalkOfWindow(text: seq<byte>, line: nat, first: nat, last: nat, start: nat, end: nat, d: nat)
    requires Valid(text) && first + d == line <= last && first < |LineStarts(text)|
    requires start == LineStarts(text)[first] && end == WindowEnd(text, start, last) && start <= end <= |text|
    ensures LineBegin(text[start..end], 0, d).Some? <==> line < |LineStarts(text)|
    ensures line < |LineStarts(text)| ==>
              && start <= LineStarts(text)[line] <= end
              && LineBegin(text[start..end], 0, d).value == LineStarts(text)[line] - start
  {
    WalkIsIndex(text, first, line, d);
    if line < |LineStarts(text)| {
      LineReachesInto(text, line, last, end);
      IndexOrder(text, first, line);
    }
    WalkInWindow(text, start, d, LineBegin(text, start, d), start, end, text[start..end], 0);
  }

  /** The window holds the whole content of every line it reaches. */
  lemma ContentOfWindow(text: seq<byte>, line: nat, last: nat, start: nat, end: nat, i: nat)
    requires Valid(text) && line <= last && line < |LineStarts(text)| && LineStarts(text)[line] == start + i
    requires end == WindowEnd(text, start, last) && start <= end <= |text|
    ensures start + i <= end
    ensures Content(text[start..end], i) == Content(text, LineStarts(text)[line])
  {
    LineReachesInto(text, line, last, end);
    ContentInWindow(text, start, end, LineStarts(text)[line], i);
  }

  /** Offsets on two lines of equal content differ as the lines' beginnings do. */
  lemma SameContentSameColumn(a: seq<byte>, p: Position, i: nat, b: seq<byte>, q: Position, j: nat)
    requires Valid(a) && LineBegin(a, 0, p.line).Some? && LineBegin(a, 0, p.line).value == i
    requires Valid(b) && LineBegin(b, 0, q.line).Some? && LineBegin(b, 0, q.line).value == j
    requires Content(a, i) == Content(b, j) && p.character == q.character
    ensures Offset(a, p) - i == Offset(b, q) - j
  {
  }

  lemma OffsetInWindow(text: seq<byte>, p: Position, q: Position, first: nat, last: nat, start: nat, end: nat)
    requires Valid(text) && first <= p.line <= last && first < |LineStarts(text)|
    requires start == LineStarts(text)[first] && end == WindowEnd(text, start, last)
    requires q.line == p.line - first && q.character == p.character
    requires start <= end <= |text| && Valid(text[start..end])
    ensures Offset(text, p) == start + Offset(text[start..end], q)
  {
    WalkOfWindow(text, p.line, first, last, start, end, q.line);
    WalkIsIndex(text, 0, p.line, p.line);
    if p.line < |LineStarts(text)| {
      var b := LineStarts(text)[p.line];
      var i := b - start;
      ContentOfWindow(text, p.line, last, start, end, i);
      SameContentSameColumn(text, p, b, text[start..end], q, i);
    }
  }

  lemma LineReachesInto(text: seq<byte>, line: nat, last: nat, end: nat)
    requires Valid(text) && line <= last && line < |LineStarts(text)| && LineEnd(text, last) <= end <= |text|
    ensures LineStarts(text)[line] <= end
    ensures FindByte(text, LF, LineStarts(text)[line]) < end || end == |text|
  {
    IndexFollowsWalk(text, line);
    if line < last && last + 1 < |LineStarts(text)| {
      IndexOrdered(text, line + 1, last + 1);
    }
  }

  /**
    * The window is enough: for every range, inverted ones and those with excessive
    * lines or columns included, it selects what the whole text does.
    */
  lemma WindowAnswersWholeText(text: seq<byte>, range: Range, start: nat, end: nat)
    requires Valid(text) && range.start.line < |LineStarts(text)|
    requires start == LineStarts(text)[range.start.line] && end == WindowEnd(text, start, range.end.line)
    ensures start <= end <= |text| && Valid(text[start..end])
    ensures Selected(text[start..end], Rebased(range)) == Selected(text, range)
  {
    WindowIsText(text, range.start.line, range.end.line, start, end);
    if range.end.line < range.start.line {
      InvertedWindow(text, range, start);
    } else {
      var inside := Rebased(range);
      OffsetInWindow(text, range.start, inside.start, range.start.line, range.end.line, start, end);
      OffsetInWindow(text, range.end, inside.end, range.start.line, range.end.line, start, end);
      var window := text[start..end];
      SameSlice(text, range, window, inside, start, end, Offset(window, inside.start), Offset(window, inside.end),
                Offset(text, range.start), Offset(text, range.end));
    }
  }

  /** What is selected between two offsets. */
  lemma SelectedAt(text: seq<byte>, range: Range, i: nat, j: nat, part: seq<byte>)
    requires Valid(text) && i == Offset(text, range.start) && j == Offset(text, range.end)
    requires i <= |text| && j <= |text| && part == text[i..Max(j, i)]
    ensures Selected(text, range) == part
  {
  }

  /** Between two places of a window lies what lies between them in the text. */
  lemma SamePart(text: seq<byte>, window: seq<byte>, start: nat, end: nat, i: nat, j: nat, a: nat, b: nat)
    requires start <= end <= |text| && window == text[start..end] && i <= |window| && j <= |window|
    requires a == start + i && b == start + j
    ensures a <= |text| && b <= |text| && window[i..Max(j, i)] == text[a..Max(b, a)]
  {
    SliceSlice(text, start, end, i, Max(j, i));
  }

  lemma SameSlice(
    text: seq<byte>, range: Range, window: seq<byte>, inside: Range, start: nat, end: nat,
    i: nat, j: nat, a: nat, b: nat)
    requires start <= end <= |text| && window == text[start..end] && Valid(text) && Valid(window)
    requires i == Offset(window, inside.start) && j == Offset(window, inside.end)
    requires a == Offset(text, range.start) && b == Offset(text, range.end)
    requires i <= |window| && j <= |window| && a == start + i && b == start + j
    ensures Selected(window, inside) == Selected(text, range)
  {
    SamePart(text, window, start, end, i, j, a, b);
    SelectedAt(window, inside, i, j, window[i..Max(j, i)]);
    SelectedAt(text, range, a, b, window[i..Max(j, i)]);
  }

  /** A range whose end line comes first has an empty window, and selects nothing. */
  lemma InvertedWindow(text: seq<byte>, range: Range, start: nat)
    requires Valid(text) && range.end.line < range.start.line < |LineStarts(text)|
    requires start == LineStarts(text)[range.start.line]
    ensures WindowEnd(text, start, range.end.line) == start
    ensures Selected(text, range) == []
  {
    if range.end.line + 1 < range.start.line {
      IndexOrdered(text, range.end.line + 1, range.start.line);
    }
    OffsetMonotone(text, range.end, range.start);
  }

  /** A range that begins past the last line selects nothing. */
  lemma NothingPastTheEnd(text: seq<byte>, range: Range)
    requires Valid(text) && |LineStarts(text)| <= range.start.line
    ensures Selected(text, range) == []
  {
    OffsetThroughIndex(text, range.start);
  }

  /** A range's bounds are character boundaries in order: the slice is always there to take. */
  lemma SelectedIsText(text: seq<byte>, range: Range)
    requires Valid(text)
    ensures var start := Offset(text, range.start);
            var end := Max(Offset(text, range.end), start);
            && start <= end <= |text| && IsBoundary(text, start) && IsBoundary(text, end)
            && Valid(text[start..end])
  {
    OffsetIsBoundary(text, range.start);
    OffsetIsBoundary(text, range.end);
    var start := Offset(text, range.start);
    BoundaryOfSlice(text, start, Max(Offset(text, range.end), start), 0);
  }

  /** Splicing text between two boundaries of text gives text. */
  lemma ReplacedValid(text: seq<byte>, start: nat, end: nat, inserted: seq<byte>)
    requires Valid(text) && Valid(inserted) && start <= end
    requires IsBoundary(text, start) && IsBoundary(text, end)
    ensures Valid(Replaced(text, start, end, inserted))
  {
    SplitValid(text, start);
    SplitValid(text, end);
    ConcatValid(text[..start], inserted);
    ConcatValid(text[..start] + inserted, text[end..]);
  }

  lemma UndoneText(text: seq<byte>, start: nat, end: nat, inserted: seq<byte>)
    requires start <= end <= |text|
    ensures var after := Replaced(text, start, end, inserted);
            && start + |inserted| <= |after|
            && Replaced(after, start, start + |inserted|, text[start..end]) == text
  {
  }

  lemma TextStartsWithCharacter(s: seq<byte>)
    requires Valid(s)
    ensures s != [] ==> !IsTail(s[0])
  {
  }

  lemma InsertedIsBounded(a: seq<byte>, b: seq<byte>, c: seq<byte>, i: nat, j: nat)
    requires Valid(b) && Valid(c) && i == |a| && j == i + |b|
    ensures IsBoundary(a + b + c, i) && IsBoundary(a + b + c, j)
  {
    TextStartsWithCharacter(b);
    TextStartsWithCharacter(c);
  }

  /** An edit can be undone by an edit: the span it wrote is text again, and so is what it removed. */
  lemma EditIsInvertible(text: seq<byte>, start: nat, end: nat, inserted: seq<byte>)
    requires Valid(text) && Valid(inserted) && start <= end
    requires IsBoundary(text, start) && IsBoundary(text, end)
    ensures Valid(text[start..end])
    ensures var after := Replaced(text, start, end, inserted);
            && start + |inserted| <= |after| && Valid(after)
            && IsBoundary(after, start) && IsBoundary(after, start + |inserted|)
            && Replaced(after, start, start + |inserted|, text[start..end]) == text
  {
    BoundaryOfSlice(text, start, end, 0);
    SplitValid(text, end);
    ReplacedValid(text, start, end, inserted);
    InsertedIsBounded(text[..start], inserted, text[end..], start, start + |inserted|);
    UndoneText(text, start, end, inserted);
  }
}
