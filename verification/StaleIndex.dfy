/**
  * When a window read under an index answers what reading the whole file does, although
  * the file may no longer be the one that was indexed.
  */
module StaleIndex {
  import opened Prelude
  import opened Utf8
  import opened Lines
  import opened Positions
  import opened Files

  const U32_MAX: u32 := 0xFFFF_FFFF

  /** An index without the entry for an empty line at the very end. */
  function Trimmed(lineStarts: seq<nat>, len: nat): seq<nat> {
    var last := |lineStarts| - 1;
    if 0 < last && lineStarts[last] == len then lineStarts[..last] else lineStarts
  }

  /** The shape of any line index of a text of this length. */
  ghost predicate IsIndexShaped(lineStarts: seq<nat>, len: nat) {
    && StrictlyIncreasing(lineStarts)
    && lineStarts != [] && lineStarts[0] == 0
    && forall i :: 0 <= i < |lineStarts| ==> lineStarts[i] <= len
  }

  lemma LineIndexIsShaped(text: seq<byte>, lineStarts: seq<nat>)
    requires IsLineIndex(text, lineStarts)
    ensures IsIndexShaped(lineStarts, |text|)
  {
    assert 0 in lineStarts;
    forall i | 0 <= i < |lineStarts|
      ensures lineStarts[i] <= |text|
    {
      assert lineStarts[i] in lineStarts;
    }
  }

  /** Entries of an index leave room for those before them. */
  lemma {:induction false} EntryIsAtLeastItsPlace(lineStarts: seq<nat>, len: nat, k: nat)
    requires IsIndexShaped(lineStarts, len) && k < |lineStarts|
    ensures k <= lineStarts[k]
  {
    if 0 < k {
      EntryIsAtLeastItsPlace(lineStarts, len, k - 1);
    }
  }

  lemma EmptyWindow(lineStarts: seq<nat>, len: nat, tree: Tree, path: Path, range: Range)
    requires Window(lineStarts, len, range) == Some((len, len))
    ensures WindowAnswer(lineStarts, len, tree, path, range) == []
  {
  }

  lemma SameWindow(lineStarts: seq<nat>, len: nat, range: Range, last: nat)
    requires last == |lineStarts| - 1 && lineStarts[last] == len && range.start.line != last
    ensures Window(lineStarts[..last], len, range) == Window(lineStarts, len, range)
  {
  }

  /** The last, empty line makes no difference to any answer. */
  lemma TrimmedAnswersAlike(lineStarts: seq<nat>, len: nat, tree: Tree, path: Path, range: Range)
    requires forall i :: 0 <= i < |lineStarts| ==> lineStarts[i] <= len
    ensures WindowAnswer(Trimmed(lineStarts, len), len, tree, path, range)
         == WindowAnswer(lineStarts, len, tree, path, range)
  {
    var last := |lineStarts| - 1;
    if 0 < last && lineStarts[last] == len {
      if range.start.line == last {
        EmptyWindow(lineStarts, len, tree, path, range);
      } else {
        SameWindow(lineStarts, len, range, last);
      }
    }
  }

  /** An index that is right up to that last line answers what reading the whole file does. */
  lemma TrimmedIndexAnswersColdRead(lineStarts: seq<nat>, len: nat, tree: Tree, path: Path, range: Range)
    requires forall i :: 0 <= i < |lineStarts| ==> lineStarts[i] <= len
    requires path in tree && Valid(tree[path].content) && len == |tree[path].content|
    requires Trimmed(lineStarts, len) == Trimmed(LineStarts(tree[path].content), len)
    ensures WindowAnswer(lineStarts, len, tree, path, range) == ColdRead(tree, path, range)
  {
    var text := tree[path].content;
    LineStartsExact(text, LineStarts(text));
    LineIndexIsShaped(text, LineStarts(text));
    TrimmedAnswersAlike(lineStarts, len, tree, path, range);
    TrimmedAnswersAlike(LineStarts(text), len, tree, path, range);
    WindowedReadIsColdRead(LineStarts(text), len, tree, path, range);
  }

  // ---- and only such an index does ----

  /** From the start of line `k` to past any last line. */
  function FromLine(k: u32): Range {
    Range(Position(k, 0), Position(U32_MAX, 0))
  }

  /** From the start of line `k` to past any last column of line `m`. */
  function LinesOf(k: u32, m: u32): Range {
    Range(Position(k, 0), Position(m, U32_MAX))
  }

  lemma FewLines(text: seq<byte>)
    ensures 0 < |LineStarts(text)| <= |text| + 1
  {
    LineStartsExact(text, LineStarts(text));
    LineIndexIsShaped(text, LineStarts(text));
    EntryIsAtLeastItsPlace(LineStarts(text), |text|, |LineStarts(text)| - 1);
  }

  lemma ColumnZero(line: seq<byte>)
    requires Valid(line)
    ensures ByteOfColumn(line, 0) == 0
  {
  }

  lemma OffsetOfLineStart(text: seq<byte>, k: u32)
    requires Valid(text)
    ensures Offset(text, Position(k, 0)) == Entry(LineStarts(text), k, |text|)
  {
    OffsetThroughIndex(text, Position(k, 0));
    if k < |LineStarts(text)| {
      ColumnZero(Content(text, LineStarts(text)[k]));
    }
  }

  lemma OffsetPastTheEnd(text: seq<byte>, m: u32)
    requires Valid(text) && |text| < m
    ensures Offset(text, Position(m, 0)) == |text|
  {
    FewLines(text);
    OffsetThroughIndex(text, Position(m, 0));
  }

  /** The whole file answers such a range with all of it from that line on. */
  lemma ColdSuffix(text: seq<byte>, k: u32)
    requires Valid(text) && |text| < U32_MAX
    ensures var y := Entry(LineStarts(text), k, |text|);
            y <= |text| && Selected(text, FromLine(k)) == text[y..]
  {
    OffsetOfLineStart(text, k);
    OffsetPastTheEnd(text, U32_MAX);
  }

  /** A window answers a range over more lines than it can have with all of it. */
  lemma WholeWindow(window: seq<byte>, m: u32)
    requires Valid(window) && |window| < m
    ensures Selected(window, Range(Position(0, 0), Position(m, 0))) == window
  {
    OffsetOfLineStart(window, 0);
    OffsetPastTheEnd(window, m);
  }

  /** What an index makes of a window, in terms of the file alone. */
  lemma AnswerOfWindow(
    lineStarts: seq<nat>, len: nat, tree: Tree, path: Path, range: Range, start: nat, end: nat)
    requires Window(lineStarts, len, range) == Some((start, end))
    requires path in tree && tree[path].readable && start <= end <= |tree[path].content|
    ensures var window := tree[path].content[start..end];
            WindowAnswer(lineStarts, len, tree, path, range)
            == if Valid(window) then Selected(window, Rebased(range)) else []
  {
    assert start == end ==> tree[path].content[start..end] == [];
  }

  lemma WindowToTheEnd(lineStarts: seq<nat>, len: nat, k: u32)
    requires IsIndexShaped(lineStarts, len) && len < U32_MAX && k < |lineStarts|
    ensures Window(lineStarts, len, FromLine(k)) == Some((lineStarts[k], len))
    ensures k <= lineStarts[k]
  {
    EntryIsAtLeastItsPlace(lineStarts, len, k);
    EntryIsAtLeastItsPlace(lineStarts, len, |lineStarts| - 1);
  }

  lemma RebasedFromLine(window: seq<byte>, k: u32)
    requires Valid(window) && |window| + k < U32_MAX
    ensures Selected(window, Rebased(FromLine(k))) == window
  {
    WholeWindow(window, U32_MAX - k);
  }

  /** So under an index, a window that reaches to the end is seen whole. */
  lemma WindowSuffix(lineStarts: seq<nat>, len: nat, tree: Tree, path: Path, k: u32, window: seq<byte>)
    requires IsIndexShaped(lineStarts, len) && len < U32_MAX && k < |lineStarts|
    requires path in tree && tree[path].readable && |tree[path].content| == len
    requires window == tree[path].content[lineStarts[k]..len]
    ensures WindowAnswer(lineStarts, len, tree, path, FromLine(k)) == if Valid(window) then window else []
  {
    WindowToTheEnd(lineStarts, len, k);
    AnswerOfWindow(lineStarts, len, tree, path, FromLine(k), lineStarts[k], len);
    if Valid(window) {
      RebasedFromLine(window, k);
    }
  }

  /** The first place where two lists part. */
  lemma Parting(a: seq<nat>, b: seq<nat>) returns (k: nat)
    requires a != b
    ensures k <= |a| && k <= |b| && a[..k] == b[..k]
    ensures k < |a| || k < |b|
    ensures k < |a| && k < |b| ==> a[k] != b[k]
  {
    k := 0;
    while k < |a| && k < |b| && a[k] == b[k]
      invariant k <= |a| && k <= |b| && a[..k] == b[..k]
    {
      k := k + 1;
    }
  }

  /** Past the first, entries that were not trimmed are before the end. */
  lemma TrimmedIsBefore(lineStarts: seq<nat>, len: nat, k: nat)
    requires IsIndexShaped(lineStarts, len)
    ensures IsIndexShaped(Trimmed(lineStarts, len), len)
    ensures 0 < k < |Trimmed(lineStarts, len)| ==> Trimmed(lineStarts, len)[k] < len
    ensures k <= |Trimmed(lineStarts, len)| ==> Entry(lineStarts, k, len) == Entry(Trimmed(lineStarts, len), k, len)
  {
  }

  lemma {:induction false} RestIsText(a: seq<byte>, b: seq<byte>)
    requires Valid(a)
    ensures Valid(a + b) ==> Valid(b)
  {
    if a == [] {
      assert a + b == b;
    } else {
      CharLenOfPrefix(a, b);
      RestIsText(a[CharLen(a)..], b);
    }
  }

  /** A prefix that is text ends between two characters. */
  lemma TextPrefixEndsAtBoundary(text: seq<byte>, x: nat)
    requires Valid(text) && x <= |text| && Valid(text[..x])
    ensures IsBoundary(text, x)
  {
    assert text == text[..x] + text[x..];
    RestIsText(text[..x], text[x..]);
    BoundaryIffBothHalvesValid(text, x);
  }

  /** So does a window that is text and begins at a boundary. */
  lemma PrefixEndsAtBoundary(text: seq<byte>, p: nat, x: nat)
    requires Valid(text) && p <= x <= |text| && IsBoundary(text, p) && Valid(text[p..x])
    ensures IsBoundary(text, x)
  {
    assert text[..x] == text[..p] + text[p..x];
    assert Valid(text[..x]) by {
      SplitValid(text, p);
      ConcatValid(text[..p], text[p..x]);
    }
    TextPrefixEndsAtBoundary(text, x);
  }

  /** A line that holds the inside of a character is not empty. */
  lemma LineAroundCharacter(text: seq<byte>, p: nat, x: nat)
    requires Valid(text) && p < x < |text| && !IsBoundary(text, x)
    requires |text| - 1 <= FindByte(text, LF, p)
    ensures p < ContentEnd(text, p)
  {
    assert IsTail(text[x]);
  }

  lemma LargeColumn(line: seq<byte>)
    requires Valid(line) && line != []
    ensures 0 < ByteOfColumn(line, U32_MAX)
  {
  }

  lemma OffsetOfLineEnd(text: seq<byte>, k: u32)
    requires Valid(text) && k < |LineStarts(text)| && LineStarts(text)[k] <= |text|
    requires LineStarts(text)[k] < ContentEnd(text, LineStarts(text)[k])
    ensures LineStarts(text)[k] < Offset(text, Position(k, U32_MAX))
  {
    OffsetThroughIndex(text, Position(k, U32_MAX));
    LargeColumn(Content(text, LineStarts(text)[k]));
  }

  /** So the whole file shows something of it. */
  lemma ColdLine(text: seq<byte>, k: u32)
    requires Valid(text) && k < |LineStarts(text)| && LineStarts(text)[k] <= |text|
    requires LineStarts(text)[k] < ContentEnd(text, LineStarts(text)[k])
    ensures Selected(text, LinesOf(k, k)) != []
  {
    OffsetOfLineStart(text, k);
    OffsetOfLineEnd(text, k);
  }

  /** A window that ends inside a character is not text, and nothing is answered from it. */
  lemma BrokenWindow(lineStarts: seq<nat>, len: nat, tree: Tree, path: Path, k: u32, p: nat, x: nat)
    requires IsIndexShaped(lineStarts, len) && k + 1 < |lineStarts| && lineStarts[k] == p && lineStarts[k + 1] == x
    requires path in tree && Valid(tree[path].content) && |tree[path].content| == len
    requires IsBoundary(tree[path].content, p) && !IsBoundary(tree[path].content, x)
    ensures WindowAnswer(lineStarts, len, tree, path, LinesOf(k, k)) == []
  {
    if tree[path].readable {
      AnswerOfWindow(lineStarts, len, tree, path, LinesOf(k, k), p, x);
    }
    if Valid(tree[path].content[p..x]) {
      PrefixEndsAtBoundary(tree[path].content, p, x);
    }
  }

  /** The last line that the trimmed index lists goes on to the end of the text. */
  lemma LastLine(text: seq<byte>, k: nat)
    requires Valid(text) && k + 1 == |Trimmed(LineStarts(text), |text|)|
    ensures k < |LineStarts(text)| && LineStarts(text)[k] <= |text|
    ensures |text| - 1 <= FindByte(text, LF, LineStarts(text)[k])
  {
    FewLines(text);
    IndexFollowsWalk(text, k);
  }

  /** An index with an entry too many, inside a character of the last line, hides that line. */
  lemma HiddenLine(lineStarts: seq<nat>, len: nat, tree: Tree, path: Path, k: nat, m: u32)
    requires IsIndexShaped(lineStarts, len) && 0 < k < |lineStarts| && lineStarts[k] < len && m == k - 1
    requires path in tree && tree[path].readable && Valid(tree[path].content) && |tree[path].content| == len
    requires k == |Trimmed(LineStarts(tree[path].content), len)|
    requires lineStarts[..k] == Trimmed(LineStarts(tree[path].content), len)
    requires !Valid(tree[path].content[lineStarts[k]..])
    ensures WindowAnswer(lineStarts, len, tree, path, LinesOf(m, m)) != ColdRead(tree, path, LinesOf(m, m))
  {
    var text := tree[path].content;
    var p, x := lineStarts[m], lineStarts[k];
    assert p == lineStarts[..k][m] == LineStarts(text)[m];
    IndexEntry(text, m);
    assert !IsBoundary(text, x) by {
      if IsBoundary(text, x) {
        SplitValid(text, x);
      }
    }
    BrokenWindow(lineStarts, len, tree, path, m, p, x);
    LastLine(text, m);
    LineAroundCharacter(text, p, x);
    ColdLine(text, m);
  }

  /** Two suffixes differ, unless the first is broken and the second empty. */
  lemma SuffixesDiffer(text: seq<byte>, x: nat, y: nat)
    requires x <= |text| && y <= |text| && x != y
    requires Valid(text[x..]) || y < |text|
    ensures (if Valid(text[x..]) then text[x..] else []) != text[y..]
  {
    assert |text[x..]| != |text[y..]|;
    assert y < |text| ==> 0 < |text[y..]|;
  }

  /** A suffix that is not hidden tells where its line starts. */
  lemma SuffixTells(lineStarts: seq<nat>, len: nat, tree: Tree, path: Path, k: u32, x: nat, y: nat)
    requires IsIndexShaped(lineStarts, len) && len < U32_MAX
    requires path in tree && tree[path].readable && |tree[path].content| == len
    requires x == Entry(lineStarts, k, len) && x != y <= len
    requires k < |lineStarts| ==> Valid(tree[path].content[x..]) || y < len
    ensures WindowAnswer(lineStarts, len, tree, path, FromLine(k)) != tree[path].content[y..]
  {
    var text := tree[path].content;
    if k < |lineStarts| {
      assert text[x..] == text[x..len];
      WindowSuffix(lineStarts, len, tree, path, k, text[x..]);
      SuffixesDiffer(text, x, y);
    } else {
      assert |text[y..]| == len - y;
    }
  }

  /** Trimming the index of a text changes no entry but the last. */
  lemma EntryOfTrimmed(text: seq<byte>, len: nat, k: nat, trimmed: seq<nat>)
    requires len == |text| && trimmed == Trimmed(LineStarts(text), len) && 0 < k <= |trimmed|
    ensures Entry(LineStarts(text), k, len) == Entry(trimmed, k, len) <= len
    ensures k < |trimmed| ==> trimmed[k] < len
  {
    LineStartsExact(text, LineStarts(text));
    LineIndexIsShaped(text, LineStarts(text));
    TrimmedIsBefore(LineStarts(text), len, k);
  }

  /** Where an index parts from the trimmed one of the text, some range tells them apart. */
  lemma PartingTells(lineStarts: seq<nat>, len: nat, tree: Tree, path: Path, k: u32, m: u32, trimmed: seq<nat>)
    returns (range: Range)
    requires IsIndexShaped(lineStarts, len) && len < U32_MAX && m + 1 == k <= |lineStarts|
    requires k < |lineStarts| ==> lineStarts[k] < len
    requires path in tree && tree[path].readable && Valid(tree[path].content) && |tree[path].content| == len
    requires trimmed == Trimmed(LineStarts(tree[path].content), len)
    requires k <= |trimmed| && lineStarts[..k] == trimmed[..k]
    requires Entry(lineStarts, k, len) != Entry(trimmed, k, len)
    ensures WindowAnswer(lineStarts, len, tree, path, range) != ColdRead(tree, path, range)
  {
    var text := tree[path].content;
    EntryOfTrimmed(text, len, k, trimmed);
    if k == |trimmed| && !Valid(text[lineStarts[k]..]) {
      range := LinesOf(m, m);
      HiddenLine(lineStarts, len, tree, path, k, m);
    } else {
      range := FromLine(k);
      ColdSuffix(text, k);
      SuffixTells(lineStarts, len, tree, path, k, Entry(lineStarts, k, len), Entry(trimmed, k, len));
    }
  }

  /**
    * The exact condition, for a file that is text: an index answers every range as reading
    * the whole file does if and only if it lists the lines of the file, give or take an
    * empty one at the very end. What the lines hold does not matter.
    */
  lemma IndexAnswersExactly(lineStarts: seq<nat>, len: nat, tree: Tree, path: Path)
    requires IsIndexShaped(lineStarts, len) && len < U32_MAX
    requires path in tree && tree[path].readable && Valid(tree[path].content) && |tree[path].content| == len
    ensures (forall range :: WindowAnswer(lineStarts, len, tree, path, range) == ColdRead(tree, path, range))
       <==> Trimmed(lineStarts, len) == Trimmed(LineStarts(tree[path].content), len)
  {
    var text := tree[path].content;
    var a, b := Trimmed(lineStarts, len), Trimmed(LineStarts(text), len);
    if a == b {
      forall range
        ensures WindowAnswer(lineStarts, len, tree, path, range) == ColdRead(tree, path, range)
      {
        TrimmedIndexAnswersColdRead(lineStarts, len, tree, path, range);
      }
    } else {
      LineStartsExact(text, LineStarts(text));
      LineIndexIsShaped(text, LineStarts(text));
      forall i: nat
        ensures 0 < i < |a| ==> a[i] < len
        ensures 0 < i < |b| ==> b[i] < len
      {
        TrimmedIsBefore(lineStarts, len, i);
        TrimmedIsBefore(LineStarts(text), len, i);
      }
      var k := Parting(a, b);
      assert a[0] == b[0] == 0;
      EntryIsAtLeastItsPlace(a, len, |a| - 1);
      var range := PartingTells(a, len, tree, path, k, k - 1, b);
      TrimmedAnswersAlike(lineStarts, len, tree, path, range);
    }
  }

  // ---- a file that is no longer text ----

  /**
    * Something can be selected in the window of lines `i` to `j`: it is text, and not
    * empty, or when it is one line that another follows, that line is not empty.
    */
  predicate Shows(lineStarts: seq<nat>, content: seq<byte>, i: nat, j: nat)
    requires i <= j < |lineStarts|
    requires lineStarts[i] <= Entry(lineStarts, j + 1, |content|) <= |content|
  {
    var window := content[lineStarts[i]..Entry(lineStarts, j + 1, |content|)];
    Valid(window) && if i == j && j + 1 < |lineStarts| then 0 < ContentEnd(window, 0) else window != []
  }

  ghost predicate NothingShows(lineStarts: seq<nat>, content: seq<byte>)
    requires IsIndexShaped(lineStarts, |content|)
  {
    forall i: nat, j: nat :: i <= j < |lineStarts| ==> !Shows(lineStarts, content, i, j)
  }

  lemma WindowOfLines(lineStarts: seq<nat>, len: nat, range: Range)
    requires IsIndexShaped(lineStarts, len) && range.start.line < |lineStarts|
    ensures var first, last := range.start.line, range.end.line;
            var (start, end) := Window(lineStarts, len, range).value;
            && start == lineStarts[first] && end <= len
            && (first <= last ==> end == Entry(lineStarts, last + 1, len))
            && (last < first ==> end == start)
  {
  }

  /** A window in which nothing shows answers a range over its lines with nothing. */
  lemma NothingSelected(lineStarts: seq<nat>, content: seq<byte>, window: seq<byte>, range: Range)
    requires IsIndexShaped(lineStarts, |content|) && NothingShows(lineStarts, content)
    requires range.start.line <= range.end.line && range.start.line < |lineStarts|
    requires lineStarts[range.start.line] <= Entry(lineStarts, range.end.line + 1, |content|) <= |content|
    requires window == content[lineStarts[range.start.line]..Entry(lineStarts, range.end.line + 1, |content|)]
    requires Valid(window)
    ensures Selected(window, Rebased(range)) == []
  {
    var first, last := range.start.line, range.end.line;
    var j: nat := if last < |lineStarts| then last else |lineStarts| - 1;
    assert Entry(lineStarts, j + 1, |content|) == Entry(lineStarts, last + 1, |content|);
    assert !Shows(lineStarts, content, first, j);
    if window != [] {
      EmptyFirstLine(window, range.start.character, range.end.character);
    }
  }

  /** Under an index that shows nothing, no range is answered with anything. */
  lemma NothingAnswered(lineStarts: seq<nat>, len: nat, tree: Tree, path: Path, range: Range)
    requires IsIndexShaped(lineStarts, len)
    requires path in tree && |tree[path].content| == len && NothingShows(lineStarts, tree[path].content)
    ensures WindowAnswer(lineStarts, len, tree, path, range) == []
  {
    if range.start.line < |lineStarts| && tree[path].readable {
      WindowOfLines(lineStarts, len, range);
      var (start, end) := Window(lineStarts, len, range).value;
      AnswerOfWindow(lineStarts, len, tree, path, range, start, end);
      var window := tree[path].content[start..end];
      if start < end && Valid(window) {
        NothingSelected(lineStarts, tree[path].content, window, range);
      }
    }
  }

  /** A window whose first line is empty answers ranges on that line with nothing. */
  lemma EmptyFirstLine(window: seq<byte>, a: u32, b: u32)
    requires Valid(window)
    ensures ContentEnd(window, 0) == 0 ==> Selected(window, Range(Position(0, a), Position(0, b))) == []
  {
  }

  /** Where something shows, some range is answered with something. */
  lemma SomethingAnswered(lineStarts: seq<nat>, len: nat, tree: Tree, path: Path, i: nat, j: nat)
    returns (range: Range)
    requires IsIndexShaped(lineStarts, len) && len < U32_MAX && i <= j < |lineStarts|
    requires path in tree && tree[path].readable && |tree[path].content| == len
    requires Shows(lineStarts, tree[path].content, i, j)
    ensures WindowAnswer(lineStarts, len, tree, path, range) != []
  {
    EntryIsAtLeastItsPlace(lineStarts, len, |lineStarts| - 1);
    if j + 1 == |lineStarts| {
      range := FromLine(i);
      WindowSuffix(lineStarts, len, tree, path, i, tree[path].content[lineStarts[i]..len]);
    } else {
      range := LinesOf(i, j);
      var start, end := lineStarts[i], lineStarts[j + 1];
      AnswerOfWindow(lineStarts, len, tree, path, range, start, end);
      SomethingSelected(tree[path].content[start..end], j - i);
    }
  }

  /** A window of so many lines answers the range over all of them with something. */
  lemma SomethingSelected(window: seq<byte>, m: u32)
    requires Valid(window) && window != [] && (m == 0 ==> 0 < ContentEnd(window, 0))
    ensures Selected(window, Range(Position(0, 0), Position(m, U32_MAX))) != []
  {
    OffsetOfLineStart(window, 0);
    FewLines(window);
    LineStartsExact(window, LineStarts(window));
    LineIndexIsShaped(window, LineStarts(window));
    OffsetThroughIndex(window, Position(m, U32_MAX));
    if m == 0 {
      OffsetOfLineEnd(window, 0);
    } else if m < |LineStarts(window)| {
      EntryIsAtLeastItsPlace(LineStarts(window), |window|, m);
    }
  }

  /**
    * The exact condition, for a file that is not text: a cold read answers nothing, and the
    * index does so too if and only if nothing shows in any of its windows.
    */
  lemma BrokenFileAnswersExactly(lineStarts: seq<nat>, len: nat, tree: Tree, path: Path)
    requires IsIndexShaped(lineStarts, len) && len < U32_MAX
    requires path in tree && tree[path].readable && !Valid(tree[path].content) && |tree[path].content| == len
    ensures (forall range :: WindowAnswer(lineStarts, len, tree, path, range) == ColdRead(tree, path, range))
       <==> NothingShows(lineStarts, tree[path].content)
  {
    if NothingShows(lineStarts, tree[path].content) {
      forall range
        ensures WindowAnswer(lineStarts, len, tree, path, range) == []
      {
        NothingAnswered(lineStarts, len, tree, path, range);
      }
    } else {
      var i: nat, j: nat :| i <= j < |lineStarts| && Shows(lineStarts, tree[path].content, i, j);
      var range := SomethingAnswered(lineStarts, len, tree, path, i, j);
      assert WindowAnswer(lineStarts, len, tree, path, range) != ColdRead(tree, path, range);
    }
  }

  // ---- both cases ----

  /** Whether an index of a file of some length may stand in for this file. */
  ghost predicate Sound(lineStarts: seq<nat>, file: File)
    requires IsIndexShaped(lineStarts, |file.content|)
  {
    !file.readable
    || if Valid(file.content)
       then Trimmed(lineStarts, |file.content|) == Trimmed(LineStarts(file.content), |file.content|)
       else NothingShows(lineStarts, file.content)
  }

  /** The index of what the file was may stand in for what it is. */
  ghost predicate StandsIn(was: File, now: File) {
    IsIndexShaped(LineStarts(was.content), |now.content|) ==> Sound(LineStarts(was.content), now)
  }

  /**
    * It may if the stamps match: no change of this file's lines goes unnoticed. Only what could
    * be read as text has an index.
    */
  ghost predicate StampTells(was: Tree, now: Tree, path: Path) {
    path in was && was[path].readable && Valid(was[path].content)
    && path in now && StampOf(was[path]).Matches(StampOf(now[path]))
    ==> StandsIn(was[path], now[path])
  }

  /** A sound index answers what reading the whole file does, however large the file. */
  lemma SoundIndexAnswersColdRead(lineStarts: seq<nat>, len: nat, tree: Tree, path: Path, range: Range)
    requires IsIndexShaped(lineStarts, len)
    requires path in tree && |tree[path].content| == len && Sound(lineStarts, tree[path])
    ensures WindowAnswer(lineStarts, len, tree, path, range) == ColdRead(tree, path, range)
  {
    if !tree[path].readable {
    } else if Valid(tree[path].content) {
      TrimmedIndexAnswersColdRead(lineStarts, len, tree, path, range);
    } else {
      NothingAnswered(lineStarts, len, tree, path, range);
    }
  }

  /** And no other index does, for every file whose lines and columns all have a position. */
  lemma SoundIsExact(lineStarts: seq<nat>, len: nat, tree: Tree, path: Path)
    requires IsIndexShaped(lineStarts, len) && len < U32_MAX
    requires path in tree && |tree[path].content| == len
    ensures (forall range :: WindowAnswer(lineStarts, len, tree, path, range) == ColdRead(tree, path, range))
       <==> Sound(lineStarts, tree[path])
  {
    if !tree[path].readable {
    } else if Valid(tree[path].content) {
      IndexAnswersExactly(lineStarts, len, tree, path);
    } else {
      BrokenFileAnswersExactly(lineStarts, len, tree, path);
    }
  }

  // ---- a stamp can lie ----

  const BEFORE: seq<byte> := [0x61, LF, 0x62]
  const AFTER: seq<byte> := [LF, 0x61, 0x62]
  const LINE_ONE := Range(Position(1, 0), Position(1, 1))

  lemma OneLfAmongThree(s: seq<byte>, k: nat)
    requires |s| == 3 && k < 3 && forall i :: 0 <= i < 3 ==> (s[i] == LF <==> i == k)
    ensures LineStarts(s) == [0, k + 1]
  {
    var v: seq<nat> := [0, k + 1];
    forall x
      ensures x in v <==> x == 0 || (0 < x <= |s| && s[x - 1] == LF)
    {
      assert x in v <==> x == v[0] || x == v[1];
    }
    LineStartsExact(s, v);
  }

  lemma ColdAnswerAfter()
    ensures Valid(AFTER) && |Selected(AFTER, LINE_ONE)| == 1 && Selected(AFTER, LINE_ONE)[0] == 0x61
  {
    AsciiIsValid(AFTER);
    OneLfAmongThree(AFTER, 0);
    OffsetThroughIndex(AFTER, LINE_ONE.start);
    OffsetThroughIndex(AFTER, LINE_ONE.end);
    var content := Content(AFTER, 1);
    assert content == [0x61, 0x62];
    assert content[1..] == [0x62];
  }

  lemma WindowedAnswerAfter()
    ensures Valid(BEFORE) && LineStarts(BEFORE) == [0, 2]
    ensures WindowAnswer([0, 2], 3, map["f" := File(AFTER, Some(0), true)], "f", LINE_ONE) <= [0x62]
  {
    AsciiIsValid(BEFORE);
    OneLfAmongThree(BEFORE, 1);
    assert AFTER[2..3][0] == AFTER[2] == 0x62;
    assert AFTER[2..3] == [0x62];
  }

  /** A rewrite the stamp does not show can be answered with the wrong text. */
  lemma StaleIndexAnswersWrong()
    ensures exists was: File, now: File, range: Range ::
              && Valid(was.content) && Valid(now.content) && now.readable
              && StampOf(was).Matches(StampOf(now))
              && WindowAnswer(LineStarts(was.content), |was.content|, map["f" := now], "f", range)
                 != ColdRead(map["f" := now], "f", range)
  {
    var was, now := File(BEFORE, Some(0), true), File(AFTER, Some(0), true);
    ColdAnswerAfter();
    WindowedAnswerAfter();
    assert WindowAnswer(LineStarts(was.content), |was.content|, map["f" := now], "f", LINE_ONE)
        != ColdRead(map["f" := now], "f", LINE_ONE);
  }
}
