/**
  * Documents that are edited in place, the store that holds them by URI, and the
  * index it remembers for a file it does not hold.
  */
module Documents {
  import opened Prelude
  import opened Utf8
  import opened Lines
  import opened Positions
  import opened Files
  import opened StaleIndex

  type Url = string

  /** The content of a Rust `String`. */
  type Text = s: seq<byte> | Valid(s)

  const MAX_CACHED_BYTES := 4 * 1024 * 1024

  /** One entry of a `didChange` batch; without a range it replaces the whole text. */
  datatype Change = Change(range: Option<Range>, text: Text)

  // ---- the reference editor: plain text, no index ----

  /** The mirrored documents. */
  type Mirror = map<Url, Text>

  /** Where an edit of `text` over `range` applies; an inverted range is an insertion. */
  function EditStart(text: Text, range: Range): nat {
    Offset(text, range.start)
  }

  function EditEnd(text: Text, range: Range): (end: nat)
    ensures EditStart(text, range) <= end <= |text|
  {
    Max(Offset(text, range.end), EditStart(text, range))
  }

  function Edited(text: Text, change: Change): Text {
    match change.range
    case None => change.text
    case Some(range) =>
      SelectedIsText(text, range);
      ReplacedValid(text, EditStart(text, range), EditEnd(text, range), change.text);
      Replaced(text, EditStart(text, range), EditEnd(text, range), change.text)
  }

  /** Changes apply in order, each against the text the one before it produced. */
  function Replayed(text: Text, changes: seq<Change>): Text
    decreases |changes|
  {
    if changes == [] then text else Replayed(Edited(text, changes[0]), changes[1..])
  }

  lemma {:induction false} ReplayedStep(text: Text, changes: seq<Change>, i: nat)
    requires i < |changes|
    ensures Replayed(text, changes[..i + 1]) == Edited(Replayed(text, changes[..i]), changes[i])
    decreases i
  {
    if 0 < i {
      assert changes[..i + 1][1..] == changes[1..][..i];
      assert changes[..i][1..] == changes[1..][..i - 1];
      ReplayedStep(Edited(text, changes[0]), changes[1..], i - 1);
    } else {
      assert changes[..1] == [changes[0]];
      assert changes[..0] == [];
    }
  }

  /** Batches can be replayed one change at a time. */
  lemma {:induction false} ReplayedOneMore(text: Text, changes: seq<Change>, i: nat)
    requires i < |changes|
    ensures Replayed(text, changes[..i + 1]) == Replayed(Replayed(text, changes[..i]), [changes[i]])
  {
    ReplayedStep(text, changes, i);
    var change := [changes[i]];
    assert change[1..] == [];
    assert change[0] == changes[i];
  }

  /**
    * What one change leaves. Without a range it is the change's own text. With one, what
    * comes before the range, then the change's text, then what comes after the range: exactly
    * what the range selects is gone, and an inverted range removes nothing.
    */
  lemma OneChange(text: Text, change: Change)
    ensures var after := Replayed(text, [change]);
            match change.range
            case None => after == change.text
            case Some(range) =>
              var start := Offset(text, range.start);
              var end := Max(Offset(text, range.end), start);
              && start <= end <= |text|
              && |after| == |text| - |Selected(text, range)| + |change.text|
              && after[..start] == text[..start]
              && after[start..start + |change.text|] == change.text
              && after[start + |change.text|..] == text[end..]
  {
    var changes := [change];
    assert changes[1..] == [];
    if change.range.Some? {
      SelectedIsBetween(text, change.range.value);
      PartsOfConcat(text[..Offset(text, change.range.value.start)], change.text,
                 text[Max(Offset(text, change.range.value.end), Offset(text, change.range.value.start))..]);
    }
  }

  function Opened(mirror: Mirror, uri: Url, text: Text): Mirror {
    if MAX_CACHED_BYTES < |text| then mirror - {uri} else mirror[uri := text]
  }

  function Changed(mirror: Mirror, uri: Url, changes: seq<Change>): Mirror {
    if uri !in mirror then mirror
    else if MAX_CACHED_BYTES < |Replayed(mirror[uri], changes)| then mirror - {uri}
    else mirror[uri := Replayed(mirror[uri], changes)]
  }

  function Closed(mirror: Mirror, uri: Url): Mirror {
    mirror - {uri}
  }

  /** The text a range selects: from the mirror when the document is there, else from disk. */
  function SelectionText(mirror: Mirror, tree: Tree, uri: Url, path: Path, range: Range): seq<byte> {
    if uri in mirror then Selected(mirror[uri], range) else ColdRead(tree, path, range)
  }

  /** The text cannot be had without reading the file: something is selected, in a document that is not mirrored. */
  predicate NeedsFile(mirror: Mirror, uri: Url, range: Range) {
    uri !in mirror && range.start != range.end
  }

  /** A bare cursor selects nothing, whatever the text says. */
  lemma BareCursorSelectsNothing(mirror: Mirror, tree: Tree, uri: Url, path: Path, range: Range)
    requires range.start == range.end
    ensures SelectionText(mirror, tree, uri, path, range) == []
  {
  }

  // ---- one document ----

  /**
    * Walks the characters of `line` counting UTF-16 units; comes back empty-handed
    * when they run out before the column is reached.
    */
  method CharPosToBytePos(line: Text, utf16Pos: nat) returns (r: Option<nat>)
    ensures r.Some? <==> utf16Pos <= Utf16Len(line)
    ensures r.Some? ==> r.value == ByteOfColumn(line, utf16Pos)
    ensures r.None? ==> ByteOfColumn(line, utf16Pos) == |line|
  {
    var current, bytePos := 0, 0;
    var rest := line;
    ghost var left: nat := utf16Pos;
    while rest != []
      invariant bytePos + |rest| == |line| && Valid(rest)
      invariant current + left == utf16Pos
      invariant Utf16Len(line) == current + Utf16Len(rest)
      invariant ByteOfColumn(line, utf16Pos) == bytePos + ByteOfColumn(rest, left)
      decreases |rest|
    {
      if current == utf16Pos {
        return Some(bytePos);
      }
      var width := Utf16Width(CodePoint(rest));
      if utf16Pos < current + width {
        return Some(bytePos);
      }
      current, left := current + width, left - width;
      bytePos := bytePos + CharLen(rest);
      rest := rest[CharLen(rest)..];
    }
    if current == utf16Pos {
      return Some(|line|);
    }
    return None;
  }

  class Document {
    var text: Text
    /** Where its lines start, kept as `Valid` says. */
    var lineStarts: seq<nat>

    /** The index is the line index of the text, which by `LineStartsExact` is the rebuilt one. */
    ghost predicate Valid()
      reads this
    {
      IsLineIndex(text, lineStarts)
    }

    constructor (text: Text)
      ensures Valid() && this.text == text
    {
      this.text := text;
      lineStarts := LineStarts(text);
      LineStartsExact(text, LineStarts(text));
    }

    method SetText(text: Text)
      modifies this
      ensures Valid() && this.text == text
    {
      this.text := text;
      lineStarts := LineStarts(this.text);
      LineStartsExact(text, lineStarts);
    }

    /** Slide every line start from entry `from` on by the change in length. */
    method SlideFrom(from: nat, inserted: nat, removed: nat)
      requires from <= |lineStarts| && CanSlide(lineStarts, from, inserted, removed)
      modifies this`lineStarts
      ensures IsSlid(old(lineStarts), lineStarts, from, inserted, removed)
    {
      var k := from;
      while k < |lineStarts|
        invariant from <= k <= |lineStarts| == |old(lineStarts)|
        invariant lineStarts[..from] == old(lineStarts)[..from]
        invariant forall i :: from <= i < k ==> lineStarts[i] == old(lineStarts)[i] + inserted - removed
        invariant forall i :: k <= i < |lineStarts| ==> lineStarts[i] == old(lineStarts)[i]
      {
        lineStarts := lineStarts[k := lineStarts[k] + inserted - removed];
        k := k + 1;
      }
    }

    /**
      * Carry the index over from `was` to the text in which `inserted` has taken the
      * place of `start..end`: the outcome is `LineStarts` of that text.
      */
    method RepairIndex(ghost was: Text, start: nat, end: nat, inserted: Text)
      requires lineStarts == LineStarts(was) && start <= end <= |was|
      modifies this`lineStarts
      ensures lineStarts == LineStarts(Replaced(was, start, end, inserted))
    {
      ghost var joined := Joined(lineStarts, start, end, inserted);
      var head := PartitionPoint(lineStarts, start);
      var tail := Max(head, PartitionPoint(lineStarts, end));
      NoNewlineNoStarts(inserted, start);
      JoinedCanSlide(was, start, end, inserted);

      if LF !in inserted {
        lineStarts := lineStarts[..head] + lineStarts[tail..];
        assert lineStarts == joined;
        SlideFrom(head, |inserted|, end - start);
      } else {
        var added := NewlineEnds(inserted, start);
        lineStarts := lineStarts[..head] + added + lineStarts[tail..];
        SlideFrom(head + |added|, |inserted|, end - start);
      }
      SlidIsRebuilt(was, start, end, inserted, lineStarts);
    }

    /** An edit between two boundaries; text and index move together. */
    method Splice(start: nat, end: nat, inserted: Text)
      requires Valid()
      requires start <= end && IsBoundary(text, start) && IsBoundary(text, end)
      modifies this
      ensures Valid()
      ensures text == Replaced(old(text), start, end, inserted)
    {
      ghost var was := text;
      LineStartsExact(was, lineStarts);
      ReplacedValid(text, start, end, inserted);
      text := text[..start] + inserted + text[end..];
      RepairIndex(was, start, end, inserted);
      LineStartsExact(text, lineStarts);
    }

    /** The content of a line that exists: its terminator, an LF with or without a CR, is left out. */
    method ContentOf(line: nat) returns (start: nat, end: nat)
      requires Valid() && line < |lineStarts|
      ensures start == lineStarts[line] <= |text|
      ensures end == ContentEnd(text, start)
    {
      LineStartsExact(text, lineStarts);
      start := lineStarts[line];
      end := if line + 1 < |lineStarts| then lineStarts[line + 1] else |text|;
      LineByIndex(text, line, start, end);
      if start < end && text[end - 1] == LF {
        end := end - 1;
      }
      if start < end && text[end - 1] == CR {
        end := end - 1;
      }
    }

    /** `Offset`, computed by lookup instead of by walking. */
    method OffsetOf(p: Position) returns (o: nat)
      requires Valid()
      ensures o == Offset(text, p)
    {
      LineStartsExact(text, lineStarts);
      OffsetThroughIndex(text, p);
      if |lineStarts| <= p.line {
        return |text|;
      }
      var start, end := ContentOf(p.line);
      var line := text[start..end];
      var column := CharPosToBytePos(line, p.character);
      o := start + column.UnwrapOr(|line|);
    }

    method TextInRange(range: Range) returns (r: Text)
      requires Valid()
      ensures r == Selected(text, range)
    {
      var start := OffsetOf(range.start);
      var end := OffsetOf(range.end);
      end := Max(end, start);
      SelectedIsText(text, range);
      r := Get(text, start, end).UnwrapOr([]);
    }
  }

  /** Splicing the removed bytes back over the inserted ones restores the document exactly. */
  method SpliceThenUndo(doc: Document, start: nat, end: nat, inserted: Text)
    requires doc.Valid()
    requires start <= end && IsBoundary(doc.text, start) && IsBoundary(doc.text, end)
    modifies doc
    ensures doc.Valid()
    ensures doc.text == old(doc.text) && doc.lineStarts == old(doc.lineStarts)
  {
    EditIsInvertible(doc.text, start, end, inserted);
    LineStartsExact(doc.text, doc.lineStarts);
    var removed := doc.text[start..end];
    doc.Splice(start, end, inserted);
    doc.Splice(start, start + |inserted|, removed);
    LineStartsExact(doc.text, doc.lineStarts);
  }

  // ---- the store ----

  /** What the store remembers of a file: which it was, its stamp, and its line starts. */
  datatype DiskIndex = DiskIndex(path: Path, stamp: FileStamp, lineStarts: seq<nat>, len: nat) {

    /** `WindowAnswer`, at the cost of `WindowAccess`. */
    method ReadRange(fs: FileSystem, path: Path, range: Range) returns (r: Text)
      modifies fs`log
      ensures r == WindowAnswer(lineStarts, len, fs.tree, path, range)
      ensures fs.log == old(fs.log) + WindowAccess(lineStarts, len, path, range)
    {
      var window := Window(lineStarts, len, range);
      if window.None? {
        return [];
      }
      var buf := fs.ReadExactAt(path, window.value.0, window.value.1);
      if buf.None? || !Valid(buf.value) {
        return [];
      }
      var doc := new Document(buf.value);
      r := doc.TextInRange(Rebased(range));
    }
  }

  class DocumentStore {
    var docs: map<Url, Document>
    /** At most one remembered file. */
    var disk: Option<DiskIndex>
    /** The text that index was built from. */
    ghost var diskText: seq<byte>

    ghost predicate Valid()
      reads this, docs.Values
    {
      MirrorValid() && DiskIndexed()
    }

    /** Every document has an exact index, is within the cap, and is held under one URI only. */
    ghost predicate MirrorValid()
      reads this`docs, docs.Values
    {
      && (forall u :: u in docs ==> docs[u].Valid() && |docs[u].text| <= MAX_CACHED_BYTES)
      && HeldOnce()
    }

    ghost predicate HeldOnce()
      reads this`docs
    {
      forall u, v :: u in docs && v in docs && u != v ==> docs[u] != docs[v]
    }

    ghost predicate DiskIndexed()
      reads this`disk, this`diskText
    {
      disk.Some? ==> && Utf8.Valid(diskText)
                     && IsLineIndex(diskText, disk.value.lineStarts)
                     && disk.value.len == disk.value.stamp.len == |diskText|
    }

    /** The mirrored texts. */
    ghost function View(): Mirror
      reads this`docs, docs.Values
    {
      map u | u in docs :: docs[u].text
    }

    /** The remembered index is of this file, as far as its stamp tells. */
    ghost predicate Hits(tree: Tree, path: Path)
      reads this`disk
    {
      path in tree && disk.Some? && disk.value.path == path && disk.value.stamp.Matches(StampOf(tree[path]))
    }

    /** The file is the remembered one, with a known time of change that is the same, and of the same length. */
    ghost predicate IsUntouched(tree: Tree, path: Path)
      reads this`disk
    {
      && path in tree && disk.Some? && disk.value.path == path
      && |tree[path].content| == disk.value.stamp.len
      && tree[path].modified.Some? && disk.value.stamp.modified.Some?
      && tree[path].modified.value == disk.value.stamp.modified.value
    }

    /** What is remembered, if anything, is this file as it is, with its length, time and lines. */
    ghost predicate Remembers(tree: Tree, path: Path)
      reads this`disk
    {
      disk.Some? ==> && path in tree && disk.value.path == path
                     && disk.value.stamp.len == |tree[path].content|
                     && disk.value.stamp.modified == tree[path].modified
                     && IsLineIndex(tree[path].content, disk.value.lineStarts)
    }

    /** If so, it may stand in for the file. */
    ghost predicate CacheSound(tree: Tree, path: Path)
      reads this`disk
    {
      Hits(tree, path) && IsIndexShaped(disk.value.lineStarts, |tree[path].content|)
      ==> Sound(disk.value.lineStarts, tree[path])
    }

    /** The cached index, if any, is that of a file of `tree`, stamped as it is there. */
    ghost predicate CachedFrom(tree: Tree)
      reads this`disk, this`diskText
    {
      disk.Some? ==> && disk.value.path in tree && tree[disk.value.path].readable
                     && diskText == tree[disk.value.path].content
                     && disk.value.stamp == StampOf(tree[disk.value.path])
    }

    /** An index from `was` may stand in for the file of `now`, if its stamp tells of every change of lines. */
    lemma TellingStampKeepsCacheSound(was: Tree, now: Tree, path: Path)
      requires DiskIndexed() && CachedFrom(was) && StampTells(was, now, path)
      ensures CacheSound(now, path)
    {
      if Hits(now, path) {
        LineStartsExact(diskText, disk.value.lineStarts);
        assert StandsIn(was[path], now[path]);
      }
    }

    constructor ()
      ensures Valid() && View() == map[] && disk.None? && docs == map[]
    {
      docs := map[];
      disk := None;
    }

    /** `HashMap::remove` */
    method Remove(uri: Url)
      requires HeldOnce()
      requires forall u :: u in docs && u != uri ==> docs[u].Valid() && |docs[u].text| <= MAX_CACHED_BYTES
      modifies this`docs
      ensures MirrorValid() && docs.Values <= old(docs.Values)
      ensures View() == old(View()) - {uri}
    {
      docs := docs - {uri};
    }

    lemma ViewWith(others: map<Url, Document>, texts: Mirror, uri: Url, doc: Document)
      requires docs == others[uri := doc] && texts.Keys == others.Keys
      requires forall u :: u in others ==> others[u].text == texts[u]
      ensures View() == texts[uri := doc.text]
    {
    }

    /** `HashMap::insert` */
    method Insert(uri: Url, doc: Document)
      requires MirrorValid() && doc.Valid() && |doc.text| <= MAX_CACHED_BYTES
      requires forall u :: u in docs ==> docs[u] != doc
      modifies this`docs
      ensures MirrorValid() && docs == old(docs)[uri := doc]
      ensures View() == old(View())[uri := doc.text]
    {
      ghost var others, texts := docs, View();
      docs := docs[uri := doc];
      ViewWith(others, texts, uri, doc);
    }

    method Open(uri: Url, text: Text)
      requires Valid()
      modifies this`docs
      ensures Valid() && fresh(docs.Values - old(docs.Values))
      ensures View() == Opened(old(View()), uri, text)
    {
      if MAX_CACHED_BYTES < |text| {
        Remove(uri);
      } else {
        var doc := new Document(text);
        Insert(uri, doc);
      }
    }

    method Close(uri: Url)
      requires Valid()
      modifies this`docs
      ensures Valid() && docs.Values <= old(docs.Values)
      ensures View() == Closed(old(View()), uri)
    {
      Remove(uri);
    }

    /** Apply one change to a mirrored document. */
    method ApplyOne(doc: Document, change: Change)
      requires doc.Valid()
      modifies doc
      ensures doc.Valid() && doc.text == Replayed(old(doc.text), [change])
      ensures change.range.None? ==> doc.text == change.text
      ensures change.range.Some? ==>
                var was, range := old(doc.text), change.range.value;
                var start := Offset(was, range.start);
                var end := Max(Offset(was, range.end), start);
                && start <= end <= |was|
                && doc.text == was[..start] + change.text + was[end..]
                && |doc.text| == |was| - |Selected(was, range)| + |change.text|
    {
      OneChange(doc.text, change);
      match change.range {
        case None => doc.SetText(change.text);
        case Some(range) =>
          SelectedIsText(doc.text, range);
          var start := doc.OffsetOf(range.start);
          var end := doc.OffsetOf(range.end);
          ThreeParts(Replayed(doc.text, [change]), start, start + |change.text|);
          doc.Splice(start, Max(end, start), change.text);
      }
    }

    /** Apply the changes of one batch to a mirrored document, in order. */
    method ApplyAll(doc: Document, changes: seq<Change>)
      requires doc.Valid()
      modifies doc
      ensures doc.Valid() && doc.text == Replayed(old(doc.text), changes)
    {
      for i := 0 to |changes|
        invariant doc.Valid() && doc.text == Replayed(old(doc.text), changes[..i])
      {
        ReplayedOneMore(old(doc.text), changes, i);
        ApplyOne(doc, changes[i]);
      }
      assert changes[..|changes|] == changes;
    }

    /** Change one mirrored document in place; every other document is left alone. */
    method ApplyAt(uri: Url, changes: seq<Change>)
      requires MirrorValid() && uri in docs
      modifies docs[uri]
      ensures docs[uri].Valid() && docs[uri].text == Replayed(old(docs[uri].text), changes)
      ensures forall u :: u in docs && u != uri ==> docs[u].Valid() && |docs[u].text| <= MAX_CACHED_BYTES
      ensures View() == old(View())[uri := docs[uri].text]
    {
      ApplyAll(docs[uri], changes);
    }

    /** `Changed`, done in place. */
    method Apply(uri: Url, changes: seq<Change>)
      requires Valid()
      modifies this`docs, docs.Values
      ensures Valid() && docs.Values <= old(docs.Values)
      ensures View() == Changed(old(View()), uri, changes)
    {
      if uri !in docs {
        return;
      }
      ApplyAt(uri, changes);
      if MAX_CACHED_BYTES < |docs[uri].text| {
        SetThenRemove(old(View()), uri, docs[uri].text);
        Remove(uri);
      }
    }

    /** `Selected`, for a document the store holds. */
    method TextInRange(uri: Url, range: Range) returns (r: Option<Text>)
      requires Valid()
      ensures r.Some? <==> uri in View()
      ensures r.Some? ==> r.value == Selected(View()[uri], range)
    {
      if uri !in docs {
        return None;
      }
      var text := docs[uri].TextInRange(range);
      r := Some(text);
    }

    /** The slow way: a whole read, after which this file is the remembered one, or none is. */
    method ReadWhole(fs: FileSystem, path: Path, stamp: FileStamp, range: Range) returns (r: Text)
      requires path in fs.tree && stamp == StampOf(fs.tree[path])
      modifies fs`log, this`disk, this`diskText
      ensures DiskIndexed() && r == ColdRead(fs.tree, path, range)
      ensures CachedFrom(fs.tree) && Remembers(fs.tree, path)
      ensures disk.Some? <==> fs.tree[path].readable && Utf8.Valid(fs.tree[path].content)
      ensures fs.log == old(fs.log) + [WholeRead(path)]
    {
      var text := fs.ReadToString(path);
      if text.None? {
        disk := None;
        return [];
      }
      var doc := new Document(text.value);
      r := doc.TextInRange(range);
      disk := Some(DiskIndex(path, stamp, doc.lineStarts, |doc.text|));
      diskText := doc.text;
    }

    /**
      * `ColdRead`, as long as the remembered index is sound for the file. A hit costs one
      * window, a miss a whole read.
      */
    method TextFromDisk(fs: FileSystem, path: Path, range: Range) returns (r: Text)
      requires DiskIndexed()
      modifies fs`log, this`disk, this`diskText
      ensures DiskIndexed()
      ensures old(CacheSound(fs.tree, path)) ==> r == ColdRead(fs.tree, path, range)
      // the cache is left alone, dropped, or refilled from the file as it is now
      ensures (disk == old(disk) && diskText == old(diskText)) || CachedFrom(fs.tree)
      // a file that looks untouched is never read whole, only the window
      ensures old(IsUntouched(fs.tree, path))
              ==> && disk == old(disk)
                  && r == WindowAnswer(disk.value.lineStarts, disk.value.len, fs.tree, path, range)
                  && fs.log == old(fs.log) + [Stat(path)]
                               + WindowAccess(disk.value.lineStarts, disk.value.len, path, range)
      // any other file is read whole: one of another length or time, or without a time, or not remembered
      ensures path in fs.tree && !old(IsUntouched(fs.tree, path))
              ==> && r == ColdRead(fs.tree, path, range)
                  && fs.log == old(fs.log) + [Stat(path), WholeRead(path)]
                  && (disk.Some? <==> fs.tree[path].readable && Utf8.Valid(fs.tree[path].content))
                  && CachedFrom(fs.tree) && Remembers(fs.tree, path)
      ensures path !in fs.tree ==> r == [] && disk == old(disk) && fs.log == old(fs.log) + [Stat(path)]
    {
      var meta := fs.Metadata(path);
      if meta.None? {
        return [];
      }
      var stamp := meta.value;
      if disk.Some? && disk.value.path == path && disk.value.stamp.Matches(stamp) {
        LineIndexIsShaped(diskText, disk.value.lineStarts);
        if Sound(disk.value.lineStarts, fs.tree[path]) {
          SoundIndexAnswersColdRead(disk.value.lineStarts, disk.value.len, fs.tree, path, range);
        }
        r := disk.value.ReadRange(fs, path, range);
      } else {
        r := ReadWhole(fs, path, stamp, range);
      }
    }

    /**
      * `SelectionText`. Only a non-empty range in a document the store does not hold
      * costs an access to the file system, and only then does the remembered index matter.
      */
    method TextForRange(fs: FileSystem, uri: Url, path: Path, range: Range) returns (r: Text)
      requires Valid()
      modifies fs`log, this`disk, this`diskText
      ensures DiskIndexed()
      ensures !NeedsFile(View(), uri, range) || old(CacheSound(fs.tree, path))
              ==> r == SelectionText(View(), fs.tree, uri, path, range)
      ensures (disk == old(disk) && diskText == old(diskText)) || CachedFrom(fs.tree)
      ensures !NeedsFile(View(), uri, range) ==> fs.log == old(fs.log) && disk == old(disk)
    {
      if range.start == range.end {
        BareCursorSelectsNothing(View(), fs.tree, uri, path, range);
        return [];
      }
      var mirrored := TextInRange(uri, range);
      match mirrored {
        case Some(text) => r := text;
        case None => r := TextFromDisk(fs, path, range);
      }
    }
  }
}
