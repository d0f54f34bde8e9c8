/**
  * A file system as a value: a tree of files that may change between calls and never
  * within one, and a log of the accesses made to it.
  */
module Files {
  import opened Prelude
  import opened Utf8
  import opened Lines
  import opened Positions

  type Path = string

  /** `modified` may be unknown. */
  datatype File = File(content: seq<byte>, modified: Option<int>, readable: bool)

  type Tree = map<Path, File>

  /** Length and time of change: equal stamps are taken for equal files. */
  datatype FileStamp = FileStamp(len: nat, modified: Option<int>) {
    predicate Matches(other: FileStamp) {
      modified.Some? && modified == other.modified && len == other.len
    }
  }

  function StampOf(file: File): FileStamp {
    FileStamp(|file.content|, file.modified)
  }

  datatype Access =
    | Stat(path: Path)
    | WholeRead(path: Path)
    | WindowRead(path: Path, start: nat, end: nat)

  class FileSystem {
    var tree: Tree
    /** Every access made, in order. */
    var log: seq<Access>

    constructor (tree: Tree)
      ensures this.tree == tree && log == []
    {
      this.tree := tree;
      log := [];
    }

    /** `std::fs::metadata` */
    method Metadata(path: Path) returns (r: Option<FileStamp>)
      modifies this`log
      ensures r == if path in tree then Some(StampOf(tree[path])) else None
      ensures log == old(log) + [Stat(path)]
    {
      log := log + [Stat(path)];
      r := if path in tree then Some(StampOf(tree[path])) else None;
    }

    /** `std::fs::read_to_string`: fails on a file that cannot be opened or is not UTF-8. */
    method ReadToString(path: Path) returns (r: Option<seq<byte>>)
      modifies this`log
      ensures r == if path in tree && tree[path].readable && Valid(tree[path].content)
                   then Some(tree[path].content) else None
      ensures log == old(log) + [WholeRead(path)]
    {
      log := log + [WholeRead(path)];
      r := if path in tree && tree[path].readable && Valid(tree[path].content)
           then Some(tree[path].content) else None;
    }

    /** Open, seek to `start`, and fill a buffer of `end - start` bytes. */
    method ReadExactAt(path: Path, start: nat, end: nat) returns (r: Option<seq<byte>>)
      requires start <= end
      modifies this`log
      ensures r == if path in tree && tree[path].readable then BytesAt(tree[path].content, start, end) else None
      ensures log == old(log) + [WindowRead(path, start, end)]
    {
      log := log + [WindowRead(path, start, end)];
      r := if path in tree && tree[path].readable then BytesAt(tree[path].content, start, end) else None;
    }
  }

  /** Filling an empty buffer succeeds wherever the cursor is. */
  function BytesAt(content: seq<byte>, start: nat, end: nat): Option<seq<byte>>
    requires start <= end
  {
    if start == end then Some([])
    else if end <= |content| then Some(content[start..end])
    else None
  }

  /** The selection from the file's whole content; nothing when it cannot be read as text. */
  function ColdRead(tree: Tree, path: Path, range: Range): seq<byte> {
    if path in tree && tree[path].readable && Valid(tree[path].content)
    then Selected(tree[path].content, range)
    else []
  }

  // ---- reading a window under an index ----

  /** The bytes an index says a range can touch, or nothing when it begins past the last line. */
  function Window(lineStarts: seq<nat>, len: nat, range: Range): (r: Option<(nat, nat)>)
    ensures r.Some? ==> r.value.0 <= r.value.1
  {
    var first, last := range.start.line, range.end.line;
    if |lineStarts| <= first then None
    else
      var start := lineStarts[first];
      Some((start, Max(if last + 1 < |lineStarts| then lineStarts[last + 1] else len, start)))
  }

  /** The accesses a windowed read makes: at most one, of exactly that window. */
  function WindowAccess(lineStarts: seq<nat>, len: nat, path: Path, range: Range): seq<Access> {
    match Window(lineStarts, len, range)
    case None => []
    case Some((start, end)) => [WindowRead(path, start, end)]
  }

  /** What reading that window alone, re-indexing it and rebasing the range answers. */
  function WindowAnswer(lineStarts: seq<nat>, len: nat, tree: Tree, path: Path, range: Range): seq<byte> {
    match Window(lineStarts, len, range)
    case None => []
    case Some((start, end)) =>
      if path in tree && tree[path].readable then
        var bytes := BytesAt(tree[path].content, start, end);
        if bytes.Some? && Valid(bytes.value) then Selected(bytes.value, Rebased(range)) else []
      else []
  }

  /** Under the index of what the file holds, the window answers exactly what the whole file does. */
  lemma WindowedReadIsColdRead(lineStarts: seq<nat>, len: nat, tree: Tree, path: Path, range: Range)
    requires path in tree && Valid(tree[path].content)
    requires lineStarts == LineStarts(tree[path].content) && len == |tree[path].content|
    ensures WindowAnswer(lineStarts, len, tree, path, range) == ColdRead(tree, path, range)
  {
    var text := tree[path].content;
    if |lineStarts| <= range.start.line {
      NothingPastTheEnd(text, range);
    } else {
      var (start, end) := Window(lineStarts, len, range).value;
      assert end == WindowEnd(text, start, range.end.line);
      WindowAnswersWholeText(text, range, start, end);
      assert start == end ==> text[start..end] == [];
    }
  }
}
