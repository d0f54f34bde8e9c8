/**
  * Selections as values, and the cell they are reported through.
  */
module Selections {
  import opened Prelude
  import opened Utf8
  import opened Positions
  import opened Files
  import opened Documents

  /** A range of a document, with the text it selected when it was reported. */
  datatype Selection = Selection(path: Path, uri: Url, range: Range, text: seq<byte>) {
    /** Both ends coincide. */
    predicate IsEmpty() {
      range.start == range.end
    }
  }

  /** A file to be mentioned; without lines, all of it. */
  datatype Mention = Mention(path: Path, lines: Option<(u32, u32)>)

  function MentionOf(selection: Selection): Mention {
    Mention(selection.path,
            if selection.IsEmpty() then None
            else Some((selection.range.start.line, selection.range.end.line)))
  }

  /** The mention is of this selection's file, and of its lines unless it is a bare cursor. */
  predicate IsMentionOf(mention: Mention, selection: Selection) {
    && mention.path == selection.path
    && (mention.lines.None? <==> selection.range.start == selection.range.end)
    && (mention.lines.Some? ==>
          && mention.lines.value.0 == selection.range.start.line
          && mention.lines.value.1 == selection.range.end.line)
  }

  /** And it is the only one. */
  lemma MentionIsExact(mention: Mention, selection: Selection)
    ensures IsMentionOf(mention, selection) <==> mention == MentionOf(selection)
  {
  }

  /** A watch channel: the newest value, and how many were ever sent. */
  datatype Watch<+T> = Watch(value: Option<T>, version: nat) {
    function SendReplace(v: T): Watch<T> {
      Watch(Some(v), version + 1)
    }
  }

  /** The cell after these values were sent through it. */
  function CellOf<T>(sent: seq<T>): Watch<T> {
    Watch(if sent == [] then None else Some(sent[|sent| - 1]), |sent|)
  }

  /** Reports go in here; the cell remembers the last, `reported` all of them. */
  class SelectionTracker {
    var input: Watch<Selection>
    /** Every selection reported, oldest first. */
    ghost var reported: seq<Selection>

    ghost predicate Valid()
      reads this
    {
      input == CellOf(reported)
    }

    constructor ()
      ensures Valid() && reported == []
    {
      input := Watch(None, 0);
      reported := [];
    }

    method Update(selection: Selection)
      requires Valid()
      modifies this
      ensures Valid() && reported == old(reported) + [selection]
    {
      input := input.SendReplace(selection);
      reported := reported + [selection];
    }
  }
}
