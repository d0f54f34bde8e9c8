# Verification model of the Zed companion server

The companion sits between the Zed editor and the `claude` CLI. Towards the editor it speaks
LSP, with one interest in the buffers it is shown: the selection. Towards the CLI it speaks
MCP on a local WebSocket, and pushes those selections to every connected client. This project
models that path from one end to the other and proves what the code promises about it:

- **The buffer mirror** (`Utf8`, `Lines`, `Positions`, `Unicode`, `Documents`). Text is the byte
  content of a Rust `String`, with the well-formedness grammar of section 4 of RFC 3629. It is
  proved to be what an encoder of scalar values writes (section 3 there), and columns are proved
  to count the code units of an encoder that a UTF-16 decoder inverts (section 2 of RFC 2781). A
  reference editor resolves positions by walking the text
  and applies edits by plain replacement, with no index. The `Document` class keeps a line
  index that every edit repairs in place; its methods are proved to compute what the reference
  editor does, for every text, span, inserted text and position.
- **Files that are not mirrored** (`Files`, `StaleIndex`, `Documents`). A windowed read under
  the index of a file is proved to answer what reading the whole file does, for every range.
  For an index that may have gone stale the exact condition is proved under which it still does.
- **Framing** (`Framing`). `FrameReader` and `FrameWriter` over byte streams, down to decimal
  digits, Unicode white space and the spellings of a header's name (LSP 3.17, "Base Protocol,
  Header Part").
- **The LSP session** (`LspServer`, `LspRuns`). `ServeLsp` runs the server over a byte stream;
  its answers are proved to be those of a reference server with plain state, and so is every
  selection it reports, with its uri, range and path. The text of a report is the reference
  server's whenever no file had to be read for it, that is, for every mirrored document and
  every bare cursor; a text read from a file is so if that file's stamp tells of every change
  of its lines. Over every list of messages, the reference server is then proved to follow the
  life cycle, to answer what it must and nothing else, and to keep exactly the documents and
  texts the editor has.
- **What the editor reads** (`JsonText`, `LspWire`). A scanner that takes the members of a JSON
  object apart (RFC 8259) is proved to find in the bytes of every answer the id of the message
  answered and its result or error, one frame for each message that is answered, in order.
- **The selection pipeline** (`Selections`, `Events`, `Pipeline`, `Delivery`). A step system:
  the editor reports, one task debounces and publishes (cell first, then channel), clients
  subscribe, read the cell, listen, fall behind, ask for mentions and leave. All statements
  hold after every finite list of steps, that is, for every interleaving.
- **One client** (`McpProtocol`, `McpConnection`), while others publish on the bus, and **the
  accept loop** (`AcceptLoop`). `Refinement` proves that each client of the pipeline, in every
  run, is where some conversation of such a connection takes it.
- **Both ends together** (`EndToEnd`): the session over the editor's frames and the pipeline as
  one system, in which serving a code action is what reports a selection. At rest, a client that
  received the newest selection was last sent the text that the last code action's range selects
  in the editor's own version of the document.

`dafny verify dfyconfig.toml` checks everything.

Three promises turn out not to hold as they read, and are stated exactly instead:

- *A client that lags loses nothing that matters* (`server/src/mcp/connection.rs:197-199`).
  At-mentions travel through the same ring. Of what it has not passed, a client that fell
  behind receives exactly what fewer than `capacity` events follow
  (`Delivery.ExactlyTheNewestSurvive`); so it ends up with the latest selection unless `capacity`
  mentions came after it (`Delivery.NewestSurvivesLag`), and for every capacity and debounce
  there is a run in which they do (`Delivery.MentionsPushSelectionOut`).
- *The debouncer ends when its trackers are gone* (`server/src/selection.rs:130-131`). It does not
  wait for its timer then. At the moment of the drop, the newest report is safe in every
  continuation if and only if it is what was last taken to be sent
  (`Pipeline.DropLosesWhatIsNotSent`); one that settles, or that was not yet noticed, is lost in
  some run unless it equals that (`Pipeline.LastReportCanBeLost` is one).
- *A stamp tells that a file changed* (`server/src/lsp/documents.rs:145-147`). A rewrite of the same
  length within the resolution of the clock goes unnoticed (`StaleIndex.StaleIndexAnswersWrong`).
  Such a file is answered rightly for every range if and only if its lines start where they
  did, give or take an empty line at the very end, whatever they hold; or, when it is no
  longer UTF-8, if nothing can be selected in any window of the old index
  (`StaleIndex.SoundIsExact`). This condition, of a file that was read as text and is read again
  later, is all that is ever assumed of stamps; `LspServer.ServeLsp` needs it only for the texts
  that come from that file.

A frame over 64 MiB can be written but not read back; `Framing.FramedReadsBack` has the exact bound.

`docs/architecture.md` is older than the code in places; the model follows the code. It still
describes a full line-index rebuild on every change and tools that are advertised to the
client. The code breaks lines at LF only, although LSP also lists a lone CR; a CR at the end of
a line is left out of its content and never opens a line.

## Model

| member | source | states |
|---|---|---|
| Utf8.BoundaryIffBothHalvesValid | server/src/lsp/documents.rs:178-182 | a cut of UTF-8 text is a character boundary exactly when both halves are UTF-8 |
| Utf8.AsciiStandsAlone | server/src/lsp/documents.rs:178-182 | an ASCII byte, so an LF, is never inside a character: both its edges are boundaries |
| Utf8.CodePointIsScalar | server/src/lsp/documents.rs:126 | decoded characters are scalar values; which, and in how many code units, is stated by the rows of `Unicode` |
| Utf8.ByteOfColumnIsGreatest | server/src/lsp/documents.rs:115-136 | the byte of a UTF-16 column is the greatest boundary whose prefix is within the column, and only it is; so inside a surrogate pair it is the start of that character |
| Utf8.ByteOfColumnMonotone | server/src/lsp/documents.rs:115-136 | later columns have later bytes |
| Utf8.ColumnRoundTrip | server/src/lsp/documents.rs:115-136 | every boundary is the byte of its own column |
| Utf8.ByteOfColumnAtEnd | server/src/lsp/documents.rs:132-135 | a column falls at the length of the line exactly when it is no less than the line's own UTF-16 length |
| Utf8.Utf16LenConcat | server/src/lsp/documents.rs:121-131 | UTF-16 widths add up along a line |
| Unicode.EncodedDecodes | server/src/lsp/documents.rs:120-131 | every scalar value is decoded from the octets that RFC 3629 gives it, whatever follows them |
| Unicode.DecodedEncodes | server/src/lsp/documents.rs:120-131 | what is decoded is a scalar value, from its octets and no others |
| Unicode.TextIsEncoded | server/src/lsp/documents.rs:120-131 | a text is exactly the octets of its characters |
| Unicode.EncodedIsText | server/src/lsp/documents.rs:120-131 | and the octets of any characters are a text that holds exactly these |
| Unicode.WidthIsUnits | server/src/lsp/documents.rs:126 | the width of a character is the number of its UTF-16 code units: itself, or a high and a low surrogate |
| Unicode.UnitsDecode | server/src/lsp/documents.rs:120-131 | the code units of a text decode to its characters |
| Unicode.ColumnIsUnits | server/src/lsp/documents.rs:115-136 | the column of a boundary is the number of code units before it |
| Unicode.ByteOfColumnByUnits | server/src/lsp/documents.rs:115-136 | a column falls at the greatest boundary with no more code units before it than the column counts, and nowhere else |
| Unicode.OffsetByUnits | server/src/lsp/documents.rs:82-136 | so does the offset of a position in the content of its line |
| Lines.LineStartsExact | server/src/lsp/documents.rs:138-143 | the rebuild is the one strictly increasing list of offset 0 and every offset after an LF |
| Lines.TailSlides | server/src/lsp/documents.rs:53-56 | the starts after a span are those of the rest of the text moved by one amount, all past the span, so moving them never underflows |
| Lines.IndexOfSpan | server/src/lsp/documents.rs:47-54 | the two partition points cut the index exactly into the starts before the span and those after it, the inclusive edge included |
| Lines.RepairEqualsRebuild | server/src/lsp/documents.rs:44-76 | for every span and inserted text, the repaired index is the rebuild of the replaced text |
| Lines.JoinedCanSlide | server/src/lsp/documents.rs:56-75 | `shift` never goes below zero, on either branch |
| Positions.ContentEndExact | server/src/lsp/documents.rs:94-103 | the content of a line ends at the one place with no LF before it where the text ends, an LF follows, or a CR that an LF or the end follows, and not behind such a CR |
| Positions.OffsetThroughIndex | server/src/lsp/documents.rs:82-106 | walking line by line and looking up the index give the same offset; past the last line both give the end |
| Positions.OffsetIsBoundary | server/src/lsp/documents.rs:78-106 | an offset is a character boundary within the text and never separates a CR from its LF |
| Positions.OffsetIsGreatest | server/src/lsp/documents.rs:82-136 | on a line that exists it is exactly the greatest boundary of the clamped line whose UTF-16 prefix is within `character` |
| Positions.OffsetRoundTrip | server/src/lsp/documents.rs:82-136 | every boundary of a line's content is the offset of its own line and UTF-16 column |
| Positions.OffsetStaysOnLine | server/src/lsp/documents.rs:94-105 | an over-long column does not run into the next line |
| Positions.OffsetMonotone | server/src/lsp/documents.rs:82-136 | offsets are monotone in lexicographic order of positions, across lines |
| Positions.SelectedIsText | server/src/lsp/documents.rs:108-112 | the bounds of any range are boundaries in order, so the slice is always there and is text |
| Positions.SelectedIsBetween | server/src/lsp/documents.rs:108-113 | what a range selects is what lies between the offsets of its two ends, and nothing when they come in the wrong order |
| Positions.ReplacedValid | server/src/lsp/documents.rs:45 | replacing between boundaries gives text again, so `replace_range` does not panic |
| Positions.EditIsInvertible | server/src/lsp/documents.rs:44-76 | the span an edit wrote is bounded by character boundaries, and replacing it by what was removed restores the text |
| Positions.WindowIsText | server/src/lsp/documents.rs:174-182 | both ends of the window are character boundaries in order, so the window is UTF-8 |
| Positions.OffsetInWindow | server/src/lsp/documents.rs:221-230 | an offset of the whole text is the window's start plus the rebased position's offset in the window |
| Positions.InvertedWindow | server/src/lsp/documents.rs:193-198 | a range whose end line comes first has an empty window and selects nothing |
| Positions.NothingPastTheEnd | server/src/lsp/documents.rs:187-191 | a range that begins past the last line selects nothing |
| Positions.WindowAnswersWholeText | server/src/lsp/documents.rs:183-231 | for every range, the rebased range in the window selects what the range selects in the whole text |
| Files.FileSystem.ReadExactAt | server/src/lsp/documents.rs:200-206 | filling a buffer from an offset gives exactly those bytes, or fails when the file is shorter |
| Files.WindowedReadIsColdRead | server/src/lsp/documents.rs:174-231 | under the index of what the file holds, reading only the window answers what reading the whole file does |
| StaleIndex.IndexAnswersExactly | server/src/lsp/documents.rs:156-231 | for a file that is text, an index answers every range as a cold read does if and only if it lists the file's own line starts, give or take an empty last line |
| StaleIndex.BrokenFileAnswersExactly | server/src/lsp/documents.rs:200-219 | for a file that is not UTF-8, an index answers every range with nothing, as a cold read does, if and only if nothing can be selected in any of its windows that is UTF-8 |
| StaleIndex.SoundIsExact | server/src/lsp/documents.rs:156-231 | both cases, and the file that cannot be opened: the condition under which the cached index of one file may answer for another |
| StaleIndex.SoundIndexAnswersColdRead | server/src/lsp/documents.rs:183-231 | under that condition every range is answered as a cold read does, however large the file |
| StaleIndex.StaleIndexAnswersWrong | server/src/lsp/documents.rs:145-163 | two files of the same stamp and a range for which the cached index gives the wrong text |
| Documents.CharPosToBytePos | server/src/lsp/documents.rs:120-136 | the loop finds the byte of a UTF-16 column, and nothing exactly when the column is past the end |
| Documents.Document.constructor | server/src/lsp/documents.rs:25-28 | a new document's index is the line index of its text |
| Documents.Document.SetText | server/src/lsp/documents.rs:30-33 | the text is replaced and the index is its line index |
| Documents.Document.SlideFrom | server/src/lsp/documents.rs:62-64 | the in-place loop moves exactly the entries from one on, by the change in length |
| Documents.Document.RepairIndex | server/src/lsp/documents.rs:47-75 | on the branch with and without newlines, the index becomes the rebuild of the replaced text |
| Documents.Document.Splice | server/src/lsp/documents.rs:44-76 | the text becomes `text[..start] + inserted + text[end..]` and the index is again its line index |
| Documents.SpliceThenUndo | server/src/lsp/documents.rs:44-76 | splicing the removed bytes back restores text and index exactly |
| Documents.Document.OffsetOf | server/src/lsp/documents.rs:82-106 | the lookup through the index is the reference editor's offset |
| Documents.Document.TextInRange | server/src/lsp/documents.rs:108-113 | the text of a range is what the reference editor selects; the default is never taken |
| Documents.DiskIndex.ReadRange | server/src/lsp/documents.rs:183-231 | it makes at most one access, of the window, and answers from that alone |
| Documents.ReplayedStep | server/src/lsp/documents.rs:271-292 | each change of a batch applies to the text the one before it produced |
| Documents.ReplayedOneMore | server/src/lsp/documents.rs:271-292 | a batch is replayed one change at a time |
| Documents.OneChange | server/src/lsp/documents.rs:283-292 | a change without a range leaves its own text; one with a range leaves what comes before the range, its text, and what comes after the range, so exactly what the range selects is gone |
| Documents.DocumentStore.Open | server/src/lsp/documents.rs:253-265 | the document is mirrored with its text, or dropped when over the cap; the others keep theirs, all with exact indexes and within the cap |
| Documents.DocumentStore.Close | server/src/lsp/documents.rs:267-269 | exactly that document is dropped |
| Documents.DocumentStore.ApplyOne | server/src/lsp/documents.rs:283-292 | one change leaves that text, with an exact index; without a range, the change's own |
| Documents.DocumentStore.ApplyAll | server/src/lsp/documents.rs:283-292 | a batch leaves the replay of its changes by plain replacement, with an exact index |
| Documents.DocumentStore.Apply | server/src/lsp/documents.rs:276-298 | the mirror changes as the reference editor's does; a document over the cap after the batch is dropped, an unknown one ignored |
| Documents.DocumentStore.TextInRange | server/src/lsp/documents.rs:300-303 | the selected text, or nothing exactly when the document is not mirrored |
| Documents.DocumentStore.ReadWhole | server/src/lsp/documents.rs:354-372 | a whole read answers the cold read and is remembered under the file's own length, time and lines; a failed one makes the cache forget |
| Documents.DocumentStore.TextFromDisk | server/src/lsp/documents.rs:325-373 | the remembered file, of the same length and the same known time, costs one window and is answered from that, which is the cold read if the cached index is sound; any other file, one whose time or length differs included, is read whole, answered by the cold read and remembered as it is now |
| Documents.BareCursorSelectsNothing | server/src/lsp/documents.rs:311-318 | an empty range selects nothing, mirrored or not |
| Documents.DocumentStore.TextForRange | server/src/lsp/documents.rs:305-323 | the mirror answers if it can, else the disk; a bare cursor or a mirrored document touches no file and is answered rightly whatever the cache holds, any other range if the cached index is sound for its file |
| Framing.ParsePrinted | server/src/lsp/framing.rs:49 | parsing a printed number gives it back, up to the range of `usize` |
| Framing.ParseExact | server/src/lsp/framing.rs:49 | what parses as a number is its decimal digits, perhaps behind zeros and a plus, within the range of `usize`, and nothing else |
| Framing.SpaceCharsAreWhiteSpace | server/src/lsp/framing.rs:41-49 | the bytes taken for white space are exactly the encodings of the characters with the property White_Space |
| Framing.TrimExact | server/src/lsp/framing.rs:49 | trimming cuts off white space at both ends, nothing else, and leaves none there |
| Framing.SpellingsAreRead | server/src/lsp/framing.rs:46-48 | the names taken for Content-Length are exactly those that spell it letter by letter in either case |
| Framing.LengthLinesAreRead | server/src/lsp/framing.rs:46-51 | the lines taken for Content-Length lines are exactly those with such a name before their first colon |
| Framing.HeadersConsume | server/src/lsp/framing.rs:37-52 | reading headers takes at least one byte off the front and leaves the rest untouched |
| Framing.FrameConsumes | server/src/lsp/framing.rs:35-71 | a frame read consumes the header block and exactly the declared length, at most 64 MiB, and never nothing |
| Framing.FrameReader.ReadLine | server/src/lsp/framing.rs:39 | one line is taken off the stream and appended, or an error when it is not UTF-8 |
| Framing.FrameReader.NextHeaders | server/src/lsp/framing.rs:36-52 | the header loop ends at the first blank line with the last Content-Length, or at the end of the input |
| Framing.FrameReader.NextFrame | server/src/lsp/framing.rs:35-71 | the body, the end of the input or an error, as the reference reader says, and what is left of the stream |
| Framing.OtherHeadersIgnored | server/src/lsp/framing.rs:46-51 | headers other than Content-Length leave the length alone |
| Framing.ContentLengthLine | server/src/lsp/framing.rs:46-51 | a line with any spelling of the name, and any white space around the value, says its value |
| Framing.BodyDependsOnLengthOnly | server/src/lsp/framing.rs:35-71 | a block with one usable Content-Length in any spelling reads as exactly the declared bytes, whatever the white space and other headers before or after |
| Framing.FramedReadsBack | server/src/lsp/framing.rs:13-15 | a written frame reads back, whatever follows it, if and only if its body is within 64 MiB; beyond that the reader fails |
| Framing.StreamRoundTrip | server/src/lsp/framing.rs:35-92 | reading what was written yields the bodies in order and then the end of the input |
| Framing.UniquelyDecodable | server/src/lsp/framing.rs:86-92 | no two lists of bodies are written alike |
| Framing.FrameWriter.WriteFrame | server/src/lsp/framing.rs:86-92 | one frame is appended, and the output stays that of the bodies written so far |
| LspWire.FrameInBytes | server/src/lsp/framing.rs:86-92 | byte for byte: the header with the body's length in decimal, a blank line, the body |
| Framing.FrameWriter.OutputReadsBack | server/src/lsp/framing.rs:35-92 | whoever reads a writer's output gets exactly the bodies written, when each is within the cap |
| LspServer.Server.DidOpen | server/src/lsp/server.rs:293-301 | the mirror opens the document as the reference does; nothing happens when the parameters do not fit |
| LspServer.Server.DidChange | server/src/lsp/server.rs:303-311 | the same for a batch of changes |
| LspServer.Server.DidClose | server/src/lsp/server.rs:313-320 | the same for a close |
| LspServer.Server.CodeAction | server/src/lsp/server.rs:322-358 | exactly one selection is reported, with its uri, range and path, whatever the cache holds; its text is right unless it had to be read from a file for which the cached index is not sound; no actions are offered; nothing is reported when the parameters do not fit |
| LspServer.Server.ServeMessage | server/src/lsp/server.rs:214-245 | each method does what the reference server does; a reported text may differ only if it was read from a file that is not to be trusted |
| LspServer.Server.Route | server/src/lsp/server.rs:175-246 | dispatch, with the life-cycle checks, has the reference server's state and reply, and its reports but for texts from files that are not to be trusted |
| LspServer.NextRequest | server/src/lsp/server.rs:72-98 | frames that do not decode are passed over; the end of the input, a broken frame or `exit` ends the session |
| LspServer.ServeOne | server/src/lsp/server.rs:100-135 | an answer is written exactly when the message has an id and the reply is not silence, and carries that id; the reports are as for one dispatch |
| LspServer.ServeNth | server/src/lsp/server.rs:100-135 | with an index remembered from any earlier state of the files, a message is handled as the reference server does; a reported text may differ only if it was read from a file whose stamp does not tell of every change of lines |
| LspServer.TimeTellsOfChange | server/src/lsp/documents.rs:145-163 | over any run, a file whose time changes whenever its lines do, or it stops being text, is one whose stamp always tells |
| LspServer.ServeNext | server/src/lsp/server.rs:72-136 | one turn of the loop, from waiting to answering, leaves the outcome of the whole session what it was, or reaches it |
| LspServer.SessionFrom | server/src/lsp/server.rs:72-136 | message by message and all at once, a session is the same |
| LspServer.ServeLoop | server/src/lsp/server.rs:72-136 | after every message, what is written and what is left of the stream still give the outcome the whole session has under the reference server; the reports are its reports, but for texts from files whose stamps do not tell |
| LspServer.ServeStream | server/src/lsp/server.rs:63-137 | for every byte stream, the answers written are the reference server's to its messages, and so are the selections reported; only a text read from a file whose stamp does not tell may differ |
| LspServer.ServeLsp | server/src/lsp/server.rs:63-137 | from bytes to bytes: whoever reads the output of a session finds exactly the reference server's answers in it, in order, when each is within the cap; for every stream the selections reported are the reference server's one by one, with its texts for mirrored documents and bare cursors and for files whose stamps tell, and all alike if those of the files read do |
| LspRuns.FlagsTellHistory | server/src/lsp/server.rs:178-222 | over every run, the two flags say exactly whether `initialize` came, and `shutdown` after it |
| LspRuns.StoppedMeans | server/src/lsp/server.rs:206-222 | the second flag is up exactly when a `shutdown` came after an `initialize` |
| LspRuns.FlagsAreMonotone | server/src/lsp/server.rs:175-222 | both flags only go up, and the second implies the first |
| LspRuns.UntouchedBeforeInitialize | server/src/lsp/server.rs:191-204 | before `initialize` nothing is mirrored and nothing reported |
| LspRuns.OnlyFirstInitializeSucceeds | server/src/lsp/server.rs:178-189 | the first `initialize` gets the capabilities and every other one an error |
| LspRuns.RequestsRefusedAfterShutdown | server/src/lsp/server.rs:205-212 | after `shutdown` every request is refused and changes nothing |
| LspRuns.SilenceIsExact | server/src/lsp/server.rs:214-245 | a message with an id is met with silence exactly when it is one of the five notification-only methods and was served |
| LspRuns.RepliesAreExact | server/src/lsp/server.rs:175-246 | over every run, the reply to a message with an id is told by the messages before it: which error, with what data, and which result |
| LspRuns.RepliesCorrespond | server/src/lsp/server.rs:100-135 | over every run, the answers carry the ids of the answerable messages in order, one each, and no answer is silence |
| JsonText.MemberReadsBack | server/src/lsp/server.rs:107-120 | scanning the text of an object finds under each name what was written under it, for every name and value of JSON |
| JsonText.ObjectIsValue | server/src/lsp/protocol.rs:52-92 | the text of an object is again one value |
| LspWire.AnswerReadsBack | server/src/lsp/server.rs:107-133 | from the bytes of an answer its id reads back, and either its result or its error with code, message and data |
| LspWire.OutputSaysAnswers | server/src/lsp/server.rs:63-137 | over every session, the frames read from the output carry the ids of the answered messages, in order, one each, with the result or error of each |
| LspRuns.MirrorAfter | server/src/lsp/server.rs:224-226 | only a served open, change or close touches the mirror, and how |
| LspRuns.MirrorIsEditor | server/src/lsp/documents.rs:253-298 | over every run, a document is mirrored exactly when it was opened, not closed since and never over the cap since its last open, and then its text is the plain replay of the edits since |
| LspRuns.MirroredThroughout | server/src/lsp/documents.rs:253-298 | a document mirrored now has been within the cap, and neither reopened nor closed, after every message since its open |
| LspRuns.MirroredIfThroughout | server/src/lsp/documents.rs:253-298 | and whenever that is so, it is mirrored |
| LspRuns.ReportedTextIsEditorText | server/src/lsp/server.rs:322-358 | a served code action reports its uri, range and path, with the text the range selects in the replay of the edits, or in the file when not mirrored |
| LspRuns.OnlyCodeActionsReport | server/src/lsp/server.rs:225-246 | no other message reports a selection |
| LspRuns.ReportsAreCounted | server/src/lsp/server.rs:340-349 | over every run there is one report for each code action served, and none is ever taken back |
| LspRuns.EveryReport | server/src/lsp/server.rs:322-358 | for whatever `ServeLsp` reports, cache included: the report of each code action served is in its place, with its uri, range and path; its text is empty for a bare cursor, what the range selects in the replay of the edits for a mirrored document, and what the file holds for any other whose file can be trusted |
| LspRuns.EveryReportOfASession | server/src/lsp/server.rs:322-358 | the same with plain replacement as the replay and with stamps that tell as the ground for trust |
| LspRuns.MirrorIsPlainReplay | server/src/lsp/documents.rs:253-298 | a document is mirrored exactly when it was opened, not closed since and never over the cap since, and then holds the plain replay of the edits since |
| Selections.SelectionTracker.Update | server/src/selection.rs:140-146 | the newest value replaces the old one and counts as a new version, also when equal |
| Selections.MentionIsExact | server/src/selection.rs:45-56 | a mention is of the selection's file, and of its lines exactly unless the selection is a bare cursor |
| Events.EventBus.Subscribe | server/src/selection.rs:85-87 | a receiver finds nothing at first and then the next event sent |
| Events.EventBus.Latest | server/src/selection.rs:89-94 | the selection published last, if any |
| Events.EventBus.PublishSelection | server/src/selection.rs:96-106 | the cell holds it and every subscriber is sent it; with none the send is dropped |
| Events.EventBus.PublishMention | server/src/selection.rs:108-110 | the subscribers are sent it and the cell does not change |
| Events.ForwardedConsistent | server/src/mcp/connection.rs:174-207 | one receive, a lag included, keeps the client's received places rising and adding up with what it skipped |
| Events.DrainDelivers | server/src/mcp/connection.rs:197-207 | taking all there is, a client gets exactly what it has not passed and what fewer than `capacity` events follow |
| Pipeline.TaskStep | server/src/selection.rs:149-179 | every step of anybody keeps what the debouncer relies on |
| Pipeline.PublicationsAreSettled | server/src/selection.rs:153-172 | each publication is the newest report at the instant it was picked, also when the timer wins a tie, and that was at least the debounce after the first report it covers and after the last that restarted the timer |
| Pipeline.PublicationsAreOrdered | server/src/selection.rs:149-179 | versions rise, neighbours differ, and each is picked at least the debounce after the one before it was written |
| Pipeline.RateBound | server/src/selection.rs:158-161 | a stretch of length `span` sees at most `span / debounce + 1` publications |
| Pipeline.IdleIsCurrent | server/src/selection.rs:149-179 | waiting with everything seen, the newest report is `latest` and `last_sent` |
| Pipeline.TimerFindsAValue | server/src/selection.rs:170-172 | the branch for an empty cell is never taken |
| Pipeline.QuietPublishes | server/src/selection.rs:156-177 | from any state a run can reach, any pause in the reports that lasts the debounce and in which the debouncer gets its turns publishes the newest report, whatever the clients do in between |
| Pipeline.ShortestPause | server/src/selection.rs:156-177 | seven steps can be such a pause |
| Pipeline.EndedPublishesNothing | server/src/selection.rs:153-164 | an ended task publishes nothing more |
| Pipeline.DropLosesWhatIsNotSent | server/src/selection.rs:153-177 | at the moment the trackers are dropped, the newest report will be the latest selection when the debouncer has ended, however things go on, if and only if it is what was last taken to be sent |
| Pipeline.LastReportCanBeLost | server/src/selection.rs:161-165 | a run in which the only report is lost |
| Delivery.ClientsStep | server/src/mcp/connection.rs:118-133 | every step of anybody keeps what holds of each client |
| Delivery.NoGap | server/src/mcp/connection.rs:118-133 | a client that never fell behind was sent the selection it found and then every publication since it subscribed, in order; what it found is no older than where those begin |
| Delivery.NoMissedSelection | server/src/selection.rs:98-106 | in every interleaving, such a client that took all there is knows `latest`, unless it is just being sent |
| Delivery.AtRestClientsAreCurrent | server/src/selection.rs:117-123 | at rest it knows what the user last selected |
| Delivery.LagConservation | server/src/mcp/connection.rs:182-207 | received, skipped and still to come add up to what was sent since subscribing; what was received is in order, each once |
| Delivery.OnlyPushedOutIsSkipped | server/src/selection.rs:77-78 | only what `capacity` newer events pushed out is skipped |
| Delivery.NewestSurvivesLag | server/src/mcp/connection.rs:197-207 | however far it fell behind, a client that took all there is knows `latest`, unless `capacity` mentions were sent after the newest selection; also when no selection was sent since it connected |
| Delivery.HasNewestIsCurrent | server/src/mcp/connection.rs:197-207 | however far it once fell behind and whatever mentions it has yet to take, a client that received the newest selection sent since it subscribed, if any, knows `latest` |
| Delivery.ExactlyTheNewestSurvive | server/src/mcp/connection.rs:197-207 | and what it gets is exactly what fewer than `capacity` events follow |
| Delivery.MentionsPushSelectionOut | server/src/mcp/connection.rs:197-207 | for every capacity and debounce, a run in which a client took all there is and was never sent the latest selection |
| Delivery.MentionsArePublished | server/src/mcp/connection.rs:359-371 | every mention sent, or made and about to be sent, is of a selection that was published |
| Delivery.AskersWait | server/src/mcp/connection.rs:137-216 | in every run, only a client that is served asks for a mention, and until it is sent the client takes no event, asks for no other and does not leave |
| McpProtocol.ResponsesCorrespond | server/src/mcp/connection.rs:239-336 | over every list of messages, each non-null id gets one response with that id, in order, text that is not JSON one with a null id, and nothing else is answered |
| McpProtocol.CodesAreExact | server/src/mcp/connection.rs:246-332 | each error code is sent exactly for its cause: not JSON, no request, unknown method, bad arguments of a tool call, other trouble |
| McpProtocol.PayloadsAreExact | server/src/mcp/protocol.rs:129-256 | each kind of payload is sent exactly for its method, and for a call only if it names what it calls |
| McpProtocol.NamesAreEchoed | server/src/mcp/protocol.rs:196-303 | and says what it should of the name it was called with |
| McpProtocol.FailuresSay | server/src/mcp/connection.rs:286-336 | an error says what was wrong with the request: the method it does not know, or which argument is missing |
| McpProtocol.NoRequestIsTold | server/src/mcp/connection.rs:239-332 | text that is not JSON is answered with a null id, JSON that is no request with the id it has |
| McpProtocol.MentionsAreAskedFor | server/src/mcp/connection.rs:271-277 | a mention is asked for by a notification of that name and by nothing else |
| McpProtocol.AnsweredInTurn | server/src/mcp/connection.rs:239-336 | over every list of messages, the k-th response is to the k-th message that wants one |
| McpProtocol.OnlyDiagnosticsSucceed | server/src/mcp/protocol.rs:270-292 | over every list of messages, a tool result answers a call with its id, and lacks the error flag exactly when that call is of `getDiagnostics`; so no edit is ever reported as saved |
| McpConnection.Connection.constructor | server/src/mcp/connection.rs:118-135 | it subscribes first and is then sent the latest selection, if any |
| McpConnection.Connection.Forward | server/src/mcp/connection.rs:174-207 | one event is sent, or the cursor moves past what was lost |
| McpConnection.Connection.HandleAtMentionRequest | server/src/mcp/connection.rs:359-371 | a mention of the latest selection is published, or nothing while there is none |
| McpConnection.Connection.HandleMessage | server/src/mcp/connection.rs:222-349 | the responses and the mention are those of the reference connection; only a broken socket ends it |
| McpConnection.Connection.Turn | server/src/mcp/connection.rs:138-216 | each arm of the select does what the reference connection does; another may publish instead |
| McpConnection.Connection.Serve | server/src/mcp/connection.rs:137-219 | the loop is the reference connection, turn by turn, up to the turn that ends it |
| McpConnection.ConversationsForward | server/src/mcp/connection.rs:181-196 | over every conversation, whatever others publish in between, the notifications on the socket are the events received, in order |
| McpConnection.EverythingIsPushed | server/src/mcp/connection.rs:118-196 | over every conversation, a client that never fell behind and took all there is was sent the selection latest when it connected and then everything published since, by others or at its own request, each once and in order, and so knows the latest selection |
| McpConnection.ConversationsCorrespond | server/src/mcp/connection.rs:260-336 | over every conversation, the responses on the socket answer the ids that want an answer, in order, whatever is pushed in between |
| McpConnection.ConversationsNeverClaimSuccess | server/src/mcp/protocol.rs:270-292 | over every conversation, no tool result on the socket lacks the error flag but those to calls of `getDiagnostics` |
| McpConnection.ConversationsAreConsistent | server/src/mcp/connection.rs:197-207 | over every conversation, whatever others publish in between, received and skipped add up and only what `capacity` newer events pushed out is skipped |
| McpConnection.OnlyMentionsAreAdded | server/src/mcp/connection.rs:271-277 | what a conversation adds to what others publish is one mention, of the selection latest at that moment, for each message asking for it, and nothing else |
| McpConnection.GoodbyeIsSaidLast | server/src/mcp/connection.rs:138-150 | over every conversation, a close frame is sent exactly when the loop was cancelled, once, as the last of all |
| Refinement.ClientsAreConnections | server/src/mcp/connection.rs:118-216 | in every run of the pipeline, each client served is where some conversation of a connection takes it, on a bus that carried the same, and was sent what that conversation put on its socket |
| Refinement.SeesStep | server/src/mcp/connection.rs:137-216 | whatever step anybody takes, the connection of a client follows it in one turn or none |
| AcceptLoop.Serve | server/src/mcp/server.rs:73-135 | the loop gives up, with the token cancelled, exactly at a fatal error or at one backoff too many; somebody else's cancel stops it; below the limit it goes on, with the count of backoffs since the last success |
| AcceptLoop.PolicyIsExact | server/src/mcp/server.rs:158-187 | which errors are retried at once, which end the loop, and which are waited out, and for how long |
| AcceptLoop.StreakStep | server/src/mcp/server.rs:90-103 | the count is zero after a success, one more after a backoff, and the same after a retry |
| AcceptLoop.SurvivorsAreBelowTheLimit | server/src/mcp/server.rs:149-153 | while the loop goes on, the count stays below twenty |
| AcceptLoop.ExhaustedAtTheTwentieth | server/src/mcp/server.rs:99-108 | the backoff that ends it is exactly the twentieth since the last success |
| AcceptLoop.FailuresAreSleptOver | server/src/mcp/server.rs:149-156 | since the last success the loop slept at least 100 ms for each failure counted and less than five seconds in all, so a failing listener neither spins nor lingers |
| AcceptLoop.RetriesDoNotCount | server/src/mcp/server.rs:95-98 | leaving out the retries changes neither the count nor the clients served |
| EndToEnd.WorldIsBoth | server/src/lsp/server.rs:340-349 | the session and the pipeline run as one system over the editor's frames, `exit` included: the messages served are those of the session that reads these frames, and what the pipeline was told is what that session reports, but for texts from files whose stamps do not tell |
| EndToEnd.WhatIsSelectedReachesTheClient | server/src/lsp/server.rs:322-358 | in every run of that system, once at rest, a client that received the newest selection sent since it subscribed, whatever it lost before and whatever mentions followed, was last sent the last code action's selection, with the text its range selects in the editor's own document; or in the file, when not mirrored and its stamp tells |

## Left out

- JSON decoding, and the encoding of strings: messages arrive decoded (`LspServer.Params`, `McpProtocol.Message`); how a string is quoted in an LSP error reply is a parameter of `LspServer.Surroundings`, and MCP frames stay datatypes. The JSON texts that the server copies (ids, the capabilities) are taken as values when brackets and strings close and none is cut short. No event or response of this server fails to encode, so the branches for that are not modelled.
- Method names are constructors of a datatype rather than strings; any other name is `Other`.
- Output that fails, in `serve_lsp` and in the WebSocket sends: every write succeeds; in the pipeline a failed push is a client that leaves.
- Panic catching in `dispatch`: the model proves that the slices and replacements it guards do not go out of bounds.
- Logging, the capability payload, and URI decoding: the last two are parameters of `LspServer.Surroundings`.
- The width of `usize` offsets and of `u32` counters: offsets are unbounded, within texts that the cap or the file system bounds; `u32` is kept for positions and a 64-bit `usize` for the parsed Content-Length.
- Files.FileSystem.ReadExactAt: does not model a file that changes between the stat and the read, because files change only between calls.
- StaleIndex.SoundIsExact: is stated for files of less than 4 GiB, where every line and column has a position that a client can name; that a sound index suffices holds for all sizes.
- The debounce task `run` is not a method: it is awaited at several points where everybody else may move, so its nested loops are the steps `Notice`, `Fire`, `Write`, `Send` and `End` of `Pipeline`, one for each stretch between two such points.
- The broadcast and watch channels are modelled by their documented contract: the channel keeps the last `capacity` events and a receiver that fell behind is moved to the oldest kept. Rounding of the capacity to a power of two and the branch for a closed bus are not modelled.
- McpConnection.Connection.Serve: has others publish between two turns only; that they may also do so while a message is handled, between reading the latest selection and sending a mention of it, is in `Pipeline`, and `Refinement` counts such a mention as published by another.
- Time is a natural number of any unit; a timer goes off at or after its deadline.
- More than one publishing task: in production only the tracker's task publishes selections.
- Accepting a connection starts a task; `AcceptLoop.Serve` records the client instead. The port search, the WebSocket upgrade, the token check and close codes other than "going away" are not modelled.
- Lock file, discovery, watchdog, signals, `resolve` and the extension are not part of this model.
