# Log tailer core, modelled in Dafny

The server watches one log file, `test.txt`. It has two jobs:

- It sends every client that connects the file's last lines. This is the backfill, `getLastLines`.
- It broadcasts each line appended afterwards to every connected client. This is `readNewContent` together with the `fs.watch` callback and the module-level `lastSize` offset.

The model covers exactly that engine.

- `text.dfy`, module `Text`: the JavaScript string and array operations the engine is built from.
  - `split('\n')` is `Split`, with its inverse `Join`.
  - `trim()` is `Trim`; `NonBlank` is what the filter keeps.
  - `filter(line => line.trim())` is `KeepNonBlank`.
  - `slice(-count)` is `SliceLast`. It has JavaScript's meaning for a zero or negative `count`.
- `files.dfy`, module `Files`: the watched file at the moment of a call.
  - The file is a snapshot `Option<string>`. `None` stands for any of `statSync`, `openSync` or `readSync` throwing.
  - `readSync` into a buffer is a method that fills an `array`.
- `backfill.dfy`, module `Backfill`: `getLastLines`.
  - The small-file path is a function.
  - The backward chunked loop is a method proved against the recursive function `ChunkScan`, which follows the loop round by round.
  - The 1 MiB size limit and the 64 KiB buffer are parameters, so both paths can be reasoned about on short files. The real values are the constants `SmallFileLimit`, `ChunkBytes` and `DefaultCount`.
  - The module also holds the corrected `getLastLines`; see "## Findings".
- `tail.dfy`, module `Tail`: the live broadcast.
  - `readNewContent` is the method `ReadNewContent`, with the function `Delta` as its value-level counterpart.
  - The callback and the offset form the class `Tailer`. Its field `lastSize` is the module-level variable. Its field `log` is the sequence of `io.emit('newLog', line)` broadcasts.
  - `Handle` and `Run` state the same callback on values. They support the lemmas about runs of many notifications.
  - A run of `fs.watch` notifications is a sequence of (event type, snapshot) pairs. The notifications may coalesce several writes or repeat one.
- `scenarios.dfy`, module `Scenarios`: end-to-end runs over arbitrary lines.

Three behaviours of the code fall short of what its own names and comments promise ("Optimized function to get last N lines", "Sending last 10 lines when client connects", "Function to read only new content"). The model states what the code does in each case:

- The backfill is not always the last `count` non-blank lines, and the two paths of `getLastLines` do not always agree. A final line feed costs one line. The chunked path drops a piece of every chunk. Both are recorded under "## Findings", each with a corrected version.
- A line written in two parts ("partial", then "-line\nmore\n") is broadcast as two lines, because each read is split on its own. `Scenarios.PartialLineIsNotRejoined` states this.
- When the file shrinks, `readNewContent` reports the smaller size, but the callback ignores it because the content is empty. `lastSize` stays where it was, and lines later written below the old size are never broadcast. `Tail.HandleEffect` states the no-op.

## Model

| member | source | states |
|---|---|---|
| Text.Split | server.js:48 | `split('\n')` yields one more piece than there are line feeds; `SplitNoNL` states that no piece contains a line feed |
| Text.SplitNoNL | server.js:48 | no piece of `split('\n')` contains a line feed |
| Text.JoinSplit | server.js:48 | joining the pieces of a split with line feeds gives back the string |
| Text.SplitJoin | server.js:48 | splitting the join of pieces that contain no line feed gives back the pieces |
| Text.SplitConcat | server.js:48 | splitting `a + b` gives the pieces of `a` then those of `b`, with the last piece of `a` fused to the first of `b`; this is how a chunk's pieces relate to the whole file's |
| Text.SplitAroundNL | server.js:106 | splitting across a line feed gives the pieces of both sides side by side |
| Text.Trim | server.js:33 | `trim()` is empty exactly for an all-whitespace string, and otherwise starts and ends with a non-whitespace character |
| Text.TrimCutsOnlySpace | server.js:33 | `trim()` returns a contiguous part of the string, and everything it cuts off on either side is whitespace |
| Text.NonBlankIffTrimmedNonEmpty | server.js:106 | the filter keeps a line exactly when its trimmed form is non-empty |
| Text.KeepNonBlank | server.js:106 | the filter's result is no longer than its input; `KeepNonBlankKeeps` and `KeepNonBlankMembers` state what it keeps |
| Text.KeepNonBlankKeeps | server.js:106 | every entry the filter keeps is non-blank, and entries free of line feeds stay free of them |
| Text.KeepNonBlankMembers | server.js:106 | a string is in the filtered list exactly when it is in the input and non-blank |
| Text.KeepNonBlankConcat | server.js:106 | filtering distributes over concatenation, so order is kept |
| Text.LinesOf | server.js:106 | `content.split('\n').filter(line => line.trim())` as a definition, shared by the live path and the corrected backfill; `KeepNonBlankKeeps`, `FilteredSplitConcat` and `WholeLineAppendsEmitInOrder` state its properties |
| Text.FilteredSplitConcat | server.js:106 | when the first part ends a line, the non-blank lines of `a + b` are those of `a` followed by those of `b` |
| Text.SliceLast | server.js:53 | `slice(-count)` is a suffix: `min(count, n)` elements for positive `count`, the whole array for 0, and `n + count` elements, floored at 0, for negative `count` |
| Files.ReadSync | server.js:45 | the `length` bytes at `position` land at the front of the buffer, and the rest of the buffer is unchanged |
| Backfill.WholeFileLines | server.js:33 | the small-file path, `split('\n').slice(-count).filter(trim)`, as a definition; `LastLinesShape`, `TrailingNewlineTakesASlot` and `ChunkedAgreesWhenLastChunkSuffices` state its properties |
| Backfill.ChunkScan | server.js:40-50 | the backward loop as a definition, one round per recursive call; `ChunkScanNoNL` and `ChunkScanEmbeds` state what it gathers, `ChunkedDropsUnterminatedLine` what it loses |
| Backfill.ChunkedLines | server.js:36-53 | the large-file path as a definition: the backward loop from the end of the file (`ChunkScan`), then `lines.slice(-count).filter(...)`. `ChunkedLastLines` is proved to return it and `LastLines` selects it for files at or above the limit. `ChunkedAgreesWhenLastChunkSuffices` states when it equals the small-file path, `ChunkedDropsUnterminatedLine` what it loses, and `LastLinesShape` that its entries keep file order |
| Backfill.LastLines | server.js:23-58 | `getLastLines` as a definition: `[]` when a call throws or the size is 0, then the path the size selects; `LastLinesShape` states its properties |
| Backfill.ChunkedLastLines | server.js:37-53 | the backward loop; its contract is that the result equals `ChunkedLines`, through `ChunkScan`, the loop stated round by round. The loop body asserts that each `readSize` is between 1 and the cursor, that the cursor stays at or above 0, and that each chunk is exactly the file bytes `[position, position + readSize)` |
| Backfill.GetLastLines | server.js:23-58 | `getLastLines`: `[]` on a read failure or an empty file, the whole-file path under the limit, the chunked path otherwise |
| Backfill.LastLinesShape | server.js:23-58 | every backfill is `[]` for an unreadable or empty file, has at most `count` entries for a positive `count`, and each entry is non-blank and free of line feeds. Its entries keep file order on both paths: each is a prefix of a distinct line of the file, in the order of those lines (`Embeds`) |
| Backfill.SliceFilterEmbeds | server.js:53 | `slice(-count)` followed by the filter keeps entries in file order |
| Backfill.ChunkScanEmbeds | server.js:42-50 | the lines the backward loop gathers are prefixes of distinct lines of the file, in file order |
| Backfill.ChunkPiecesEmbed | server.js:48-49 | one round: the chunk's pieces after its first, put in front of the lines gathered so far, stay in file order; the chunk's last piece is a prefix of the line it starts |
| Backfill.CursorTailEmbeds | server.js:42-50 | lines in order among the pieces after the cursor are in order among the whole file's pieces |
| Backfill.ChunkScanNoNL | server.js:48-49 | the lines the backward loop gathers contain no line feed |
| Backfill.ChunkedAgreesWhenLastChunkSuffices | server.js:42-53 | when the last chunk alone holds at least `count` line feeds, the chunked path returns exactly what the whole-file path returns |
| Backfill.ChunkedDropsUnterminatedLine | server.js:42-53 | as written, the chunked path returns `[]` for a file without a line feed, while the whole-file path returns its one line |
| Backfill.LongSingleLineFileGetsNoBackfill | server.js:31-53 | with the real 1 MiB limit, 64 KiB buffer and count 10, a single-line file of at least 1 MiB gets an empty backfill |
| Backfill.TrailingNewlineTakesASlot | server.js:33 | as written, for a file of complete lines ending with a line feed, the small-file path returns only the last `count - 1` lines; without the final line feed it returns the last `count` |
| Backfill.LastNonBlankLines | server.js:33 | the corrected backfill as a definition: filter first, then `slice(-count)`, so the result is the last `count` non-blank lines. `FinalNewlineIsIgnored` states that a final line feed does not matter, `LastNonBlankLinesIgnoresFinalNewline` works it out for a file of complete lines, and `ChunkedLastNonBlankLines` and `GetLastNonBlankLines` are proved to return it on both paths |
| Backfill.FinalNewlineIsIgnored | server.js:33 | for every file and every `count`, the corrected backfill is the same with or without one more final line feed, because the empty piece after it is never a non-blank line |
| Backfill.LastNonBlankLinesIgnoresFinalNewline | server.js:33 | filtering before slicing returns the last `count` lines whether or not the file ends with a line feed |
| Backfill.OneLineWholeFile | server.js:33 | the small-file path returns a non-blank file without a line feed as its one line |
| Backfill.CarryStep | server.js:47-49 | the chunk's pieces, with the last joined to the carried piece, followed by the pieces after the carry, are the pieces of everything read so far |
| Backfill.CarryRound | server.js:47-49 | one round of the corrected loop keeps its invariant: the new carry is the first piece of what has been read, and the gathered lines are the non-blank pieces after it |
| Backfill.CarryFinish | server.js:42-53 | when the corrected loop stops, with `count` lines gathered or the start of the file reached, its result is the last `count` non-blank lines of the file |
| Backfill.ChunkedLastNonBlankLines | server.js:36-53 | the corrected chunked loop: for every positive `count`, chunk size and file, it returns the last `count` non-blank lines of the whole file |
| Backfill.GetLastNonBlankLines | server.js:23-58 | the corrected `getLastLines`: the same result on either path, for any limit and chunk size: `[]` for an unreadable file, otherwise the last `count` non-blank lines |
| Tail.Delta | server.js:61-82 | content is read exactly when the file is readable and has grown past the start, and it is then the bytes from the start to the end with the file size as the new size; with no content the new size is the start after a read failure and the file size otherwise |
| Tail.ReadNewContent | server.js:61-82 | the three outcomes: a read failure gives empty content and `newSize = startPosition`; no growth gives empty content and `newSize = currentSize`; otherwise the result is exactly the bytes `[startPosition, currentSize)` and `newSize = currentSize`. The result is `Delta`, the function the callback's model uses |
| Tail.ReadAtCurrentSizeIsEmpty | server.js:67-70 | reading from the current size gives empty content and keeps the size |
| Tail.InitialSize | server.js:12-18 | the start-up value of `lastSize` as a definition: the size, or 0 when `statSync` throws; the constructor is proved to set it |
| Tail.ReadBy | server.js:100-101 | the bytes one notification reads as a definition: on a `change` event, the content `readNewContent` returns from `lastSize`, otherwise nothing. `HandleAppendsLines` and `RunLog` state the broadcast through it, and `ReadIsSliceOfWhole` and `RunReadsContiguous` which bytes it reads |
| Tail.Handle | server.js:100-111 | the callback on values as a definition; `OnWatch` is proved to move the state as it does, and `HandleEffect` and `HandleAppendsLines` state its properties |
| Tail.Run | server.js:98-113 | the callback applied to each notification of a run in turn; `RunLog`, `RunReadsContiguous` and `AppendOnlyBroadcast` state its properties |
| Tail.Tailer.constructor | server.js:9-18 | at start-up `lastSize` is the file's size, or 0 when `statSync` throws; nothing has been broadcast yet |
| Tail.Tailer.Emit | server.js:109 | one broadcast appends the line to the log and leaves `lastSize` as it is |
| Tail.Tailer.OnWatch | server.js:98-113 | the callback moves the state exactly as `Handle` does: on a `change` with new bytes it sets `lastSize` to the new size and broadcasts the non-blank pieces of the delta in order; otherwise nothing changes |
| Tail.HandleEffect | server.js:100-111 | `lastSize` never decreases; a `rename` event, a read failure or a file not grown past `lastSize` (including a shrunk file) changes nothing; handling the same notification twice equals handling it once |
| Tail.HandleAppendsLines | server.js:106-110 | one notification appends to the log the non-blank lines of the bytes it read, in order, and nothing else |
| Tail.RunKeepsSize | server.js:103-105 | over any run of notifications, `lastSize` never decreases |
| Tail.RunLog | server.js:98-113 | over any run of notifications, `lastSize` never decreases and the log is the starting log followed by each read's lines in turn |
| Tail.ReadIsSliceOfWhole | server.js:101-105 | for a file that only grows, one notification reads the bytes from the old `lastSize` up to the new one |
| Tail.GrowsWithinRest | server.js:98 | the condition that the file only grows holds for the rest of a run |
| Tail.RunReadsContiguous | server.js:101-105 | for an append-only file, the bytes read over a run are exactly the file bytes between the starting and final `lastSize`: none is read twice and none is skipped, however notifications coalesce or repeat |
| Tail.WholeLineAppendsEmitInOrder | server.js:106-110 | when writers append whole lines, the lines broadcast over a run are the non-blank lines of everything read, in file order |
| Tail.AppendOnlyBroadcast | server.js:12-18 | starting from the start-up `lastSize`, for an append-only file written in whole lines, the broadcast stream is exactly the non-blank lines appended after start-up, up to the final `lastSize`, in order |
| Scenarios.KeepsTwoLines | server.js:106 | two complete lines and the empty piece after the final line feed filter to the two lines |
| Scenarios.TwoLinesSplit | server.js:106 | "a\nb\n" splits into `a`, `b` and an empty piece, and its non-blank lines are `a` and `b` |
| Scenarios.TwoLinesWrittenToEmptyFile | server.js:98-113 | an empty file to which two lines are written: the live stream carries the two lines in order, and a later backfill returns the same two lines |
| Scenarios.TwoLinesBackfill | server.js:31-34 | the backfill of a small file holding two complete lines is those two lines |
| Scenarios.PartialLineIsNotRejoined | server.js:106 | "first" and then "rest\nmore\n" are broadcast as three lines, `first`, `rest` and `more`; the two parts of the first line are not rejoined |

## Left out

- Express, the HTTP server, socket.io setup, `sendFile` and `server.listen` are transport plumbing and are not modelled. The connection and disconnect handlers are left out too, including `socket.emit('lastLines', ...)`. The backfill they send is `Backfill.GetLastLines` with `DefaultCount`.
- Tail.Tailer.constructor: registering the watcher is not modelled. `fs.watch('./test.txt', ...)` (server.js:98) throws when the file does not exist, and nothing catches the error, so the server does not start. The start-up branch that sets `lastSize` to 0 (server.js:15-17) therefore gives a running tailer only if the file is created between the `statSync` at server.js:13 and the watch at server.js:98. The message at server.js:16 suggests that waiting for the file was intended. `Tail.AppendOnlyBroadcast` with a `None` start covers only that window.
- `fs.watch` delivery and timing are not modelled. Notifications are a caller-supplied sequence of (event type, snapshot) pairs, and each handling sees one snapshot of the file.
- File descriptors and `closeSync` are not modelled. A failed `openSync`, `statSync` or `readSync` is the `None` snapshot.
- Short reads are left out: `readSync` is taken to fill the requested length.
- UTF-8 decoding is left out: bytes are characters. A multi-byte character split at a chunk boundary is not modelled.
- Text.IsSpace: the whitespace set is the ASCII whitespace characters plus U+00A0, U+2028, U+2029 and U+FEFF. The other Unicode space separators that JavaScript's `trim()` removes are not in the set.
- `console.log` output is left out.
- Concurrency is left out, because Node runs the callback on a single thread.
- Backfill.ChunkedLastNonBlankLines: its agreement with the whole-file path is stated for `count >= 1` only. For `count <= 0` the loop never runs, so the corrected chunked path returns `[]` for a file of 1 MiB or more. The whole-file path returns more: `slice(-0)` keeps every non-blank line, and a negative `count` drops only the first `-count` of them.
- Backfill.GetLastNonBlankLines: stated for `count >= 1` only, because it takes the corrected chunked path for large files. The server always passes 10.
- Backfill.ChunkedAgreesWhenLastChunkSuffices: the as-written chunked path is not claimed to equal the whole-file path in general, because it does not (see "## Findings").
- Rejoining a partial last line across reads is not claimed, because the code does not do it.

## Findings

| source | as written | input that shows it | evidently intended | confidence | as-written member | corrected member |
|---|---|---|---|---|---|---|
| server.js:49 | each round of the backward loop prepends `newLines.slice(1)`, which drops the first piece of every chunk. That piece is a line cut by the chunk boundary, or the file's first line once the cursor reaches 0 | a file of 1 MiB or more with no line feed: the chunked path returns `[]`, while the whole-file path returns the line | the chunked path returns what the whole-file path returns. The first piece of a chunk is carried and joined to the end of the chunk before it, and the file's first piece is kept. The corrected loop also filters first, as in the next row, and equals the corrected whole-file path `LastNonBlankLines` | not executed | Backfill.ChunkedDropsUnterminatedLine | Backfill.ChunkedLastNonBlankLines |
| server.js:33 | `slice(-count)` runs before `filter`, so the empty piece after a final line feed takes one of the `count` slots | a file of 20 complete lines `L1\n...L20\n` with `count` 10: the backfill is L12..L20, nine lines | the last `count` non-blank lines, L11..L20 | not executed | Backfill.TrailingNewlineTakesASlot | Backfill.LastNonBlankLines |
