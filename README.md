# Log tail service, modelled in Dafny

The log agent serves the last lines of a log file. `LogService.tailLog` reads the
file backward in fixed-size chunks, starting at its end. Without a keyword it
returns the last `n` non-blank lines. With a keyword it returns the newest `n`
lines that hold the keyword, ignoring case. Both come newest first.

The project models that service in four modules:

- `Seqs` (seqs.dfy): the array operations the service uses and their algebra.
  `Reverse`, `Filter` and `LastN` are `reverse`, `filter` and `slice(-n)`.
  `Take` is the closed form of the bounded collection: the service pushes
  matching lines only while fewer than `n` have been collected.
- `Lines` (lines.dfy): the string operations:
  - `split(/[\r\n]+/)` as `SplitRuns`;
  - `trim() !== ""` as `NonBlank`;
  - `toLowerCase().includes(...)` as `Matches`.

  It also holds the lemmas about splitting a text that was read in two parts.
- `TailSpec` (tailspec.dfy): the result stated on the whole file at once. The
  chunked scans are proved against it:
  - `LastLines` is the unfiltered result;
  - `MatchingLines` is the filtered result;
  - `Tail` is the dispatch between them.
- `LogService` (logservice.dfy): the four operations.
  - `TailLog` applies the default count and dispatches.
  - `TailLogNoFilter` and `GrepLinesFromEnd` are the two `while` loops. Each keeps
    the chunk state as local variables, and its loop invariants relate that
    state to the suffix of the file that has been read.
  - `ReadFileChunk` is the positioned read.

  Each loop method is proved equal to its reference function for every chunk
  size. So the chunk size only affects performance (`ChunkSizeIrrelevant`).
  The source uses `DEFAULT_BUFFER_CHUNK_SIZE_BYTES` both as the read size and
  as the step of the cursor; the model passes it as one parameter,
  `chunkSize`. The source's tests set it to 10.

`Scenarios` (scenarios.dfy) states and proves the results of the operations on
small files, with chunks small enough to cut a `\r\n` run in two.

The file is modelled by its contents, a string whose characters stand for
bytes. The path, the `stat`, `open`, `read` and `close` calls, and the decoding
are replaced by slicing that string.

**Two results of the proofs.**

1. Joining a chunk to the fragment carried from the chunk after it does not
   always give exactly the pieces of the whole text. When a run of terminators
   is cut by a chunk boundary, the join gives one extra empty piece. For
   example, `x\n\ny` cut between the two `\n` gives the chunk `x\n` and the
   fragment `""`, and `x\n` splits into `x` and an empty piece. A non-empty
   keyword never matches the empty string, so the filtered result is
   unaffected (`Lines.StitchRest`, `TailSpec.GrepStitch`).
2. The unfiltered loop stops once it has read more than `n` non-blank lines.
   This is safe because the only line that earlier bytes can still extend is
   the first one read. That line is not among the last `n`
   (`TailSpec.TailWindow`).

**The filtered path does not drop blank lines.** It returns any non-empty line
that holds the keyword, so a keyword of white space returns lines made only of
white space. `TailSpec.MatchingLinesSound` states "non-empty", not "non-blank".

## Model

| member | source | states |
|---|---|---|
| LogService.DefaultTailEntries | src/api/v1/configs/logConfig.ts:11 | the count used when none is given: 10 |
| LogService.DefaultChunkSize | src/api/v1/configs/logConfig.ts:9 | the read size and cursor step: 1024 bytes |
| TailSpec.NonBlankLines | src/api/v1/services/logService.ts:91-93 | the reference for the unfiltered path: the file's pieces with the blank ones dropped, oldest first; pinned by `TailSpec.LastLinesFromFile` and `Seqs.FilterMember` |
| TailSpec.LastLines | src/api/v1/services/logService.ts:91-95 | the reference result without a keyword: the last `n` non-blank lines, newest first; its shape is stated by `TailSpec.LastLinesShape` |
| TailSpec.MatchingNewestFirst | src/api/v1/services/logService.ts:26-29 | all lines of the file that hold the keyword, newest first; split by `TailSpec.NewestFirstSplit` |
| TailSpec.MatchingLines | src/api/v1/services/logService.ts:26-29 | the reference result with a keyword: the newest `n` matching lines; stated by `TailSpec.MatchingLinesSound` and `TailSpec.MatchingLinesComplete` |
| TailSpec.Tail | src/api/v1/services/logService.ts:26-29 | the reference for the whole operation: nothing for `n <= 0`, `MatchingLines` for a non-empty keyword, `LastLines` otherwise |
| LogService.TailLog | src/api/v1/services/logService.ts:40-56 | the result is `Tail(file, n, keyword)` after the default count is applied: empty for `n <= 0`, the filtered tail for a non-empty keyword, the plain tail otherwise; never more than `n` lines |
| LogService.RequestedLines | src/api/v1/services/logService.ts:41 | an absent count becomes `DEFAULT_TAIL_ENTRIES` (10); a given count is kept as it is |
| LogService.EffectiveKeyword | src/api/v1/services/logService.ts:53-55 | the filtered path is taken exactly when a keyword is present and non-empty (JavaScript truthiness), and then that keyword is used |
| LogService.TailLogNoFilter | src/api/v1/services/logService.ts:58-100 | for every chunk size, the backward loop with its early break returns exactly the last `n` non-blank lines of the whole file, newest first |
| LogService.GrepLinesFromEnd | src/api/v1/services/logService.ts:102-155 | for every chunk size, the backward loop with fragment stitching and the final fragment test returns exactly the newest `n` lines of the whole file that hold the keyword |
| LogService.CollectMatching | src/api/v1/services/logService.ts:131-138 | pushing each candidate that holds the keyword while fewer than `n` are collected gives the first `n` of the earlier lines followed by the matching candidates |
| LogService.ReadFileChunk | src/api/v1/services/logService.ts:157-174 | the read returns the `min(chunkSize, position)` bytes that end at `position`: never empty, never anything before offset 0 |
| LogService.ChunkSizeIrrelevant | src/api/v1/services/logService.ts:40-56 | any two positive chunk sizes give the same result |
| Lines.SplitRuns | src/api/v1/services/logService.ts:78 | splitting always yields at least one piece; for a non-empty text, the first piece is empty exactly when the text starts with `\r` or `\n` (`""` splits into `[""]`) |
| Lines.SplitRunsPieces | src/api/v1/services/logService.ts:92 | no piece holds a terminator, the pieces between the first and the last are never empty, and the first piece is a prefix of the text |
| Lines.SplitRunsRejoin | src/api/v1/services/logService.ts:127 | the pieces, put back together with non-empty separators made only of `\r`/`\n`, give back the text exactly |
| Lines.SplitTerminatorFree | src/api/v1/services/logService.ts:127 | a text without terminators splits into itself alone |
| Lines.Head | src/api/v1/services/logService.ts:128 | the fragment that is carried back is the prefix of the text before its first terminator |
| Lines.HeadEndsAtTerminator | src/api/v1/services/logService.ts:128 | when the first piece is shorter than the text, the next character is a terminator |
| Lines.ConsNonTerminator | src/api/v1/services/logService.ts:125-128 | a non-terminator in front joins the first piece and leaves the other pieces alone |
| Lines.ConsTerminator | src/api/v1/services/logService.ts:125-128 | a terminator in front makes the first piece empty; the old first piece either was empty already (the run widens) or becomes a piece of its own |
| Lines.ConsTerminatorSuffix | src/api/v1/services/logService.ts:125-128 | adding a terminator in front only adds pieces at the front |
| Lines.RestSuffix | src/api/v1/services/logService.ts:72-82 | whatever comes before `b`, the pieces of `b` after its first piece are the last pieces of `a + b` |
| Lines.StitchHead | src/api/v1/services/logService.ts:125-128 | the first piece of `a + b` is the first piece of `a` joined to the fragment of `b` |
| Lines.StitchRest | src/api/v1/services/logService.ts:125-131 | the other pieces of `a + b` are those of `a` joined to `b`'s fragment followed by `b`'s other pieces, up to empty pieces |
| Lines.Rest | src/api/v1/services/logService.ts:127-128 | the pieces left after `shift()` removes the first; `SplitRuns(s) == [Head(s)] + Rest(s)` is used by every lemma about the scan |
| Lines.TrimStart | src/api/v1/services/logService.ts:78 | drops leading white space; pinned by `Lines.TrimStartDrops` |
| Lines.TrimEnd | src/api/v1/services/logService.ts:78 | drops trailing white space; pinned by `Lines.TrimEndDrops` |
| Lines.Trim | src/api/v1/services/logService.ts:78 | `trim()`: both ends; `Lines.TrimEmptyIffBlank` says when it is empty |
| Lines.NonBlank | src/api/v1/services/logService.ts:78-79 | the filter test `line.trim() !== ""`; by `Lines.TrimEmptyIffBlank` it holds exactly when some character is not white space |
| Lines.TrimStartDrops | src/api/v1/services/logService.ts:78 | `trimStart` drops the longest prefix of white space and nothing more |
| Lines.TrimEndDrops | src/api/v1/services/logService.ts:78 | `trimEnd` drops the longest suffix of white space and nothing more |
| Lines.TrimEndEmpty | src/api/v1/services/logService.ts:78 | `trimEnd` gives the empty string exactly when the line is all white space |
| Lines.TrimEmptyIffBlank | src/api/v1/services/logService.ts:78-79 | `line.trim() === ""` exactly when every character of the line is white space, so the blank filter drops exactly those lines |
| Lines.LowerChar | src/api/v1/services/logService.ts:133 | `A`-`Z` map to `a`-`z`; nothing else changes |
| Lines.Lower | src/api/v1/services/logService.ts:133 | lower-casing keeps the length and maps each character on its own |
| Lines.LowerIdempotent | src/api/v1/services/logService.ts:133 | lower-casing twice is lower-casing once |
| Lines.Contains | src/api/v1/services/logService.ts:133 | `includes`, by recursion on the text; `Lines.ContainsIff` pins it to an occurrence at some position |
| Lines.Matches | src/api/v1/services/logService.ts:133 | the keyword test `line.toLowerCase().includes(keyword.toLowerCase())`, used both in the scan and for the final fragment (line 143); `Lines.MatchesIgnoresCase` and `Lines.VerbatimMatches` state its properties |
| Lines.ContainsOccurs | src/api/v1/services/logService.ts:133 | `includes` finds a position where the keyword occurs |
| Lines.OccursContains | src/api/v1/services/logService.ts:133 | an occurrence at any position makes `includes` true |
| Lines.ContainsIff | src/api/v1/services/logService.ts:133 | `includes` is true exactly when the keyword occurs at some position |
| Lines.EmptyNeverMatches | src/api/v1/services/logService.ts:133 | a non-empty keyword never matches the empty line |
| Lines.MatchesIgnoresCase | src/api/v1/services/logService.ts:133 | the match ignores the case of both the line and the keyword |
| Lines.VerbatimMatches | src/api/v1/services/logService.ts:133 | a line that holds the keyword exactly as written matches |
| TailSpec.LastLinesShape | src/api/v1/services/logService.ts:90-95 | the unfiltered tail has `min(n, L)` entries for `L` non-blank lines; entry `i` is the `i`-th non-blank line from the end; no entry is blank |
| TailSpec.LastLinesFromFile | src/api/v1/services/logService.ts:90-95 | every line of the unfiltered tail is a non-blank line of the file |
| TailSpec.LastLinesAll | src/api/v1/services/logService.ts:95 | asking for at least as many lines as there are returns all non-blank lines, newest first |
| TailSpec.FirstLineKept | src/api/v1/services/logService.ts:72-95 | the first line of the file, when non-blank, comes last when every line fits |
| TailSpec.MatchingLinesSound | src/api/v1/services/logService.ts:119-147 | the filtered tail has at most `n` lines; each one holds the keyword and is non-empty; in newest-first order they form a prefix of all matching lines |
| TailSpec.MatchingLinesFromFile | src/api/v1/services/logService.ts:131-147 | every line of the filtered tail is a line of the file and holds the keyword |
| TailSpec.MatchingLinesComplete | src/api/v1/services/logService.ts:119-147 | when fewer than `n` come back, no matching line of the file was left out |
| TailSpec.FirstLineMatched | src/api/v1/services/logService.ts:141-147 | the first line of the file, when it matches and every match fits, comes last |
| TailSpec.NewestFirstSplit | src/api/v1/services/logService.ts:131-147 | the matching lines, newest first, are those after the first piece followed by the first piece |
| TailSpec.MatchingIgnoresEmpty | src/api/v1/services/logService.ts:133 | for a non-empty keyword, dropping empty pieces does not change the matching lines |
| TailSpec.GrepStitch | src/api/v1/services/logService.ts:124-138 | one stitch step: the matching lines of `a + b` are those of `b`, then those of `a` joined to `b`'s fragment |
| TailSpec.GrepWindow | src/api/v1/services/logService.ts:119 | once `n` matching lines have been read, the unread part of the file cannot change the newest `n` |
| TailSpec.TailWindow | src/api/v1/services/logService.ts:77-82 | once the read suffix holds more than `n` non-blank lines, the earlier text cannot change the last `n` |
| TailSpec.GrepScanStep | src/api/v1/services/logService.ts:120-138 | one loop iteration keeps the loop invariant: the new fragment is the first piece of the longer suffix, and the collected lines are its first `n` matches |
| TailSpec.GrepFinish | src/api/v1/services/logService.ts:141-147 | after the loop, testing the fragment completes the newest `n` matching lines of the file |
| TailSpec.TailFinish | src/api/v1/services/logService.ts:88-95 | after the loop, the last `n` non-blank lines of what was read are those of the file |
| Seqs.Reverse | src/api/v1/services/logService.ts:95 | `reverse` keeps the length and puts entry `i` at `length - 1 - i` |
| Seqs.Filter | src/api/v1/services/logService.ts:78 | `filter` keeps only entries that pass, and never more than there were |
| Seqs.FilterSingleton | src/api/v1/services/logService.ts:78 | on one element, `filter` keeps it exactly when it passes; with `Seqs.FilterConcat` this fixes the result and its order |
| Seqs.FilterConcat | src/api/v1/services/logService.ts:78 | filtering a concatenation filters each part and keeps them in order |
| Seqs.FilterMultiset | src/api/v1/services/logService.ts:78 | no entry comes out more often than it goes in |
| Seqs.FilterMember | src/api/v1/services/logService.ts:78 | an entry is in the result exactly when it is in the input and passes |
| Seqs.FilterKeeps | src/api/v1/services/logService.ts:93 | every entry that passes is kept |
| Seqs.Take | src/api/v1/services/logService.ts:134-136 | the closed form of pushing while fewer than `n` are collected: the first `min(n, L)` entries, a prefix |
| Seqs.LastN | src/api/v1/services/logService.ts:95 | `slice(-n)` for `n > 0`: the last `min(n, L)` entries, a suffix |
| Scenarios.MatchCrlf | tests/apiLogs.test.ts:68-84 | a small analogue of that test's property (every returned line matches the keyword, ignoring case): on `ab\r\ncd` the keyword `B` selects `ab` only |
| Scenarios.GrepAcrossCrlfBoundary | tests/apiLogs.test.ts:14-18 | a small analogue of that test setup's small chunks, which clip text at chunk boundaries: with 3-byte chunks, which cut the `\r\n` run in two, the filtered tail of `ab\r\ncd` for `B` is `["ab"]` |
| Scenarios.SplitWithBlankLine | src/api/v1/services/logService.ts:92 | `a\n \r\nb` splits into `a`, a line of one space, and `b` |
| Scenarios.NonBlankWithBlankLine | tests/apiLogs.test.ts:86-101 | a small analogue of that test's property (no blank line comes back): the line of spaces is not among the non-blank lines |
| Scenarios.TailSkipsBlankLine | tests/apiLogs.test.ts:86-101 | a small analogue of that test's property (no blank line comes back): with 2-byte chunks and the default count, the tail of `a\n \r\nb` is `["b", "a"]`, without the blank line |
| Scenarios.ZeroCount | src/api/v1/services/logService.ts:43-46 | a count of 0 returns nothing, even with a keyword |

## Left out

- File I/O (`fs.promises.stat`, `open`, `read`, `close`): the file is its contents, a string. A read at a position is a slice of that string, and the file size is its length.
- The `catch` blocks and `console.error`: with the file as a value no operation can fail, so the error path that returns `[]` is not modelled.
- `bytesRead` smaller than the requested size: it happens only when the file changes during the read. This model has no concurrent writers, so a read returns every byte it asks for.
- Decoding: characters stand for single bytes. The UTF-8 decoding of each chunk is not modelled, and neither is a multi-byte character cut by a chunk boundary.
- `Lines.Lower`: models `toLowerCase` on ASCII letters only. `Lines.IsWhitespace` models `trim` for space, tab, `\n`, `\r`, vertical tab and form feed only, not the other Unicode white space.
- `async`/`await`: each operation is modelled as running to completion; interleavings with other requests are not modelled.
- A count `n` that is not an integer, such as `2.5` or `NaN`: `n` is modelled as an `int`.
- LogService.TailLogNoFilter: requires `0 < n`. Its only caller, `tailLog`, returns early otherwise. On its own, with `n == 0`, `slice(-0)` would return every line.
- LogService.GrepLinesFromEnd: requires `0 < n` and a non-empty keyword, which `tailLog` guarantees by its early return and by the truthiness test.
- LogService.ReadFileChunk: requires `0 < position` and `0 < chunkSize`. Both loops call it only while `position > 0`, and the chunk size is the positive constant `DEFAULT_BUFFER_CHUNK_SIZE_BYTES`.
- The controller, the route, the logger, the HTTP status codes and the Jest configuration are not part of this model. The model covers the service these call.
