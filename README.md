# Chunked upload engine: a Dafny model

This project models the server side of a chunked file upload in a Laravel
application: the `FileChunkController`. A client splits a file into pieces
and posts each piece as chunk `n` of `total_chunks` for a session id.
The controller does the following:

- it validates the form;
- it stores the piece on the local disk as `temp/chunks/<session_id>/chunk_<n>`;
- once the session's directory holds exactly `total_chunks` files, it
  assembles `uploads/<filename>` on the public disk from `chunk_1` … `chunk_total`;
- after assembly it deletes the session's directory.

A progress query lists the chunk numbers stored so far. It reads them back
from the file names with the pattern `chunk_(\d+)$`.

Modules, in dependency order:

- `Wrappers`: `Option` and `Result`.
- `ChunkNaming` (`chunk_naming.dfy`): the two storage roots, `getChunkPath`,
  the destination path, chunk file names, and the regular expression that
  reads a chunk number back from a path, including PCRE's `$` matching
  before a final newline.
- `ChunkStore` (`chunk_store.dfy`): the local disk as a map from directory
  to a map from file name to bytes. It defines `put`, `deleteDirectory`,
  reading a chunk, and the bytes that assembly concatenates. It also proves
  how the count-only completion rule relates to "all chunks present".
- `RequestValidation` (`request_validation.dfy`): the rules
  `required|string|max:255` and `required|integer|min:1`. An integer is at
  most PHP's 64-bit maximum. A field that is blank after PHP's `trim` counts
  as missing.
- `UploadProgress` (`upload_progress.dfy`): these steps of `getProgress`:
  - listing the directory;
  - `map`, then `filter`, which drops non-matching names and the index 0;
  - `sort`, then `values`;
  - the report.
- `ChunkController` (`chunk_controller.dfy`): each action's effect on both
  disks as a function of the prior state (`Upload`, `Assembly`,
  `ProgressQuery`). The class `FileChunkController` holds the two disks as
  fields. Its methods `UploadChunk` and `AssembleFile` perform the same steps
  in place and are proved equal to those functions. `AssembleFile` keeps the
  source's truncate, append loop and delete, with the invariant that the
  destination holds chunks `1..i-1`. Its appends are plain concatenations:
  this is the corrected behaviour, not the bytes the storage layer's
  `append` writes. See "## Findings" and `AppendSeparator`.
- `SessionProperties` (`session_properties.dfy`): whole sessions.
  - For any arrival order of chunks `1..n` in a fresh session, every chunk
    but the last is acknowledged.
  - The last chunk publishes exactly the client's file and leaves the local
    disk as it was. These results are about the corrected assembly. As
    written, each chunk of the published file is preceded by a line feed.
  - Progress during the session lists exactly the chunks received.
  - Re-uploading a chunk replaces its content.
  - A concrete run shows that count-only completion publishes a file with a gap.
- `AppendSeparator` (`append_separator.dfy`): the storage layer's `append`
  as it behaves, which puts a line feed before each appended chunk. See
  "## Findings".

### Missing chunks are assembled as gaps

Completion only counts files. The source does not compare chunk numbers
with `total_chunks`, nor different requests' `total_chunks` with each other.
Assembly can therefore run while some `chunk_i` with `i <= total` is missing.

The code raises no error when a chunk is missing. In Laravel 12 a disk's
`get` on a missing file returns `null` when the disk's `throw` option is
off, which is the default. `append` then adds no chunk bytes. The model
follows the code:

- a missing chunk reads as no bytes (`ChunkStore.ReadChunk`);
- assembly always succeeds;
- the gap is published, and the chunks are deleted.

As written, the line feed that `append` puts first is still added for the
missing chunk (`AppendSeparator.AssembledAsWritten`).

`SessionProperties.CountOnlyCompletionPublishesGap` exhibits this.
`ChunkStore.CountMeansAllPresent` states when the count rule does imply
completeness: the directory holds only names `chunk_1` … `chunk_total`.

## Model

| member | source | states |
|---|---|---|
| ChunkNaming.ChunkPath | app/Http/Controllers/FileChunkController.php:133-136 | the text before the session id is `temp/chunks/`, and the text after it is the session id verbatim. `ChunkPathInjective` follows from this |
| ChunkNaming.FinalPath | app/Http/Controllers/FileChunkController.php:102 | the text before the file name is `uploads/`, and the text after it is the client's file name verbatim, with no sanitisation. The destination's contents are stated by `ChunkController.AssemblyEffect` |
| ChunkNaming.ChunkPathInjective | app/Http/Controllers/FileChunkController.php:133-136 | two sessions share a chunk directory only if their ids are equal |
| ChunkNaming.MatchChunkPattern | app/Http/Controllers/FileChunkController.php:72 | a match captures a non-empty digit run that ends the path, or ends just before a final newline, and is preceded by `chunk_` |
| ChunkNaming.MatchChunkPatternComplete | app/Http/Controllers/FileChunkController.php:72 | conversely, every path ending in `chunk_` + digits, with or without a final newline, matches and captures exactly those digits |
| ChunkNaming.ChunkIndexOf | app/Http/Controllers/FileChunkController.php:72-73 | a path yields an integer exactly when it matches, and the integer is the decimal value of the captured digits (null otherwise) |
| ChunkNaming.ChunkNameRoundTrip | app/Http/Controllers/FileChunkController.php:72-73 | the name `chunk_{n}` written at line 34, under any directory, parses back to n |
| ChunkNaming.StoredChunkPathParses | app/Http/Controllers/FileChunkController.php:33-36 | the full path a chunk is stored under parses back to its chunk number |
| ChunkNaming.Decimal | app/Http/Controllers/FileChunkController.php:34 | PHP's decimal form of n, as interpolated into the name: non-empty, all digits, no leading zero. `ValueOfDecimal` proves it reads back as n |
| ChunkNaming.ChunkName | app/Http/Controllers/FileChunkController.php:34 | `chunk_` followed by the decimal form of n. It is defined by its body; see `ChunkNameRoundTrip` and `ChunkNameInjective` |
| ChunkNaming.ChunkNameInjective | app/Http/Controllers/FileChunkController.php:34 | different chunk numbers are stored under different names |
| ChunkStore.FileCount | app/Http/Controllers/FileChunkController.php:91 | the number of files the directory lists, zero for a missing directory. It is defined by its body; see `PutEffect`, `DeleteEffect` and `CountMeansAllPresent` |
| ChunkStore.Put | app/Http/Controllers/FileChunkController.php:33-36 | `put` of one file. It is defined by its body; see `PutEffect`, `PutOverwrites` and the two commutation lemmas |
| ChunkStore.DeleteDirectory | app/Http/Controllers/FileChunkController.php:114 | `deleteDirectory`. It is defined by its body; see `DeleteEffect` and `SessionProperties.DeleteRestores` |
| ChunkStore.PutEffect | app/Http/Controllers/FileChunkController.php:33-36 | `put`: creates the directory if needed; stores the name with exactly the given bytes; leaves every other file and directory unchanged; adds one to the count exactly when the name is new |
| ChunkStore.DeleteEffect | app/Http/Controllers/FileChunkController.php:114 | `deleteDirectory` removes the session's directory and all its files, and nothing else |
| ChunkStore.PutOverwrites | app/Http/Controllers/FileChunkController.php:33-36 | writing a name twice equals writing only the second content, and the second write does not change the count |
| ChunkStore.PutCommutesWithinDir | app/Http/Controllers/FileChunkController.php:33-36 | writes of different chunk names into one directory commute, so arrival order does not matter to the store |
| ChunkStore.PutCommutesAcrossDirs | app/Http/Controllers/FileChunkController.php:33-36 | writes into different session directories commute |
| ChunkStore.ReadChunk | app/Http/Controllers/FileChunkController.php:109 | a stored `chunk_i` reads as its bytes, and a missing one reads as no bytes. The consequences for assembly are `ConcatSkipsMissing` and `SessionProperties.GapConcat` |
| ChunkStore.Concat | app/Http/Controllers/FileChunkController.php:108-111 | what the loop reads for chunk_1 … chunk_k, joined in ascending order with no separator: the corrected append. It is defined by its body; see `ConcatSize`, `ConcatSkipsMissing` and `SessionProperties.StoredAssembles` |
| ChunkStore.ConcatSize | app/Http/Controllers/FileChunkController.php:108-111 | the bytes appended for chunks 1..k are as many as the chunks hold together |
| ChunkStore.ConcatDependsOnlyOnChunks | app/Http/Controllers/FileChunkController.php:108-111 | assembly reads only `chunk_1` … `chunk_k`: two directories that agree on those give the same bytes |
| ChunkStore.ConcatIgnoresOtherFiles | app/Http/Controllers/FileChunkController.php:108-111 | a file that is not one of `chunk_1` … `chunk_k` does not affect the assembled bytes |
| ChunkStore.ConcatSkipsMissing | app/Http/Controllers/FileChunkController.php:108-111 | a missing chunk m leaves a gap: the bytes are those of chunks before m followed by those after it |
| ChunkStore.CountMeansAllPresent | app/Http/Controllers/FileChunkController.php:88-94 | if a directory holds only names `chunk_1` … `chunk_total`, the count equals total if and only if every chunk 1..total is present |
| ChunkStore.CountWithoutAllPresent | app/Http/Controllers/FileChunkController.php:88-94 | the count rule alone is weaker: `chunk_2`, `chunk_3`, `chunk_5` count as three files while chunk 1 is missing |
| RequestValidation.ValidateChunk | app/Http/Controllers/FileChunkController.php:19-25 | acceptance happens exactly when all five rules pass, and the values are the request's own. Otherwise the error lists exactly the failing fields and is never empty |
| RequestValidation.ValidateProgress | app/Http/Controllers/FileChunkController.php:55-57 | acceptance happens exactly when `session_id` passes the rules `required`, `string` and `max:255`; otherwise only that field is reported |
| UploadProgress.ListFiles | app/Http/Controllers/FileChunkController.php:69 | the listing names every file of the directory exactly once and nothing else |
| UploadProgress.IndexOfListed | app/Http/Controllers/FileChunkController.php:71-75 | the integer one listed path contributes: its captured digits cast to an integer, dropped when the path does not match or the value is 0. It is defined by its body; see `ChunkIndices` and `ProgressOfChunkFiles` |
| UploadProgress.ChunkIndices | app/Http/Controllers/FileChunkController.php:70-75 | the `map` and `filter` steps, in listing order: k is kept if and only if some listed path yields k through `IndexOfListed`. There is at most one integer per listed file, and every kept integer is at least 1 |
| UploadProgress.ChunkIndicesPermutation | app/Http/Controllers/FileChunkController.php:70-75 | two listings of the same names, in any order, yield the same multiset of integers |
| UploadProgress.Sort | app/Http/Controllers/FileChunkController.php:76 | `sort` returns an ascending permutation of its input, strictly ascending when the input has no duplicates |
| UploadProgress.SortedUnique | app/Http/Controllers/FileChunkController.php:76-77 | two ascending orderings of the same multiset are the same sequence, so the sorted list is determined |
| UploadProgress.Progress | app/Http/Controllers/FileChunkController.php:59-82 | with no session directory the report is `[]` and 0. Otherwise it holds the integers read from the names, ascending, each at least 1, and the total equals the list's length |
| UploadProgress.ProgressIndependentOfListing | app/Http/Controllers/FileChunkController.php:69-77 | whatever order the disk lists the files in, the report is the same |
| UploadProgress.ChunkFilesIndices | app/Http/Controllers/FileChunkController.php:69-75 | for a directory that holds only `chunk_<k>` files with k at least 1: one integer per file, all different, and k is found if and only if `chunk_k` is stored |
| UploadProgress.ProgressOfChunkFiles | app/Http/Controllers/FileChunkController.php:69-82 | for a directory written only by uploads, k is listed if and only if `chunk_k` is stored. Each number appears once, ascending, and the total counts every file |
| ChunkController.Assembly | app/Http/Controllers/FileChunkController.php:99-127 | assembly's effect on both disks and its answer, with the corrected append. It is defined by its body; see `AssemblyEffect` and `FileChunkController.AssembleFile` |
| ChunkController.Upload | app/Http/Controllers/FileChunkController.php:17-47 | an upload's effect on both disks and its answer. It is defined by its body; see `UploadEffect` and `FileChunkController.UploadChunk` |
| ChunkController.AssemblyEffect | app/Http/Controllers/FileChunkController.php:99-127 | assembly: the destination, and no other public path, becomes chunks 1..total concatenated in ascending order; the session directory is gone and other directories are unchanged; the answer carries the URL and the chunks' total size |
| ChunkController.UploadEffect | app/Http/Controllers/FileChunkController.php:17-47 | an invalid upload is rejected with exactly its failing fields and changes nothing. A valid one always stores its chunk. It is acknowledged with its chunk number exactly when the file count then differs from `total_chunks`; otherwise the outcome is assembly's |
| ChunkController.ProgressQuery | app/Http/Controllers/FileChunkController.php:53-83 | rejection happens exactly when `session_id` fails its rule. Otherwise the answer is the session's progress report, and `[]`, 0 when the session has no directory |
| ChunkController.FileChunkController.HasAllChunks | app/Http/Controllers/FileChunkController.php:88-94 | true exactly when the listing of the session's directory has `expectedTotal` entries |
| ChunkController.FileChunkController.AssembleFile | app/Http/Controllers/FileChunkController.php:99-127 | the method's truncate, append loop and delete leave the two disks and the answer exactly as `Assembly` gives them |
| ChunkController.FileChunkController.UploadChunk | app/Http/Controllers/FileChunkController.php:17-47 | the method leaves the two disks and the answer exactly as `Upload` gives them |
| ChunkController.FileChunkController.GetProgress | app/Http/Controllers/FileChunkController.php:53-83 | reads only. Rejection happens exactly when `session_id` fails its rule; otherwise the answer is the current local disk's progress report |
| SessionProperties.UploadAcknowledged | app/Http/Controllers/FileChunkController.php:38-47 | a valid upload that leaves the count short of (or past) `total_chunks` stores the chunk, keeps the public disk, and answers with its chunk number |
| SessionProperties.UploadCompletes | app/Http/Controllers/FileChunkController.php:38-41 | a valid upload that brings the count to `total_chunks` stores the chunk and then runs assembly with the request's file name and total |
| SessionProperties.StoredContent | app/Http/Controllers/FileChunkController.php:33-36 | after chunks arrive in some order, `chunk_k` exists exactly when k arrived, and it holds piece k |
| SessionProperties.StoredSize | app/Http/Controllers/FileChunkController.php:91 | distinct chunk numbers leave as many files as chunks received |
| SessionProperties.StoredAssembles | app/Http/Controllers/FileChunkController.php:108-111 | once all of 1..n have arrived, in any order, concatenating chunks 1..n gives back the client's file |
| SessionProperties.DeleteRestores | app/Http/Controllers/FileChunkController.php:114 | if the session directory was absent before and only it changed, deleting it restores the local disk exactly |
| SessionProperties.UploadsBeforeLast | app/Http/Controllers/FileChunkController.php:43-47 | in a fresh session, each of the first n-1 arrivals is acknowledged in turn. Only the session directory changes, it holds exactly the pieces received, and the public disk is untouched |
| SessionProperties.AnyArrivalOrderAssembles | app/Http/Controllers/FileChunkController.php:17-127 | for every arrival order of chunks 1..n of a fresh session: n-1 acknowledgements, then one answer carrying the URL and the file's size. The destination then holds exactly the client's file, nothing else on the public disk changes, and the local disk is as it was |
| SessionProperties.SessionLeavesNoProgress | app/Http/Controllers/FileChunkController.php:62-67 | after a complete session, progress for it is `[]` and 0 |
| SessionProperties.ProgressWhileUploading | app/Http/Controllers/FileChunkController.php:69-82 | part-way through a fresh session, progress lists exactly the chunk numbers received so far, each once, ascending, and the total is their number |
| SessionProperties.ReuploadReplaces | app/Http/Controllers/FileChunkController.php:33-36 | re-sending an acknowledged chunk has the outcome it would have had if the first copy had never been sent, and the file count does not grow |
| SessionProperties.ProgressEmptyAfterAssembly | app/Http/Controllers/FileChunkController.php:114 | after an upload that assembled, a progress query for that session answers `[]` and 0 |
| SessionProperties.GapDirectory | app/Http/Controllers/FileChunkController.php:33-36 | uploading chunks 5, 2, 3 into a fresh session gives counts 1, 2, 3 and a directory of exactly those three files |
| SessionProperties.GapConcat | app/Http/Controllers/FileChunkController.php:108-111 | assembling chunks 2, 3, 5 for a total of three yields chunk 2's bytes then chunk 3's |
| SessionProperties.CountOnlyCompletionPublishesGap | app/Http/Controllers/FileChunkController.php:88-94 | chunks 5, 2, 3 of a declared three-chunk file are all accepted and the third assembles. The published file is chunk 2 then chunk 3, with no chunk 1; chunk 5 is deleted unread and the local disk is restored |
| AppendSeparator.Append | app/Http/Controllers/FileChunkController.php:110 | `append` keeps every other file. An existing file becomes its old content, then the line feed `PHP_EOL`, then the data; a missing one is created holding exactly the data |
| AppendSeparator.AppendChunks | app/Http/Controllers/FileChunkController.php:105-111 | the public disk after `put(final, '')` and the appends of chunk_1 … chunk_k, as the storage layer performs them. It is defined by its body; see `AppendChunksWrites` |
| AppendSeparator.AssembledAsWritten | app/Http/Controllers/FileChunkController.php:105-111 | the destination's bytes as written: each chunk preceded by a line feed. It is defined by its body; see `AsWrittenSize` and `AsWrittenIsNotConcat` |
| AppendSeparator.AppendChunksWrites | app/Http/Controllers/FileChunkController.php:104-111 | the truncate-and-append loop, as the storage layer performs it, leaves the destination holding each chunk preceded by a line feed, and changes no other file |
| AppendSeparator.AsWrittenSize | app/Http/Controllers/FileChunkController.php:122-127 | the file as written, and so the reported size, is one byte per chunk longer than the chunks together |
| AppendSeparator.AsWrittenIsNotConcat | app/Http/Controllers/FileChunkController.php:104-111 | for at least one chunk, the file as written differs from the chunks' concatenation |
| AppendSeparator.OneChunkAsWritten | app/Http/Controllers/FileChunkController.php:104-111 | a single chunk holding `A` is published as a line feed followed by `A` |

## Left out

- ChunkController.Assembly: writes the destination as the plain
  concatenation of the chunks, the corrected behaviour. The storage layer's
  `append` puts a line feed before each chunk; those bytes are modelled
  separately by `AppendSeparator.AppendChunks` (see "## Findings").
- ChunkController.FileChunkController.AssembleFile: its loop appends by plain
  concatenation, so it is proved equal to the corrected `Assembly`, not to
  the bytes the code writes. The same holds for every theorem of
  `SessionProperties` that names the published file.
- Reading a missing chunk as no bytes assumes that the local disk's `throw`
  option is off, Laravel 12's default. `config/filesystems.php` is not part
  of this model. With `throw` on, assembly would fail after truncating the
  destination, and the chunks would be kept.

- Logging (`Log::info`), HTTP routing and the encoding of JSON responses
  are left out. The model's responses carry the fields' values, not the
  fixed `success` and `message` texts.
- Reading the uploaded file (`file_get_contents`) is left out. A request
  carries the chunk's bytes directly, and the `file` rule is modelled as
  "a file is present".
- `Storage::url` is a parameter of the model (`url`), an arbitrary function
  of the destination path.
- Storage failures (disk full, permissions) are left out: every `put`,
  `append` and `deleteDirectory` succeeds. Storage is a pair of maps, with
  no nested directories under a session's directory.
- Path normalisation is left out. A session id or file name containing `/`
  or `..` is kept as a verbatim string, so it may denote another directory
  on a real disk.
- Requests are handled one at a time. Concurrent uploads of the last
  chunks, and the races between them, are left out.
- `ChunkNaming.ChunkIndexOf`: digit runs beyond PHP's integer range are read
  as their exact value. PHP's `(int)` cast would saturate them.
- `RequestValidation.ValidateChunk`: the integers arrive already parsed.
  The source stores `chunk_{$chunkNumber}` from the validated raw text, so
  a value like `+5` would be stored as `chunk_+5`. The model stores it as
  `chunk_5`.
- The framework's string-trimming middleware runs before validation. The
  model takes the values as they reach the controller.
- `UploadProgress.Progress` and `ChunkController.FileChunkController.GetProgress`
  are ghost. The order in which the disk lists a directory is not
  determined by the source. `UploadProgress.ProgressIndependentOfListing`
  shows that the report does not depend on it.

## Findings

| source | as written | input that shows it | evidently intended | confidence | as-written member | corrected member |
|---|---|---|---|---|---|---|
| app/Http/Controllers/FileChunkController.php:105-111 | the destination is created with `put('')`, then each chunk is added with `append`. Laravel's `append` writes a `PHP_EOL` separator between the existing content and the new data, so each chunk is preceded by a line feed | one chunk holding `A`: the published file is a line feed then `A`, two bytes. The chunks `A`, `B` give `\nA\nB` instead of `AB` | the destination is the chunks' plain concatenation in ascending order. The client cuts the file into contiguous `slice` pieces (resources/views/upload.blade.php:105-107), so their concatenation is the file it sent | not executed; relies on the framework's default `append` separator | AppendSeparator.AppendChunksWrites, AppendSeparator.AsWrittenIsNotConcat, AppendSeparator.OneChunkAsWritten | ChunkStore.Concat with ChunkStore.ConcatSize and SessionProperties.StoredAssembles; used by ChunkController.Assembly |
