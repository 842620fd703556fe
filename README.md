# Chunked video upload and `.env` template sync, in Dafny

A model of two parts of a video upload service. Both are proved against their specifications.

**The `/upload-chunk` endpoint of `server/server.js`.** A client splits a file into chunks and posts
them one at a time. Each request carries the chunk's bytes and four body fields: `chunkIndex`,
`totalChunks`, `uniqueId` (the upload session) and `originalName`. For each request the server
does the following:
- it validates the request;
- it writes the chunk to `uploads/<uniqueId>/chunk_<chunkIndex>`;
- for index 0, it records the original name and extension in `metadata/<uniqueId>.json`;
- when the declared index is `totalChunks - 1`, it reassembles the file.

Reassembly is meant to work as follows (line 79 as written stops it before the first chunk; see
"## Findings"):
- it appends `chunk_0`, `chunk_1`, … in ascending order to `final-uploads/<stem>-<16 hex digits><ext>`;
- it fails at the first missing chunk;
- on success it deletes the session's chunks and starts three ffmpeg transcodes (480p, 720p, 1080p) into `transcoded/`.

**`maintainance-script/sync-env.js`.** It derives `.env.example` from `.env`. Blank and comment
lines are kept, and every other line is reduced to `KEY=`.

Modules:

| file | module | what it holds |
|---|---|---|
| Wrappers.dfy | `Wrappers` | `Option`, `Result` |
| PathNames.dfy | `PathNames` | `path.extname` and `path.basename(p, ext)` for POSIX paths |
| Decimal.dfy | `Decimal` | `parseInt` on digit strings, and the numeral `${i}` writes |
| Naming.dfy | `Naming` | `generateUniqueFileName` and the artifact path |
| Transcode.dfy | `Transcode` | the profile list, output names and ffmpeg command lines |
| ChunkStore.dfy | `ChunkStore` | the temporary chunk files as a map, and the reassembly loop as the function `Assemble` |
| UploadHandler.dfy | `UploadHandler` | the handler as a pure step function `Step` on a `ServerState`, and whole-upload theorems |
| UploadServer.dfy | `UploadServer` | `class Server`, whose fields are the on-disk state and the launched jobs |
| ReassemblyAsWritten.dfy | `ReassemblyAsWritten` | the handler with `createWriteStream` called as line 79 writes it |
| SyncEnv.dfy | `SyncEnv` | the `.env` → `.env.example` transform |

The handler and `reassembleChunks` change state step by step. `UploadServer.Server` keeps that state
in fields, and its methods update them in place. `ReassembleChunks` is the source's `for` loop: it
appends chunk by chunk, with `Assemble` as its loop invariant. Each method's postcondition ties the new
state to the pure specification in `UploadHandler` (`Step`, `Reassembled`), and the theorems are
proved about that specification. Name generation, output names and the `.env` transform are pure
expressions in the source, so they are pure functions here.

The byte contents of a request are a value, and so is the random suffix. Chunk files are keyed by
the `chunkIndex` text exactly as sent. Reassembly reads the canonical numerals `chunk_0`, `chunk_1`, …, so
a chunk sent as `"01"` is stored but never read (`ChunkStore.AssembleIgnoresNonCanonicalIndex`). A chunk
sent as `"00"` parses as index 0, so it overwrites the upload's metadata like chunk 0 does
(`UploadHandler.MetadataOnIndexZero`), but its bytes lie in `chunk_00`, which reassembly never reads
(`ChunkStore.DoubleZeroIndexIgnored`).

### Behaviour a client might not expect

The model follows the code in each case below.

- **Metadata for index 0.** It is written again on every delivery of index 0, so the last delivery
  wins; a "first write wins" policy would keep the first record. See `UploadHandler.MetadataOnIndexZero`.
- **Completion trigger.** Completion happens only when the declared last index arrives. If chunk
  `n-1` arrives before the others, reassembly runs at once, fails and answers 500. The missing
  chunks are then acknowledged, but nothing completes the upload until chunk `n-1` is sent again.
  A client that sends chunk 1 of two first, then chunk 0, might expect completion when chunk 0
  arrives; it gets none. See
  `UploadHandler.LastChunkArrivesFirst` and `UploadServer.UploadTwoChunksLastFirst`.
- **Reassembly failure.** A failed reassembly is reported to the same request as a 500, not after
  the response.
- **Resending the last chunk after completion.** One upload does not always yield exactly one artifact.
  - With two or more chunks, the resend fails, because the session's other chunks are gone; no
    second artifact appears (`UploadHandler.RetryAfterCompletionFails`).
  - With a one-chunk upload, the resend completes a second time and writes a second artifact
    under a new name (`UploadHandler.RetryAfterCompletionOneChunk`).

## Model

| member | source | states |
|---|---|---|
| PathNames.Extname | server/server.js:98 | `path.extname`: empty, or a '.' with no further '.' or '/', strictly shorter than the final segment and a suffix of it |
| PathNames.ExtnameEmptyIff | server/server.js:98 | the extension is empty exactly when the final segment is ".." or has no '.' past its first character |
| PathNames.Stem | server/server.js:99 | `path.basename(p, ext)`: holds no '/', and the final segment is the stem followed by the extension |
| PathNames.FinalSegment | server/server.js:99 | the part after the last '/': holds no '/', is a suffix of the path, and is preceded by a '/' unless it is the whole path |
| PathNames.FinalSegmentUnderDirectory | server/server.js:115-116 | prefixing a directory ending in '/' does not change the final segment |
| PathNames.ExtnameUnderDirectory | server/server.js:115 | the artifact's extension and stem do not depend on the `final-uploads/` prefix |
| PathNames.ExtnameOfParts | server/server.js:98-99 | a '/'-free `stem + ext`, with a non-empty `stem`, `ext` a '.' and no other '.', and the name not "..", has extension `ext` and stem `stem` |
| PathNames.ExtnameOfPlainName | server/server.js:98 | a '/'-free name with no '.' past its first character has no extension and is its own stem |
| Decimal.ParseInt | server/server.js:52 | `parseInt` yields a number exactly when the text is a non-empty digit string |
| Decimal.ToDecimal | server/server.js:82 | the numeral `${i}` is a digit string |
| Decimal.ParseToDecimal | server/server.js:82 | `parseInt` reads back `${i}` as `i`, and `${i}` has no leading zero |
| Decimal.CanonicalIsToDecimal | server/server.js:82 | a digit string without a leading zero is the numeral of its value |
| Decimal.NumeralIffCanonical | server/server.js:82 | a string is some `${i}` exactly when it is a digit string without a leading zero |
| Decimal.ToDecimalInjective | server/server.js:82 | different indices read different chunk files |
| Naming.UniqueFileNameIsPlain | server/server.js:97-102 | a generated name holds no '/' |
| Naming.UniqueFileNameKeepsExtension | server/server.js:97-102 | the generated name keeps the original extension, and its stem is the original stem, '-' and the suffix |
| Naming.UniqueFileNameDiffers | server/server.js:97-102 | the generated name never equals the original name |
| Naming.UniqueFileNameInjective | server/server.js:100-101 | for one original name, two generated names are equal exactly when the random suffixes are |
| Naming.MovieExample | server/server.js:97-102 | "movie.mp4" becomes "movie-<suffix>.mp4", with extension ".mp4" |
| Transcode.ThreeOutputsInOrder | server/server.js:108-116 | exactly three outputs, `transcoded/<stem>_480p.mp4`, `_720p.mp4` and `_1080p.mp4`, in that order |
| Transcode.OutputFileNameParts | server/server.js:115 | an output name has extension ".mp4", and its stem is the artifact's stem, '_' and the label |
| Transcode.OutputFileNameInjective | server/server.js:115 | equal output names imply equal artifact stems and equal labels |
| Transcode.OutputPathsDistinct | server/server.js:114-116 | the three jobs of one artifact write three different files |
| ChunkStore.FlattenAppend | server/server.js:85 | appending one more chunk to the stream appends its bytes to the concatenation |
| ChunkStore.Assemble | server/server.js:81-89 | succeeds exactly when chunks 0 .. n-1 are all present, and then yields their concatenation in index order. Otherwise it fails with the lowest missing index, with every chunk before it present |
| ChunkStore.AssembleStopsAtFirstGap | server/server.js:83-88 | once chunk i is missing after a complete prefix, reassembly of any longer run fails at i |
| ChunkStore.AssembleReadsOnlyItsSlots | server/server.js:81-84 | reassembly depends on nothing but chunks 0 .. n-1 of its own session |
| ChunkStore.AssembleIgnoresOtherSessions | server/server.js:44-49 | a write into another session's directory never changes this session's result |
| ChunkStore.AssembleIgnoresNonCanonicalIndex | server/server.js:48 | a chunk written under a non-canonical index such as "01" is never read |
| ChunkStore.RemoveSessionIsolates | server/server.js:92 | `fs.remove(tempDir)` leaves every other session's reassembly unchanged, and a later reassembly of the removed session fails at chunk 0 |
| ChunkStore.DoubleZeroIndexIgnored | server/server.js:48-52 | "00" parses as index 0, but a chunk stored under it never changes what reassembly reads |
| ChunkStore.DeliveredSlot | server/server.js:48-49 | after any order of writes, a delivered chunk holds its content |
| ChunkStore.AssembleInAnyOrder | server/server.js:81-89 | whatever the arrival order and repetitions, once 0 .. n-1 are delivered, reassembly yields chunk 0 ++ … ++ chunk n-1 |
| UploadHandler.Reassembled | server/server.js:77-94 | succeeds exactly when all chunks are present. Then: the artifact is the ordered concatenation, the session's chunks are removed, metadata is kept and the three jobs are appended. On failure it reports Assemble's missing index |
| UploadHandler.WrittenIdempotent | server/server.js:44-60 | writing the same chunk, and for index 0 the same metadata, a second time leaves the state as the first write left it |
| UploadHandler.ValidationRejects | server/server.js:34-42 | a missing or empty field gives 400 "Missing required metadata…", and a missing payload gives 400 "No chunk uploaded"; both leave the state unchanged. A 400 happens exactly for such requests |
| UploadHandler.StoresChunk | server/server.js:44-49 | a valid request overwrites its own chunk key; only a completed reassembly then removes the session's chunks |
| UploadHandler.MetadataOnIndexZero | server/server.js:52-60 | metadata changes exactly when the index parses to 0, and is then overwritten with the name and its extension |
| UploadHandler.CompletionOnDeclaredLast | server/server.js:62-69 | the answer depends on the declared index and the chunks on disk:<br>• not the declared last: "Chunk uploaded successfully.";<br>• declared last, all chunks present: "File upload complete.";<br>• declared last, a chunk missing: 500 |
| UploadHandler.CompletedUpload | server/server.js:62-66 | a completed upload stores the ordered concatenation under the generated name, launches the three jobs and removes the session's chunks |
| UploadHandler.FailedReassembly | server/server.js:63-73 | a failed reassembly keeps every temporary chunk. It creates no artifact and launches no job, and it fails at the lowest missing index |
| UploadHandler.RepeatedRequestIdempotent | server/server.js:44-69 | resending a request that did not complete an upload changes nothing further and gets the same answer |
| UploadHandler.RetryAfterCompletionFails | server/server.js:62-73 | resending the last chunk of a completed upload of two or more chunks gives 500 and no second artifact |
| UploadHandler.RetryAfterCompletionOneChunk | server/server.js:62-66 | resending the only chunk of a completed one-chunk upload makes a second artifact |
| UploadHandler.UploadAllBeforeLast | server/server.js:44-69 | requests for chunks other than the declared last one store their chunks in arrival order and create no artifact and no job |
| UploadHandler.UploadAllMetadata | server/server.js:52-60 | over any run of chunk requests, the session's metadata is written with the name and its extension exactly when chunk 0 is among them, and is otherwise left alone |
| UploadHandler.UploadInAnyOrder | server/server.js:30-94 | chunks 0 .. n-2 in any order and with repeats, then chunk n-1, complete the upload. The artifact is chunk 0 ++ … ++ chunk n-1, and three jobs are launched |
| UploadHandler.LastChunkArrivesFirst | server/server.js:62-73 | with two chunks, sending chunk 1 first gives 500, then chunk 0 is only acknowledged, then resending chunk 1 completes with chunk 0 ++ chunk 1 |
| UploadServer.Server.constructor | server/server.js:15-19 | a first start: the directories are created empty, so there are no chunks, metadata, artifacts or jobs |
| UploadServer.Server.ReassembleChunks | server/server.js:77-94 | the loop appends chunk by chunk. It returns the missing index and leaves the state unchanged, or it reaches the state `Reassembled` describes |
| UploadServer.Server.UploadChunk | server/server.js:30-74 | the in-place handler reaches the new state and answer that `Step` gives |
| UploadServer.UploadTwoChunksLastFirst | server/server.js:62-73 | a client sending chunk 1, chunk 0, then chunk 1 gets 500, 200, 200, and the artifact is chunk 0 ++ chunk 1 |
| ReassemblyAsWritten.AsWrittenNeverCompletes | server/server.js:62-79 | with the name passed as `createWriteStream`'s options, every declared-last request answers 500 and keeps only what it wrote; other requests behave as intended |
| ReassemblyAsWritten.AsWrittenFailsWhereIntendedCompletes | server/server.js:62-79 | wherever the intended handler completes an upload, the handler as written answers 500 |
| ReassemblyAsWritten.OneChunkMovieUpload | server/server.js:62-79 | a one-chunk upload of "movie.mp4" completes as intended and answers 500 as written |
| SyncEnv.Split | maintainance-script/sync-env.js:13 | `split('\n')` yields at least one piece, and no piece holds a newline |
| SyncEnv.JoinSplit | maintainance-script/sync-env.js:12-21 | joining the pieces of a split gives back the text |
| SyncEnv.SplitJoin | maintainance-script/sync-env.js:12-21 | splitting a join of newline-free lines gives back the lines |
| SyncEnv.TrimStartRemovesLeadingWhitespace | maintainance-script/sync-env.js:15 | `trim` from the front removes a prefix made only of whitespace and leaves no leading whitespace |
| SyncEnv.TrimEndRemovesTrailingWhitespace | maintainance-script/sync-env.js:15 | `trim` from the back removes a suffix made only of whitespace and leaves no trailing whitespace |
| SyncEnv.KeyOf | maintainance-script/sync-env.js:18 | `line.split('=')[0]` is the longest '='-free prefix of the line |
| SyncEnv.KeptVerbatimIff | maintainance-script/sync-env.js:15 | the trim test holds exactly for lines that are all whitespace, or whose first non-whitespace character is '#' |
| SyncEnv.BlankOrCommentLineKept | maintainance-script/sync-env.js:15-16 | blank and comment lines are copied verbatim |
| SyncEnv.KeyLineDropsValue | maintainance-script/sync-env.js:18-19 | any other line becomes its text before the first '=' plus a single '=': nothing after the first '=' survives, and a line without '=' gains one |
| SyncEnv.ExampleContentLines | maintainance-script/sync-env.js:12-21 | the output has as many lines as the input, in the same order, each transformed on its own |
| SyncEnv.ExampleLineIdempotent | maintainance-script/sync-env.js:14-20 | transforming a transformed line changes nothing |
| SyncEnv.ExampleContentIdempotent | maintainance-script/sync-env.js:12-21 | running the transform on its own output changes nothing |

## Findings

| source | as written | input that shows it | evidently intended | confidence | as-written member | corrected member |
|---|---|---|---|---|---|---|
| server/server.js:79 | `fs.createWriteStream(finalPath, finalFileName)` passes the generated name as the options argument. Node reads a string there as an encoding and throws ERR_INVALID_ARG_VALUE for a name such as "movie-0123456789abcdef.mp4". The rejection reaches the catch at lines 70-73, so every declared-last request answers 500 and no upload completes | a one-chunk upload: chunkIndex "0", totalChunks "1", originalName "movie.mp4" | `fs.createWriteStream(finalPath)`: open `final-uploads/<name>` and reassemble; `UploadHandler.UploadInAnyOrder` proves that uploads then complete | not executed | ReassemblyAsWritten.AsWrittenNeverCompletes | UploadHandler.Step |

The rest of the model, `UploadServer.Server` included, follows the intended call.

## Left out

- HTTP and framework plumbing (Express, multer, static files, `app.listen`) is not modelled. A request is a record of optional fields and an optional payload, and a response is one of the handler's five status and message pairs.
- Storage I/O failures are not modelled. In the source, a failed `ensureDir`, `outputFile`, `writeJson`, `readFile` or `remove` throws and is answered with 500. The model's storage operations always succeed, so the only 500 is a missing chunk.
- Stream semantics are not modelled. The final file is written through a stream that is never awaited. On a missing chunk, the stream is never ended, and a partial file may be left in `final-uploads/`. The model produces no artifact on failure.
- The ffmpeg process, its exit status and its callbacks are not modelled. A launched job is recorded as its resolution, output path and command line.
- Concurrency between requests is not modelled: requests are handled one at a time. The source awaits inside the handler, so two requests of one session could interleave.
- Randomness is a parameter. `crypto.randomBytes(8).toString('hex')` is the parameter `suffix`. Uniqueness of generated names holds only as far as suffixes differ (`Naming.UniqueFileNameInjective`).
- Logging (`console.log`, `console.error`) is not modelled.
- The file I/O of sync-env.js is not modelled: the existence check, `process.exit(1)`, reading `.env` and writing `.env.example`.
- Decimal.ParseInt: only strings of decimal digits are numbers; every other string is NaN. JavaScript's `parseInt` also accepts a sign, leading whitespace, trailing junk ("3abc" is 3) and a `0x` prefix. The loop bound `i < totalChunks` compares against `Number(totalChunks)`, which can disagree with `parseInt`: for `totalChunks` "3abc", `parseInt` gives 3, so index "2" is the declared last, but `Number("3abc")` is NaN, so the loop reads no chunk; with the stream opened as intended, the source would then answer "File upload complete." with an empty artifact and delete the session's chunks. The model treats "3abc" as NaN throughout, so no index is the declared last. The precision limit of JavaScript numbers beyond 2^53 is not modelled.
- PathNames.Extname: POSIX paths without trailing '/' only. Node's `path.extname` skips trailing separators, which the model does not: for "clip.mp4/" the model gives "", Node ".mp4". `originalName` comes from the client and may end in '/'; for such a name the metadata format differs ("" here, ".mp4" in the source).
- PathNames.Stem: the same restriction. For "clip.mp4/" the model gives the stem "", where `path.basename("clip.mp4/", ".mp4")` is "clip", so the generated name is `"-" + suffix` here and "clip-<suffix>.mp4" in the source.
- PathNames.FinalSegment: the same restriction. For "a/b/" the model gives "", where Node's `path.basename` gives "b".
- Naming.ArtifactPath: `path.join` normalisation (`.`/`..` segments, repeated '/') is not modelled. The artifact name is a plain name under `final-uploads/`, and `./transcoded` is written `transcoded/`.
- Naming.UniqueFileNameKeepsExtension: excludes an original name whose final segment is "..". Node gives ".." no extension, but the generated name "..-<suffix>" has one.
- UploadServer.Server.constructor: models a first start. A restart finds the files already in `uploads/`, `metadata/` and `final-uploads/`; that case is not modelled.
- UploadHandler.Step: models line 79 as opening `final-uploads/<name>`. The source passes the name as the encoding and fails there; `ReassemblyAsWritten` models that call as written (see "## Findings").
- UploadHandler.Step: the server-side file name of a chunk is modelled as the pair (uniqueId, chunkIndex). A `uniqueId` or `chunkIndex` that `path.join` normalises (one containing '/' or "..", or the `uniqueId` ".") could address a file outside its session directory; this is not modelled. For the `uniqueId` "." the temporary directory is `uploads` itself, so the chunks land in `uploads/chunk_<i>`, and completing that upload runs `fs.remove('uploads')`, which deletes every session's temporary chunks.
- ChunkStore.RemoveSessionIsolates: holds only for session ids that name their own directory under `uploads/`. For a `uniqueId` that `path.join` normalises to `uploads` itself, such as ".", removing the session deletes every session's chunks in the source, while the model removes only the keys of that session.
