/**
 * The handler with line 79 of server.js as it is written:
 * `fs.createWriteStream(finalPath, finalFileName)`. Node's `createWriteStream`
 * takes a string second argument as the stream's encoding and throws
 * ERR_INVALID_ARG_VALUE unless it is empty, "buffer" or an encoding name
 * Buffer knows. The throw rejects `reassembleChunks`, and the handler's catch
 * answers 500. `UploadHandler.Step` is the intended handler, which opens
 * `final-uploads/<finalFileName>` and goes on to reassemble.
 */
module ReassemblyAsWritten {
  import opened Wrappers
  import opened Decimal
  import opened Naming
  import opened ChunkStore
  import opened UploadHandler

  /** The encoding names `Buffer.isEncoding` accepts, in lower case. */
  const EncodingNames: set<string> :=
    {"utf8", "utf-8", "ucs2", "ucs-2", "utf16le", "utf-16le", "latin1", "binary",
     "base64", "base64url", "hex", "ascii"}

  function LowerAscii(s: string): string {
    seq(|s|, i requires 0 <= i < |s| => if 'A' <= s[i] <= 'Z' then (s[i] as int + 32) as char else s[i])
  }

  /** A string `options` that `createWriteStream` accepts as an encoding without throwing. */
  predicate StreamAcceptsOptions(options: string) {
    options == "" || options == "buffer" || LowerAscii(options) in EncodingNames
  }

  /** No option string longer than nine characters is accepted. */
  lemma LongOptionsRejected(options: string)
    requires |options| > 9
    ensures !StreamAcceptsOptions(options)
  {
    forall e | e in EncodingNames
      ensures |e| <= 9
    {
    }
    assert |LowerAscii(options)| == |options|;
  }

  /**
   * One request to `/upload-chunk` with the stream opened as written: a
   * declared-last request whose generated name is not an encoding fails
   * before any chunk is read, keeping only what the request wrote.
   */
  function StepAsWritten(st: ServerState, req: Request, suffix: string): (ServerState, Response) {
    if IsStorable(req) && IsDeclaredLast(req.chunkIndex.value, req.totalChunks.value)
      && !StreamAcceptsOptions(UniqueFileName(req.originalName.value, suffix))
    then (Written(st, req), UploadFailed)
    else Step(st, req, suffix)
  }

  /**
   * As written, no request ever completes an upload: every generated name
   * holds the sixteen-digit suffix and so is no encoding, and every
   * declared-last request answers 500 with the session's chunks kept.
   */
  lemma AsWrittenNeverCompletes(st: ServerState, req: Request, suffix: string)
    requires IsHexSuffix(suffix)
    ensures StepAsWritten(st, req, suffix).1 != UploadComplete
    ensures IsStorable(req) && IsDeclaredLast(req.chunkIndex.value, req.totalChunks.value) ==>
      StepAsWritten(st, req, suffix) == (Written(st, req), UploadFailed)
    ensures !(IsStorable(req) && IsDeclaredLast(req.chunkIndex.value, req.totalChunks.value)) ==>
      StepAsWritten(st, req, suffix) == Step(st, req, suffix)
  {
    if IsStorable(req) && IsDeclaredLast(req.chunkIndex.value, req.totalChunks.value) {
      var name := UniqueFileName(req.originalName.value, suffix);
      assert |name| >= 17;
      LongOptionsRejected(name);
    } else if IsStorable(req) {
      CompletionOnDeclaredLast(st, req, suffix);
    } else {
      ValidationRejects(st, req, suffix);
    }
  }

  /** Wherever the intended handler completes an upload, the handler as written answers 500 instead. */
  lemma AsWrittenFailsWhereIntendedCompletes(st: ServerState, req: Request, suffix: string)
    requires IsHexSuffix(suffix) && Step(st, req, suffix).1 == UploadComplete
    ensures StepAsWritten(st, req, suffix) == (Written(st, req), UploadFailed)
  {
    CompletedUpload(st, req, suffix);
    AsWrittenNeverCompletes(st, req, suffix);
  }

  /** A one-chunk upload of "movie.mp4": intended, it completes; as written, it answers 500. */
  lemma OneChunkMovieUpload(data: Bytes)
    ensures var st := ServerState(map[], map[], map[], []);
      var req := Request(Some("0"), Some("1"), Some("s"), Some("movie.mp4"), Some(data));
      && Step(st, req, "0123456789abcdef").1 == UploadComplete
      && StepAsWritten(st, req, "0123456789abcdef").1 == UploadFailed
  {
    var st := ServerState(map[], map[], map[], []);
    var req := Request(Some("0"), Some("1"), Some("s"), Some("movie.mp4"), Some(data));
    var suffix := "0123456789abcdef";
    assert IsHexSuffix(suffix);
    assert ParseInt("1") == Some(1);
    SingleChunk(Written(st, req).chunks, "s", data);
    CompletionOnDeclaredLast(st, req, suffix);
    AsWrittenNeverCompletes(st, req, suffix);
  }
}
