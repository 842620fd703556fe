/**
 * The upload server as server.js runs it: state that lives on disk (temp
 * chunks, metadata files, final artifacts) and the transcode jobs it has
 * launched, updated in place by the `/upload-chunk` handler and by
 * `reassembleChunks`. Each method is proved to do what the pure `Step`
 * and `Reassembled` of UploadHandler.dfy say.
 */
module UploadServer {
  import opened Wrappers
  import opened Decimal
  import opened PathNames
  import opened Naming
  import opened Transcode
  import opened ChunkStore
  import opened UploadHandler

  class Server {
    /** `uploads/<uniqueId>/chunk_<chunkIndex>` */
    var chunks: Chunks
    /** `metadata/<uniqueId>.json` */
    var metadata: map<string, Metadata>
    /** `final-uploads/<name>` */
    var artifacts: map<string, Bytes>
    /** ffmpeg processes started, in order */
    var jobs: seq<TranscodeJob>

    function State(): ServerState
      reads this
    {
      ServerState(chunks, metadata, artifacts, jobs)
    }

    constructor ()
      ensures State() == ServerState(map[], map[], map[], [])
    {
      chunks, metadata, artifacts, jobs := map[], map[], map[], [];
    }

    /**
     * `reassembleChunks`: append chunk 0, 1, ..., totalChunks-1 to the final
     * file in that order, failing at the first missing chunk; on success
     * remove the session's chunks and start the transcode jobs. A failure
     * changes nothing and returns the missing index.
     */
    method ReassembleChunks(session: string, finalName: string, totalChunks: nat) returns (missing: Option<nat>)
      modifies this
      ensures var expected := Reassembled(old(State()), session, finalName, totalChunks);
        && (missing.None? <==> expected.Ok?)
        && (missing.None? ==> State() == expected.value)
        && (missing.Some? ==> missing.value == expected.error && State() == old(State()))
    {
      var written: Bytes := [];
      for i := 0 to totalChunks
        invariant Assemble(chunks, session, i) == Ok(written)
      {
        var key := ChunkKey(session, ToDecimal(i));
        if key !in chunks {
          AssembleStopsAtFirstGap(chunks, session, i, totalChunks);
          return Some(i);
        }
        written := written + chunks[key];
      }
      artifacts := artifacts[finalName := written];
      chunks := RemoveSession(chunks, session);
      jobs := jobs + TranscodeJobs(ArtifactPath(finalName));
      return None;
    }

    /**
     * The `/upload-chunk` handler: validate, write the chunk under its
     * chunkIndex text, record the metadata for index 0, and reassemble when
     * the declared last chunk arrives. `suffix` is the random text of the
     * generated artifact name.
     */
    method UploadChunk(req: Request, suffix: string) returns (response: Response)
      modifies this
      ensures (State(), response) == Step(old(State()), req, suffix)
    {
      if !Truthy(req.chunkIndex) || !Truthy(req.totalChunks) || !Truthy(req.uniqueId) || !Truthy(req.originalName) {
        return MissingMetadata;
      }
      if req.chunk.None? {
        return NoChunk;
      }
      var chunkIndex, totalChunks := req.chunkIndex.value, req.totalChunks.value;
      var uniqueId, originalName := req.uniqueId.value, req.originalName.value;

      chunks := chunks[ChunkKey(uniqueId, chunkIndex) := req.chunk.value];
      if ParseInt(chunkIndex) == Some(0) {
        metadata := metadata[uniqueId := Metadata(originalName, Extname(originalName))];
      }

      if IsDeclaredLast(chunkIndex, totalChunks) {
        var finalName := UniqueFileName(originalName, suffix);
        var missing := ReassembleChunks(uniqueId, finalName, ParseInt(totalChunks).value);
        if missing.Some? {
          return UploadFailed;
        }
        return UploadComplete;
      }
      return ChunkAccepted;
    }
  }

  /**
   * A client of the server uploading "movie.mp4" in two chunks, sending
   * chunk 1 first, then chunk 0, then chunk 1 again.
   */
  method UploadTwoChunksLastFirst(c0: Bytes, c1: Bytes, suffix: string)
    returns (first: Response, second: Response, third: Response, artifact: Bytes)
    ensures first == UploadFailed && second == ChunkAccepted && third == UploadComplete
    ensures artifact == c0 + c1
  {
    var server := new Server();
    var req1 := ChunkRequest("abc123", "movie.mp4", 2, Delivery(1, c1));
    var req0 := ChunkRequest("abc123", "movie.mp4", 2, Delivery(0, c0));
    LastChunkArrivesFirst(server.State(), "abc123", "movie.mp4", c0, c1, suffix);
    first := server.UploadChunk(req1, suffix);
    second := server.UploadChunk(req0, suffix);
    third := server.UploadChunk(req1, suffix);
    artifact := server.artifacts[UniqueFileName("movie.mp4", suffix)];
  }
}
