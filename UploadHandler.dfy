/**
 * The `/upload-chunk` request handler of server.js as a pure step function
 * from the server's state and one request to the new state and the response.
 * The class in UploadServer.dfy runs the same handler imperatively and is
 * proved to agree with `Step`.
 */
module UploadHandler {
  import opened Wrappers
  import opened Decimal
  import opened PathNames
  import opened Naming
  import opened Transcode
  import opened ChunkStore

  /**
   * The parsed multipart request: the four body fields (absent when the
   * client did not send them) and the uploaded `chunk` file's buffer.
   */
  datatype Request = Request(
    chunkIndex: Option<string>,
    totalChunks: Option<string>,
    uniqueId: Option<string>,
    originalName: Option<string>,
    chunk: Option<Bytes>)

  /** The five answers the handler can send. */
  datatype Response = MissingMetadata | NoChunk | ChunkAccepted | UploadComplete | UploadFailed {

    function Status(): nat {
      match this
      case MissingMetadata | NoChunk => 400
      case ChunkAccepted | UploadComplete => 200
      case UploadFailed => 500
    }

    function Body(): string {
      match this
      case MissingMetadata => "Missing required metadata in request body"
      case NoChunk => "No chunk uploaded"
      case ChunkAccepted => "Chunk uploaded successfully."
      case UploadComplete => "File upload complete."
      case UploadFailed => "Error uploading chunk."
    }
  }

  /** The record written to `metadata/<uniqueId>.json`. */
  datatype Metadata = Metadata(originalName: string, format: string)

  /**
   * Everything the handler leaves behind: temporary chunks, metadata records,
   * reassembled artifacts (keyed by file name under `final-uploads/`) and the
   * transcode jobs launched so far, in launch order.
   */
  datatype ServerState = ServerState(
    chunks: Chunks,
    metadata: map<string, Metadata>,
    artifacts: map<string, Bytes>,
    jobs: seq<TranscodeJob>)

  /** A body field passes `!field` exactly when it was sent and is not empty. */
  predicate Truthy(field: Option<string>) {
    field.Some? && field.value != ""
  }

  predicate HasRequiredFields(req: Request) {
    Truthy(req.chunkIndex) && Truthy(req.totalChunks) && Truthy(req.uniqueId) && Truthy(req.originalName)
  }

  /** A request the handler goes on to store. */
  predicate IsStorable(req: Request) {
    HasRequiredFields(req) && req.chunk.Some?
  }

  /** `parseInt(chunkIndex) === parseInt(totalChunks) - 1`; NaN equals nothing. */
  predicate IsDeclaredLast(chunkIndex: string, totalChunks: string) {
    var i, n := ParseInt(chunkIndex), ParseInt(totalChunks);
    i.Some? && n.Some? && i.value == n.value - 1
  }

  /** The metadata captured from a request whose index parses to 0. */
  function MetadataOf(originalName: string): Metadata {
    Metadata(originalName, Extname(originalName))
  }

  /** `reassembleChunks` on a state: the artifact, the removal of the session's chunks and the transcode jobs. */
  function Reassembled(st: ServerState, session: string, finalName: string, n: nat): (r: Result<ServerState, nat>)
    ensures r.Ok? <==> AllPresent(st.chunks, session, n)
    ensures r.Ok? ==> r.value.chunks == RemoveSession(st.chunks, session) && r.value.metadata == st.metadata
    ensures r.Ok? ==> r.value.artifacts == st.artifacts[finalName := Flatten(Parts(st.chunks, session, n))]
    ensures r.Ok? ==> r.value.jobs == st.jobs + TranscodeJobs(ArtifactPath(finalName))
    ensures r.Err? ==> r.error == Assemble(st.chunks, session, n).error
  {
    match Assemble(st.chunks, session, n)
    case Err(i) => Err(i)
    case Ok(data) =>
      Ok(st.(artifacts := st.artifacts[finalName := data],
             chunks := RemoveSession(st.chunks, session),
             jobs := st.jobs + TranscodeJobs(ArtifactPath(finalName))))
  }

  /** The state once a storable request's chunk, and for index 0 its metadata, are written. */
  function Written(st: ServerState, req: Request): ServerState
    requires IsStorable(req)
  {
    var index, session, name := req.chunkIndex.value, req.uniqueId.value, req.originalName.value;
    var st1 := st.(chunks := st.chunks[ChunkKey(session, index) := req.chunk.value]);
    if ParseInt(index) == Some(0) then st1.(metadata := st1.metadata[session := MetadataOf(name)]) else st1
  }

  /**
   * One request to `/upload-chunk`. `suffix` stands for the random hex text
   * `generateUniqueFileName` draws.
   */
  function Step(st: ServerState, req: Request, suffix: string): (ServerState, Response) {
    if !HasRequiredFields(req) then (st, MissingMetadata)
    else if req.chunk.None? then (st, NoChunk)
    else
      var written := Written(st, req);
      var index, total := req.chunkIndex.value, req.totalChunks.value;
      if !IsDeclaredLast(index, total) then (written, ChunkAccepted)
      else
        var finalName := UniqueFileName(req.originalName.value, suffix);
        match Reassembled(written, req.uniqueId.value, finalName, ParseInt(total).value)
        case Ok(done) => (done, UploadComplete)
        case Err(_) => (written, UploadFailed)
  }

  /*
   * What a single request does.
   */

  /** A request missing a field or the payload is answered 400 and changes nothing; no other request is. */
  lemma ValidationRejects(st: ServerState, req: Request, suffix: string)
    ensures !HasRequiredFields(req) ==> Step(st, req, suffix) == (st, MissingMetadata)
    ensures HasRequiredFields(req) && req.chunk.None? ==> Step(st, req, suffix) == (st, NoChunk)
    ensures Step(st, req, suffix).1.Status() == 400 <==> !IsStorable(req)
  {
  }

  /**
   * A storable request writes its bytes under its own chunkIndex text,
   * overwriting what was there; reassembly then removes the whole session.
   */
  lemma StoresChunk(st: ServerState, req: Request, suffix: string)
    requires IsStorable(req)
    ensures var (after, r) := Step(st, req, suffix);
      var written := st.chunks[ChunkKey(req.uniqueId.value, req.chunkIndex.value) := req.chunk.value];
      after.chunks == if r == UploadComplete then RemoveSession(written, req.uniqueId.value) else written
  {
    WrittenChunk(st, req);
    var written := Written(st, req);
    if !IsDeclaredLast(req.chunkIndex.value, req.totalChunks.value) {
      assert Step(st, req, suffix) == (written, ChunkAccepted);
    } else {
      var finalName := UniqueFileName(req.originalName.value, suffix);
      match Reassembled(written, req.uniqueId.value, finalName, ParseInt(req.totalChunks.value).value)
      case Ok(done) =>
        assert Step(st, req, suffix) == (done, UploadComplete);
      case Err(_) =>
        assert Step(st, req, suffix) == (written, UploadFailed);
    }
  }

  /** Where the write puts the request's chunk; artifacts and jobs are left alone. */
  lemma WrittenChunk(st: ServerState, req: Request)
    requires IsStorable(req)
    ensures Written(st, req).chunks == st.chunks[ChunkKey(req.uniqueId.value, req.chunkIndex.value) := req.chunk.value]
    ensures Written(st, req).artifacts == st.artifacts && Written(st, req).jobs == st.jobs
  {
    var index, session := req.chunkIndex.value, req.uniqueId.value;
    var st1 := st.(chunks := st.chunks[ChunkKey(session, index) := req.chunk.value]);
    if ParseInt(index) == Some(0) {
      assert Written(st, req) == st1.(metadata := st1.metadata[session := MetadataOf(req.originalName.value)]);
    } else {
      assert Written(st, req) == st1;
    }
  }

  /** Only a request whose index parses to 0 touches the metadata, and it overwrites the record every time. */
  lemma MetadataOnIndexZero(st: ServerState, req: Request, suffix: string)
    ensures Step(st, req, suffix).0.metadata ==
      if IsStorable(req) && ParseInt(req.chunkIndex.value) == Some(0)
      then st.metadata[req.uniqueId.value := MetadataOf(req.originalName.value)]
      else st.metadata
  {
    if IsStorable(req) {
      StepKeepsWrittenMetadata(st, req, suffix);
    } else {
      ValidationRejects(st, req, suffix);
    }
  }

  /** Reassembly, whether it succeeds or fails, leaves the metadata as the write left it. */
  lemma StepKeepsWrittenMetadata(st: ServerState, req: Request, suffix: string)
    requires IsStorable(req)
    ensures Step(st, req, suffix).0.metadata == Written(st, req).metadata
  {
    var written := Written(st, req);
    if !IsDeclaredLast(req.chunkIndex.value, req.totalChunks.value) {
      assert Step(st, req, suffix).0 == written;
    } else {
      var finalName := UniqueFileName(req.originalName.value, suffix);
      match Reassembled(written, req.uniqueId.value, finalName, ParseInt(req.totalChunks.value).value)
      case Ok(done) =>
        assert Step(st, req, suffix).0 == done;
      case Err(_) =>
        assert Step(st, req, suffix).0 == written;
    }
  }

  /**
   * Reassembly runs exactly when the declared index is totalChunks - 1. It
   * completes when every chunk 0 .. totalChunks-1 is on disk and fails
   * otherwise; any other storable request is acknowledged.
   */
  lemma CompletionOnDeclaredLast(st: ServerState, req: Request, suffix: string)
    requires IsStorable(req)
    ensures var r := Step(st, req, suffix).1;
      var last := IsDeclaredLast(req.chunkIndex.value, req.totalChunks.value);
      var present := last && AllPresent(Written(st, req).chunks, req.uniqueId.value, ParseInt(req.totalChunks.value).value);
      && (r == ChunkAccepted <==> !last)
      && (r == UploadComplete <==> present)
      && (r == UploadFailed <==> last && !present)
  {
  }

  /**
   * A completed upload stores chunk 0 ++ ... ++ chunk n-1 under a fresh
   * name, launches its three transcode jobs and removes the session's chunks.
   */
  lemma CompletedUpload(st: ServerState, req: Request, suffix: string)
    requires Step(st, req, suffix).1 == UploadComplete
    ensures IsStorable(req) && IsDeclaredLast(req.chunkIndex.value, req.totalChunks.value)
    ensures var after, written := Step(st, req, suffix).0, Written(st, req);
      var session, n := req.uniqueId.value, ParseInt(req.totalChunks.value).value;
      var finalName := UniqueFileName(req.originalName.value, suffix);
      && AllPresent(written.chunks, session, n)
      && after.artifacts == st.artifacts[finalName := Flatten(Parts(written.chunks, session, n))]
      && after.jobs == st.jobs + TranscodeJobs(ArtifactPath(finalName))
      && after.chunks == RemoveSession(written.chunks, session)
      && after.metadata == written.metadata
  {
  }

  /**
   * A failed reassembly keeps the written chunk, the metadata and every
   * temporary chunk, produces no artifact and launches no job; the lowest
   * index it could not find is the one it reports.
   */
  lemma FailedReassembly(st: ServerState, req: Request, suffix: string)
    requires Step(st, req, suffix).1 == UploadFailed
    ensures IsStorable(req) && IsDeclaredLast(req.chunkIndex.value, req.totalChunks.value)
    ensures Step(st, req, suffix).0 == Written(st, req)
    ensures var session, n := req.uniqueId.value, ParseInt(req.totalChunks.value).value;
      var missing := Assemble(Written(st, req).chunks, session, n);
      && missing.Err? && missing.error < n
      && SlotKey(session, missing.error) !in Written(st, req).chunks
      && AllPresent(Written(st, req).chunks, session, missing.error)
  {
  }

  /**
   * Repeating a request that did not complete an upload leaves the state as
   * the first delivery left it and gets the same answer: duplicate chunks are
   * idempotent.
   */
  lemma RepeatedRequestIdempotent(st: ServerState, req: Request, suffix1: string, suffix2: string)
    requires Step(st, req, suffix1).1 != UploadComplete
    ensures Step(Step(st, req, suffix1).0, req, suffix2) == Step(st, req, suffix1)
  {
    if IsStorable(req) {
      var written := Written(st, req);
      WrittenIdempotent(st, req);
      if IsDeclaredLast(req.chunkIndex.value, req.totalChunks.value) {
        var session, n := req.uniqueId.value, ParseInt(req.totalChunks.value).value;
        assert !AllPresent(written.chunks, session, n);
        assert Reassembled(written, session, UniqueFileName(req.originalName.value, suffix2), n).Err?;
      }
    }
  }

  /** Writing the same chunk and metadata a second time changes nothing. */
  lemma WrittenIdempotent(st: ServerState, req: Request)
    requires IsStorable(req)
    ensures Written(Written(st, req), req) == Written(st, req)
  {
    var session, index := req.uniqueId.value, req.chunkIndex.value;
    var w := Written(st, req);
    var w2 := Written(w, req);
    UpdateWithSameValue(w.chunks, ChunkKey(session, index), req.chunk.value);
    if ParseInt(index) == Some(0) {
      UpdateWithSameValue(w.metadata, session, MetadataOf(req.originalName.value));
    }
    assert w2 == ServerState(w.chunks, w.metadata, w.artifacts, w.jobs);
  }

  lemma UpdateWithSameValue<K, V>(m: map<K, V>, k: K, v: V)
    requires k in m && m[k] == v
    ensures m[k := v] == m
  {
  }

  /**
   * Resending the last chunk of a completed upload of two or more chunks:
   * the session's other chunks are gone, so reassembly fails, no second
   * artifact appears and no job is launched; only the resent chunk is left
   * behind.
   */
  lemma RetryAfterCompletionFails(st: ServerState, req: Request, suffix1: string, suffix2: string)
    requires Step(st, req, suffix1).1 == UploadComplete
    requires ParseInt(req.totalChunks.value).value >= 2
    ensures var done := Step(st, req, suffix1).0;
      Step(done, req, suffix2) == (Written(done, req), UploadFailed)
  {
    CompletedUpload(st, req, suffix1);
    var done := Step(st, req, suffix1).0;
    assert SlotKey(req.uniqueId.value, 0) !in done.chunks;
    ResendWithoutChunkZero(done, req, suffix2);
  }

  /** A declared-last request of two or more chunks, with chunk 0 not on disk, fails. */
  lemma ResendWithoutChunkZero(st: ServerState, req: Request, suffix: string)
    requires IsStorable(req) && IsDeclaredLast(req.chunkIndex.value, req.totalChunks.value)
    requires ParseInt(req.totalChunks.value).value >= 2
    requires SlotKey(req.uniqueId.value, 0) !in st.chunks
    ensures Step(st, req, suffix) == (Written(st, req), UploadFailed)
  {
    ParseToDecimal(0);
    assert ParseInt(req.chunkIndex.value) != ParseInt("0");
    WrittenChunk(st, req);
    assert SlotKey(req.uniqueId.value, 0) !in Written(st, req).chunks;
    CompletionOnDeclaredLast(st, req, suffix);
    FailedReassembly(st, req, suffix);
  }

  /**
   * Resending the only chunk of a completed one-chunk upload, sent as "0",
   * completes the upload a second time and stores a second artifact under
   * the new suffix.
   */
  lemma RetryAfterCompletionOneChunk(st: ServerState, req: Request, suffix1: string, suffix2: string)
    requires Step(st, req, suffix1).1 == UploadComplete
    requires req.chunkIndex.value == "0"
    ensures var done := Step(st, req, suffix1).0;
      && Step(done, req, suffix2).1 == UploadComplete
      && Step(done, req, suffix2).0.artifacts ==
           done.artifacts[UniqueFileName(req.originalName.value, suffix2) := req.chunk.value]
  {
    CompletedUpload(st, req, suffix1);
    var done := Step(st, req, suffix1).0;
    var session, data := req.uniqueId.value, req.chunk.value;
    ParseToDecimal(0);
    assert ParseInt(req.totalChunks.value).value == 1;
    SingleChunk(Written(done, req).chunks, session, data);
    CompletionOnDeclaredLast(done, req, suffix2);
    CompletedUpload(done, req, suffix2);
  }

  lemma SingleChunk(store: Chunks, session: string, data: Bytes)
    requires ChunkKey(session, "0") in store && store[ChunkKey(session, "0")] == data
    ensures AllPresent(store, session, 1) && Flatten(Parts(store, session, 1)) == data
  {
    ParseToDecimal(0);
    assert SlotKey(session, 0) == ChunkKey(session, "0");
    assert Parts(store, session, 1) == [data];
    assert [data][1..] == [];
  }

  /*
   * Whole uploads.
   */

  /** The request a client sends for one chunk of an upload of `n` chunks. */
  function ChunkRequest(session: string, name: string, n: nat, d: Delivery): Request {
    Request(Some(ToDecimal(d.index)), Some(ToDecimal(n)), Some(session), Some(name), Some(d.data))
  }

  /** The state after the chunk requests for the deliveries are handled in order. */
  function UploadAll(st: ServerState, session: string, name: string, n: nat, ds: seq<Delivery>, suffix: string): ServerState {
    if ds == [] then st
    else
      var before := UploadAll(st, session, name, n, ds[..|ds| - 1], suffix);
      Step(before, ChunkRequest(session, name, n, ds[|ds| - 1]), suffix).0
  }

  /** Chunks other than the declared last one are stored in arrival order and create no artifact and no job. */
  lemma {:induction false} UploadAllBeforeLast(st: ServerState, session: string, name: string, n: nat, ds: seq<Delivery>, suffix: string)
    requires session != "" && name != ""
    requires forall j :: 0 <= j < |ds| ==> ds[j].index + 1 != n
    ensures var after := UploadAll(st, session, name, n, ds, suffix);
      after.chunks == Deliver(st.chunks, session, ds) && after.artifacts == st.artifacts && after.jobs == st.jobs
  {
    if ds != [] {
      var init, last := ds[..|ds| - 1], ds[|ds| - 1];
      UploadAllBeforeLast(st, session, name, n, init, suffix);
      ParseToDecimal(last.index);
      ParseToDecimal(n);
      var req := ChunkRequest(session, name, n, last);
      assert IsStorable(req);
      assert !IsDeclaredLast(req.chunkIndex.value, req.totalChunks.value);
      var before := UploadAll(st, session, name, n, init, suffix);
      assert Step(before, req, suffix).0 == Written(before, req);
    }
  }

  /**
   * Over a run of chunk requests, whether one of them completes or not, the
   * session's metadata is written exactly when chunk 0 is among them.
   */
  lemma {:induction false} UploadAllMetadata(st: ServerState, session: string, name: string, n: nat, ds: seq<Delivery>, suffix: string)
    requires session != "" && name != ""
    ensures UploadAll(st, session, name, n, ds, suffix).metadata ==
      if Delivered(ds, 0) then st.metadata[session := MetadataOf(name)] else st.metadata
  {
    if ds != [] {
      var init := ds[..|ds| - 1];
      UploadAllMetadata(st, session, name, n, init, suffix);
      LastRequestMetadata(st, session, name, n, ds, suffix);
      DeliveredOfInit(ds, 0);
      if ds[|ds| - 1].index == 0 && Delivered(init, 0) {
        UpdateTwice(st.metadata, session, MetadataOf(name));
      }
    }
  }

  /** The last request of a run writes the metadata exactly when it carries chunk 0. */
  lemma LastRequestMetadata(st: ServerState, session: string, name: string, n: nat, ds: seq<Delivery>, suffix: string)
    requires ds != [] && session != "" && name != ""
    ensures var before := UploadAll(st, session, name, n, ds[..|ds| - 1], suffix);
      UploadAll(st, session, name, n, ds, suffix).metadata ==
        if ds[|ds| - 1].index == 0 then before.metadata[session := MetadataOf(name)] else before.metadata
  {
    ChunkRequestMetadata(UploadAll(st, session, name, n, ds[..|ds| - 1], suffix), session, name, n, ds[|ds| - 1], suffix);
  }

  lemma UpdateTwice<K, V>(m: map<K, V>, k: K, v: V)
    ensures m[k := v][k := v] == m[k := v]
  {
  }

  /** One chunk request writes the session's metadata exactly when it carries chunk 0. */
  lemma ChunkRequestMetadata(st: ServerState, session: string, name: string, n: nat, d: Delivery, suffix: string)
    requires session != "" && name != ""
    ensures Step(st, ChunkRequest(session, name, n, d), suffix).0.metadata ==
      if d.index == 0 then st.metadata[session := MetadataOf(name)] else st.metadata
  {
    var req := ChunkRequest(session, name, n, d);
    ParseToDecimal(d.index);
    assert ParseInt(req.chunkIndex.value) == Some(d.index);
    assert IsStorable(req);
    MetadataOnIndexZero(st, req, suffix);
  }

  /** A chunk is delivered by a run exactly when the run's last delivery or an earlier one carries it. */
  lemma DeliveredOfInit(ds: seq<Delivery>, i: nat)
    requires ds != []
    ensures Delivered(ds, i) <==> Delivered(ds[..|ds| - 1], i) || ds[|ds| - 1].index == i
  {
    var init := ds[..|ds| - 1];
    if Delivered(ds, i) && ds[|ds| - 1].index != i {
      var j :| 0 <= j < |ds| && ds[j].index == i;
      assert init[j] == ds[j];
    }
    if Delivered(init, i) {
      var j :| 0 <= j < |init| && init[j].index == i;
      assert ds[j] == init[j];
    }
  }

  /**
   * The main guarantee of the upload path: chunks 0 .. n-2 sent in any order,
   * any number of times, followed by chunk n-1, complete the upload with an
   * artifact holding chunk 0 ++ chunk 1 ++ ... ++ chunk n-1.
   */
  lemma UploadInAnyOrder(st: ServerState, session: string, name: string, parts: seq<Bytes>, ds: seq<Delivery>, suffix: string)
    requires session != "" && name != "" && |parts| >= 1
    requires ConsistentWith(ds, parts)
    requires forall j :: 0 <= j < |ds| ==> ds[j].index + 1 != |parts|
    requires forall i :: 0 <= i < |parts| - 1 ==> Delivered(ds, i)
    ensures var n := |parts|;
      var before := UploadAll(st, session, name, n, ds, suffix);
      var (after, r) := Step(before, ChunkRequest(session, name, n, Delivery(n - 1, parts[n - 1])), suffix);
      var finalName := UniqueFileName(name, suffix);
      && r == UploadComplete
      && after.artifacts == st.artifacts[finalName := Flatten(parts)]
      && after.jobs == st.jobs + TranscodeJobs(ArtifactPath(finalName))
  {
    var n := |parts|;
    var last := Delivery(n - 1, parts[n - 1]);
    var all := ds + [last];
    DeliveriesThenLast(ds, parts);
    AssembleInAnyOrder(st.chunks, session, all, parts);
    UploadAllBeforeLast(st, session, name, n, ds, suffix);
    var before := UploadAll(st, session, name, n, ds, suffix);
    ParseToDecimal(n - 1);
    ParseToDecimal(n);
    var req := ChunkRequest(session, name, n, last);
    assert all[..|all| - 1] == ds;
    WrittenChunk(before, req);
    assert Written(before, req).chunks == Deliver(st.chunks, session, all);
    CompletionOnDeclaredLast(before, req, suffix);
    CompletedUpload(before, req, suffix);
  }

  /** Deliveries of chunks 0 .. n-2 followed by chunk n-1 deliver every chunk, consistently. */
  lemma DeliveriesThenLast(ds: seq<Delivery>, parts: seq<Bytes>)
    requires |parts| >= 1 && ConsistentWith(ds, parts)
    requires forall i :: 0 <= i < |parts| - 1 ==> Delivered(ds, i)
    ensures var all := ds + [Delivery(|parts| - 1, parts[|parts| - 1])];
      ConsistentWith(all, parts) && forall i :: 0 <= i < |parts| ==> Delivered(all, i)
  {
    var n := |parts|;
    var all := ds + [Delivery(n - 1, parts[n - 1])];
    forall j | 0 <= j < |all| && all[j].index < n
      ensures all[j].data == parts[all[j].index]
    {
      if j < |ds| { assert all[j] == ds[j]; }
    }
    forall i | 0 <= i < n
      ensures Delivered(all, i)
    {
      if i == n - 1 {
        assert all[|ds|].index == i;
      } else {
        assert Delivered(ds, i);
        var j :| 0 <= j < |ds| && ds[j].index == i;
        assert all[j] == ds[j];
      }
    }
  }

  /**
   * Two chunks where chunk 1 arrives first. Being the declared last chunk it
   * triggers reassembly at once, which fails for want of chunk 0; chunk 0
   * is then only acknowledged, and the upload completes, with chunk 0 ++
   * chunk 1, only when chunk 1 is sent again.
   */
  lemma LastChunkArrivesFirst(st: ServerState, session: string, name: string, c0: Bytes, c1: Bytes, suffix: string)
    requires session != "" && name != ""
    requires forall k :: k in st.chunks ==> k.session != session
    ensures var req1 := ChunkRequest(session, name, 2, Delivery(1, c1));
      var req0 := ChunkRequest(session, name, 2, Delivery(0, c0));
      var (st1, r1) := Step(st, req1, suffix);
      var (st2, r2) := Step(st1, req0, suffix);
      var (st3, r3) := Step(st2, req1, suffix);
      && r1 == UploadFailed && r2 == ChunkAccepted && st2.artifacts == st.artifacts
      && r3 == UploadComplete && st3.artifacts == st.artifacts[UniqueFileName(name, suffix) := c0 + c1]
  {
    var req1 := ChunkRequest(session, name, 2, Delivery(1, c1));
    var req0 := ChunkRequest(session, name, 2, Delivery(0, c0));
    ParseToDecimal(0);
    ParseToDecimal(1);
    ParseToDecimal(2);
    assert SlotKey(session, 0) !in Written(st, req1).chunks;
    CompletionOnDeclaredLast(st, req1, suffix);
    var st1 := Step(st, req1, suffix).0;
    CompletionOnDeclaredLast(st1, req0, suffix);
    var st2 := Step(st1, req0, suffix).0;
    TwoChunksPresent(Written(st2, req1).chunks, session, c0, c1);
    CompletionOnDeclaredLast(st2, req1, suffix);
    CompletedUpload(st2, req1, suffix);
  }

  lemma TwoChunksPresent(store: Chunks, session: string, c0: Bytes, c1: Bytes)
    requires SlotKey(session, 0) in store && store[SlotKey(session, 0)] == c0
    requires SlotKey(session, 1) in store && store[SlotKey(session, 1)] == c1
    ensures AllPresent(store, session, 2) && Flatten(Parts(store, session, 2)) == c0 + c1
  {
    assert Parts(store, session, 2) == [c0, c1];
    assert [c0, c1][1..] == [c1];
    assert [c1][1..] == [];
    assert Flatten([c1]) == c1 + Flatten([]);
    assert Flatten([c0, c1]) == c0 + Flatten([c1]);
  }
}
