/**
 * The chunk controller: its two actions, upload of one chunk and the
 * progress query, over the local disk that holds the chunks and the
 * public disk that receives assembled files. `Upload` and `Assembly` give
 * each action's effect on the two disks as a value; the class holds the
 * disks as fields and its methods perform the same steps in place.
 */
module ChunkController {
  import opened Wrappers
  import opened ChunkNaming
  import opened ChunkStore
  import opened RequestValidation
  import opened UploadProgress

  /** The JSON answers of the two actions. */
  datatype Response =
    | Rejected(fields: set<Field>)              // validation failed on these fields
    | ChunkStored(chunk: int)                   // success, chunk, message
    | FileAssembled(url: string, size: nat)     // success, message, url, size
    | ProgressReport(report: Report)            // uploaded_chunks, total_uploaded

  /** Both disks. */
  datatype State = State(local: Disk, public: FileDisk)

  /**
   * `assembleFile`: truncate the destination, append what reading chunk_1
   * .. chunk_total yields, in that order, then delete the session's
   * directory and answer with the destination's URL and size. Reading a
   * chunk that is not there yields nothing, so the action always succeeds.
   */
  function Assembly(s: State, sessionId: string, filename: string, total: nat, url: string -> string): (State, Response) {
    var dir, final, files := ChunkPath(sessionId), FinalPath(filename), Files(s.local, ChunkPath(sessionId));
    (State(DeleteDirectory(s.local, dir), s.public[final := Concat(files, total)]),
     FileAssembled(url(final), |Concat(files, total)|))
  }

  /**
   * What assembly does to the two disks: the destination, and only it, is
   * (re)written with chunk_1 .. chunk_total in order; the session's
   * directory is gone and every other directory is as it was; the answer
   * carries the destination's URL and the chunks' total size.
   */
  lemma AssemblyEffect(s: State, sessionId: string, filename: string, total: nat, url: string -> string)
    ensures var result := Assembly(s, sessionId, filename, total, url);
      var dir, final, files := ChunkPath(sessionId), FinalPath(filename), Files(s.local, ChunkPath(sessionId));
      && result.0.public.Keys == s.public.Keys + {final}
      && (forall p :: p != final && p in s.public ==> result.0.public[p] == s.public[p])
      && result.0.public[final] == Concat(files, total)
      && dir !in result.0.local
      && (forall d :: d != dir ==> Files(result.0.local, d) == Files(s.local, d))
      && result.1 == FileAssembled(url(final), ChunkBytes(files, total))
  {
    ConcatSize(Files(s.local, ChunkPath(sessionId)), total);
  }

  /**
   * `uploadChunk`: validate, store the chunk under its session's
   * directory, then assemble when the directory holds exactly
   * `total_chunks` files, and otherwise acknowledge the chunk.
   */
  function Upload(s: State, req: ChunkRequest, url: string -> string): (State, Response) {
    match ValidateChunk(req)
    case Failure(fields) => (s, Rejected(fields))
    case Success(u) =>
      var dir := ChunkPath(u.sessionId);
      var stored := Put(s.local, dir, ChunkName(u.chunkNumber), u.data);
      if FileCount(stored, dir) == u.totalChunks then
        Assembly(State(stored, s.public), u.sessionId, u.filename, u.totalChunks, url)
      else
        (State(stored, s.public), ChunkStored(u.chunkNumber))
  }

  /**
   * What an upload does: an invalid request is rejected with exactly its
   * failing fields and changes nothing; a valid one always stores its
   * chunk, and is acknowledged unless the session's file count then equals
   * `total_chunks`, in which case the answer is assembly's.
   */
  lemma UploadEffect(s: State, req: ChunkRequest, url: string -> string)
    ensures var result := Upload(s, req, url);
      && (result.1.Rejected? <==> ValidateChunk(req).Failure?)
      && (result.1.Rejected? ==> result.0 == s && result.1.fields == ValidateChunk(req).error)
      && (ValidateChunk(req).Success? ==>
            var u := ValidateChunk(req).value;
            var dir := ChunkPath(u.sessionId);
            var stored := Put(s.local, dir, ChunkName(u.chunkNumber), u.data);
            && (result.1.ChunkStored? <==> FileCount(stored, dir) != u.totalChunks)
            && (result.1.ChunkStored? ==> result == (State(stored, s.public), ChunkStored(u.chunkNumber)))
            && (result.1.FileAssembled? <==> FileCount(stored, dir) == u.totalChunks)
            && (FileCount(stored, dir) == u.totalChunks ==>
                  result == Assembly(State(stored, s.public), u.sessionId, u.filename, u.totalChunks, url)))
  {
  }

  /** `getProgress`: validate `session_id`, then report the session's stored chunk numbers. */
  ghost function ProgressQuery(local: Disk, sessionId: Option<string>): (r: Response)
    ensures r.Rejected? <==> !RequiredString(sessionId)
    ensures r.Rejected? ==> r.fields == {SessionIdField}
    ensures !r.Rejected? ==> r.ProgressReport? && r.report == Progress(local, sessionId.value)
    ensures !r.Rejected? && ChunkPath(sessionId.value) !in local ==> r == ProgressReport(Report([], 0))
  {
    match ValidateProgress(sessionId)
    case Failure(fields) => Rejected(fields)
    case Success(sid) => ProgressReport(Progress(local, sid))
  }

  class FileChunkController {
    /** The local disk, where `temp/chunks/<session>` directories live. */
    var localDisk: Disk
    /** The public disk, where `uploads/<filename>` files are assembled. */
    var publicDisk: FileDisk
    /** The public disk's URL for a path. */
    const url: string -> string

    constructor (local: Disk, public: FileDisk, url: string -> string)
      ensures localDisk == local && publicDisk == public && this.url == url
    {
      localDisk := local;
      publicDisk := public;
      this.url := url;
    }

    /** `hasAllChunks`: the session's directory lists exactly expectedTotal files. */
    function HasAllChunks(sessionId: string, expectedTotal: int): (r: bool)
      reads this
      ensures r <==> |ListFiles(Files(localDisk, ChunkPath(sessionId)))| == expectedTotal
    {
      FileCount(localDisk, ChunkPath(sessionId)) == expectedTotal
    }

    method AssembleFile(sessionId: string, filename: string, totalChunks: nat) returns (resp: Response)
      modifies this
      ensures (State(localDisk, publicDisk), resp) ==
              Assembly(old(State(localDisk, publicDisk)), sessionId, filename, totalChunks, url)
    {
      var chunkPath := ChunkPath(sessionId);
      var finalPath := FinalPath(filename);
      ghost var files := Files(localDisk, chunkPath);
      publicDisk := publicDisk[finalPath := []];
      for i := 1 to totalChunks + 1
        invariant localDisk == old(localDisk)
        invariant publicDisk == old(publicDisk)[finalPath := Concat(files, i - 1)]
      {
        var chunkContent := ReadChunk(Files(localDisk, chunkPath), i);
        publicDisk := publicDisk[finalPath := publicDisk[finalPath] + chunkContent];
      }
      localDisk := DeleteDirectory(localDisk, chunkPath);
      resp := FileAssembled(url(finalPath), |publicDisk[finalPath]|);
    }

    method UploadChunk(req: ChunkRequest) returns (resp: Response)
      modifies this
      ensures (State(localDisk, publicDisk), resp) == Upload(old(State(localDisk, publicDisk)), req, url)
    {
      var validated := ValidateChunk(req);
      if validated.Failure? {
        return Rejected(validated.error);
      }
      var u := validated.value;
      var chunkPath := ChunkPath(u.sessionId);
      localDisk := Put(localDisk, chunkPath, ChunkName(u.chunkNumber), u.data);
      if HasAllChunks(u.sessionId, u.totalChunks) {
        resp := AssembleFile(u.sessionId, u.filename, u.totalChunks);
      } else {
        resp := ChunkStored(u.chunkNumber);
      }
    }

    /** `getProgress` on the current local disk; reads only. */
    ghost function GetProgress(sessionId: Option<string>): (r: Response)
      reads this
      ensures r.Rejected? <==> !RequiredString(sessionId)
      ensures !r.Rejected? ==> r == ProgressReport(Progress(localDisk, sessionId.value))
    {
      ProgressQuery(localDisk, sessionId)
    }
  }
}
