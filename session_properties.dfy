/**
 * Properties of whole upload sessions: a client splits a file into pieces
 * and sends them as chunks 1..n, in any order. These lemmas relate a run of
 * `Upload` actions to what the client sent.
 */
module SessionProperties {
  import opened Wrappers
  import opened ChunkNaming
  import opened ChunkStore
  import opened RequestValidation
  import opened UploadProgress
  import opened ChunkController

  /** The form a client sends for piece n of a file split into total pieces. */
  function ChunkUploadRequest(sessionId: string, n: int, total: int, data: Bytes, filename: string): ChunkRequest {
    ChunkRequest(Some(sessionId), Some(n), Some(total), Some(data), Some(filename))
  }

  /** The file a client split into the pieces cs. */
  function Flatten(cs: seq<Bytes>): Bytes {
    if cs == [] then [] else Flatten(cs[..|cs| - 1]) + cs[|cs| - 1]
  }

  /** The chunk numbers 1..n, each once, in the order they arrive. */
  ghost predicate IsArrivalOrder(order: seq<nat>, n: nat) {
    && |order| == n
    && (forall i, j :: 0 <= i < j < |order| ==> order[i] != order[j])
    && (forall i :: 0 <= i < |order| ==> 1 <= order[i] <= n)
  }

  /** A session id, file name and piece count that the upload rules accept. */
  ghost predicate AcceptedUpload(sessionId: string, filename: string, cs: seq<Bytes>) {
    RequiredString(Some(sessionId)) && RequiredString(Some(filename)) && 1 <= |cs| <= PHP_INT_MAX
  }

  /** Piece k of cs, numbered from 1; nothing for a number outside 1..|cs|. */
  function Piece(cs: seq<Bytes>, k: nat): Bytes {
    if 1 <= k <= |cs| then cs[k - 1] else []
  }

  /** Sending pieces cs of one file as the chunks in order, one after another, starting in state s. */
  function RunOrder(s: State, sessionId: string, filename: string, order: seq<nat>, cs: seq<Bytes>, url: string -> string): (run: (State, seq<Response>))
    ensures |run.1| == |order|
  {
    if order == [] then (s, []) else
      var k := order[|order| - 1];
      var before := RunOrder(s, sessionId, filename, order[..|order| - 1], cs, url);
      var step := Upload(before.0, ChunkUploadRequest(sessionId, k, |cs|, Piece(cs, k), filename), url);
      (step.0, before.1 + [step.1])
  }

  /** The chunk directory after the chunks in order have arrived, each holding its piece. */
  ghost function Stored(order: seq<nat>, cs: seq<Bytes>): Dir {
    if order == [] then map[] else
      var k := order[|order| - 1];
      Stored(order[..|order| - 1], cs)[ChunkName(k) := Piece(cs, k)]
  }

  /** One acknowledgement per chunk sent, in order. */
  function Acks(order: seq<nat>): (r: seq<Response>)
    ensures |r| == |order|
  {
    if order == [] then [] else Acks(order[..|order| - 1]) + [ChunkStored(order[|order| - 1])]
  }

  lemma {:induction false} AcksAt(order: seq<nat>)
    ensures forall i :: 0 <= i < |order| ==> Acks(order)[i] == ChunkStored(order[i])
  {
    if order != [] {
      var prefix := order[..|order| - 1];
      AcksAt(prefix);
      forall i | 0 <= i < |order| ensures Acks(order)[i] == ChunkStored(order[i]) {
        if i < |prefix| {
          assert Acks(order)[i] == Acks(prefix)[i];
        }
      }
    }
  }

  /** The directory has chunk k exactly when k arrived, and then holds piece k there. */
  lemma {:induction false} StoredContent(order: seq<nat>, cs: seq<Bytes>)
    requires forall i :: 0 <= i < |order| ==> 1 <= order[i] <= |cs|
    ensures forall k: nat :: HasChunk(Stored(order, cs), k) <==> k in order
    ensures forall k: nat :: HasChunk(Stored(order, cs), k) ==> 1 <= k <= |cs| && Stored(order, cs)[ChunkName(k)] == cs[k - 1]
  {
    if order != [] {
      var last, prefix := order[|order| - 1], order[..|order| - 1];
      StoredContent(prefix, cs);
      assert order == prefix + [last];
      forall k: nat ensures HasChunk(Stored(order, cs), k) <==> k in order {
        if ChunkName(k) == ChunkName(last) {
          ChunkNameInjective(k, last);
        }
      }
      forall k: nat | HasChunk(Stored(order, cs), k)
        ensures 1 <= k <= |cs| && Stored(order, cs)[ChunkName(k)] == cs[k - 1]
      {
        if ChunkName(k) == ChunkName(last) {
          ChunkNameInjective(k, last);
        }
      }
    }
  }

  /** Every file of the directory is chunk_k for some k in 1..|cs|. */
  lemma {:induction false} StoredNames(order: seq<nat>, cs: seq<Bytes>)
    requires forall i :: 0 <= i < |order| ==> 1 <= order[i] <= |cs|
    ensures OnlyChunksUpTo(Stored(order, cs), |cs|)
    ensures OnlyChunkFiles(Stored(order, cs))
  {
    if order != [] {
      var last, prefix := order[|order| - 1], order[..|order| - 1];
      StoredNames(prefix, cs);
      assert ChunkName(last) in ChunkNames(|cs|);
      assert IsChunkName(ChunkName(last));
    }
  }

  /** With distinct chunk numbers, the directory has one file per arrival. */
  lemma {:induction false} StoredSize(order: seq<nat>, cs: seq<Bytes>)
    requires forall i :: 0 <= i < |order| ==> 1 <= order[i] <= |cs|
    requires forall i, j :: 0 <= i < j < |order| ==> order[i] != order[j]
    ensures |Stored(order, cs)| == |order|
  {
    if order != [] {
      var last, prefix := order[|order| - 1], order[..|order| - 1];
      StoredSize(prefix, cs);
      StoredContent(prefix, cs);
      assert last !in prefix;
    }
  }

  /** The assembled bytes of a directory holding piece k as chunk_k are the pieces joined in index order. */
  lemma {:induction false} ConcatOfPieces(files: Dir, cs: seq<Bytes>, k: nat)
    requires k <= |cs|
    requires forall i :: 1 <= i <= k ==> ReadChunk(files, i) == cs[i - 1]
    ensures Concat(files, k) == Flatten(cs[..k])
  {
    if k > 0 {
      ConcatOfPieces(files, cs, k - 1);
      assert cs[..k][..k - 1] == cs[..k - 1];
    } else {
      assert cs[..0] == [];
    }
  }

  /** A request whose every field passes: a chunk number and a total within the integer rule. */
  ghost predicate WellFormed(sessionId: string, filename: string, k: int, total: int) {
    RequiredString(Some(sessionId)) && RequiredString(Some(filename)) &&
    1 <= k <= PHP_INT_MAX && 1 <= total <= PHP_INT_MAX
  }

  /** An accepted chunk that leaves the count short of total is stored and acknowledged. */
  lemma UploadAcknowledged(s: State, sessionId: string, filename: string, k: int, total: int, data: Bytes, url: string -> string)
    requires WellFormed(sessionId, filename, k, total)
    requires FileCount(Put(s.local, ChunkPath(sessionId), ChunkName(k), data), ChunkPath(sessionId)) != total
    ensures Upload(s, ChunkUploadRequest(sessionId, k, total, data, filename), url) ==
      (State(Put(s.local, ChunkPath(sessionId), ChunkName(k), data), s.public), ChunkStored(k))
  {
    var req := ChunkUploadRequest(sessionId, k, total, data, filename);
    assert forall f :: Passes(req, f);
  }

  /** An accepted chunk that brings the count to total triggers assembly. */
  lemma UploadCompletes(s: State, sessionId: string, filename: string, k: int, total: int, data: Bytes, url: string -> string)
    requires WellFormed(sessionId, filename, k, total)
    requires FileCount(Put(s.local, ChunkPath(sessionId), ChunkName(k), data), ChunkPath(sessionId)) == total
    ensures Upload(s, ChunkUploadRequest(sessionId, k, total, data, filename), url) ==
      Assembly(State(Put(s.local, ChunkPath(sessionId), ChunkName(k), data), s.public), sessionId, filename, total, url)
  {
    var req := ChunkUploadRequest(sessionId, k, total, data, filename);
    assert forall f :: Passes(req, f);
  }

  /** The local disk t differs from s in directory dir at most. */
  ghost predicate OnlySessionChanged(s: Disk, t: Disk, dir: string) {
    t.Keys - {dir} == s.Keys - {dir} && forall d :: d != dir ==> Files(t, d) == Files(s, d)
  }

  lemma PutChangesOnlySession(s: Disk, t: Disk, dir: string, name: string, data: Bytes)
    requires OnlySessionChanged(s, t, dir)
    ensures OnlySessionChanged(s, Put(t, dir, name, data), dir)
  {
  }

  /** Deleting the session's directory restores a disk on which it did not exist. */
  lemma DeleteRestores(s: Disk, t: Disk, dir: string)
    requires OnlySessionChanged(s, t, dir) && dir !in s
    ensures DeleteDirectory(t, dir) == s
  {
    var r := DeleteDirectory(t, dir);
    assert r.Keys == s.Keys;
    forall d | d in s ensures r[d] == s[d] {
      assert Files(r, d) == Files(s, d);
    }
  }

  /**
   * The outcome of sending the chunks `sent` to a session that did not
   * exist in s: each was acknowledged, the public disk is untouched, and the
   * local disk differs only in the session's directory, which holds exactly
   * the chunks sent.
   */
  ghost predicate Acknowledged(s: State, run: (State, seq<Response>), dir: string, sent: seq<nat>, cs: seq<Bytes>) {
    && run.0.public == s.public
    && Files(run.0.local, dir) == Stored(sent, cs)
    && OnlySessionChanged(s.local, run.0.local, dir)
    && run.1 == Acks(sent)
  }

  /** Storing one more piece and acknowledging it keeps Acknowledged. */
  lemma AcknowledgedPut(s: State, before: (State, seq<Response>), dir: string, sent: seq<nat>, k: nat, cs: seq<Bytes>)
    requires Acknowledged(s, before, dir, sent, cs)
    ensures Acknowledged(s, (State(Put(before.0.local, dir, ChunkName(k), Piece(cs, k)), before.0.public), before.1 + [ChunkStored(k)]),
                         dir, sent + [k], cs)
  {
    var next := sent + [k];
    assert next[..|next| - 1] == sent;
    PutChangesOnlySession(s.local, before.0.local, dir, ChunkName(k), Piece(cs, k));
  }

  /**
   * Until the last chunk arrives, a fresh session acknowledges each chunk,
   * and the local disk differs only in the session's directory, which holds
   * exactly the chunks sent so far; the public disk is untouched.
   */
  lemma {:induction false} UploadsBeforeLast(s: State, sessionId: string, filename: string, order: seq<nat>, cs: seq<Bytes>, url: string -> string, j: nat)
    requires AcceptedUpload(sessionId, filename, cs)
    requires ChunkPath(sessionId) !in s.local
    requires IsArrivalOrder(order, |cs|)
    requires j < |cs|
    ensures Acknowledged(s, RunOrder(s, sessionId, filename, order[..j], cs, url), ChunkPath(sessionId), order[..j], cs)
  {
    if j == 0 {
      assert order[..0] == [];
    } else {
      var dir := ChunkPath(sessionId);
      UploadsBeforeLast(s, sessionId, filename, order, cs, url, j - 1);
      var sent, k := order[..j - 1], order[j - 1];
      assert order[..j] == sent + [k];
      assert (sent + [k])[..j - 1] == sent;
      var before := RunOrder(s, sessionId, filename, sent, cs, url);
      StoredSize(sent, cs);
      StoredContent(sent, cs);
      assert !HasChunk(Files(before.0.local, dir), k);
      UploadAcknowledged(before.0, sessionId, filename, k, |cs|, Piece(cs, k), url);
      AcknowledgedPut(s, before, dir, sent, k, cs);
    }
  }

  /** When every piece has arrived, the directory's chunks in index order are the client's file. */
  lemma StoredAssembles(order: seq<nat>, cs: seq<Bytes>)
    requires IsArrivalOrder(order, |cs|)
    ensures Concat(Stored(order, cs), |cs|) == Flatten(cs)
  {
    var files := Stored(order, cs);
    StoredSize(order, cs);
    StoredNames(order, cs);
    StoredContent(order, cs);
    CountMeansAllPresent(files, |cs|);
    forall i | 1 <= i <= |cs| ensures ReadChunk(files, i) == cs[i - 1] {
      assert HasChunk(files, i);
    }
    ConcatOfPieces(files, cs, |cs|);
    assert cs[..|cs|] == cs;
  }

  /** Storing the last new chunk leaves every piece in the session's directory. */
  lemma LastChunkStored(s: State, before: (State, seq<Response>), dir: string, order: seq<nat>, cs: seq<Bytes>)
    requires IsArrivalOrder(order, |cs|) && |cs| >= 1
    requires Acknowledged(s, before, dir, order[..|cs| - 1], cs)
    ensures var k := order[|cs| - 1];
      var stored := Put(before.0.local, dir, ChunkName(k), Piece(cs, k));
      && Files(stored, dir) == Stored(order, cs)
      && FileCount(stored, dir) == |cs|
      && OnlySessionChanged(s.local, stored, dir)
  {
    var sent, k := order[..|cs| - 1], order[|cs| - 1];
    assert order == sent + [k];
    AcknowledgedPut(s, before, dir, sent, k, cs);
    StoredSize(order, cs);
  }

  /** The last new chunk of a fresh session assembles the client's file and restores the local disk. */
  lemma LastUploadAssembles(s: State, before: (State, seq<Response>), sessionId: string, filename: string, order: seq<nat>, cs: seq<Bytes>, url: string -> string)
    requires AcceptedUpload(sessionId, filename, cs)
    requires ChunkPath(sessionId) !in s.local
    requires IsArrivalOrder(order, |cs|)
    requires Acknowledged(s, before, ChunkPath(sessionId), order[..|cs| - 1], cs)
    ensures var k := order[|cs| - 1];
      Upload(before.0, ChunkUploadRequest(sessionId, k, |cs|, Piece(cs, k), filename), url) ==
        (State(s.local, s.public[FinalPath(filename) := Flatten(cs)]), FileAssembled(url(FinalPath(filename)), |Flatten(cs)|))
  {
    var n, dir, k := |cs|, ChunkPath(sessionId), order[|cs| - 1];
    var stored := Put(before.0.local, dir, ChunkName(k), Piece(cs, k));
    LastChunkStored(s, before, dir, order, cs);
    UploadCompletes(before.0, sessionId, filename, k, n, Piece(cs, k), url);
    StoredAssembles(order, cs);
    DeleteRestores(s.local, stored, dir);
  }

  /**
   * Whatever order the chunks of a fresh session arrive in, every chunk but
   * the last is acknowledged in turn, the last one publishes the client's
   * file exactly, and the local disk is left as it was.
   */
  lemma AnyArrivalOrderAssembles(s: State, sessionId: string, filename: string, order: seq<nat>, cs: seq<Bytes>, url: string -> string)
    requires AcceptedUpload(sessionId, filename, cs)
    requires ChunkPath(sessionId) !in s.local
    requires IsArrivalOrder(order, |cs|)
    ensures RunOrder(s, sessionId, filename, order, cs, url) ==
      (State(s.local, s.public[FinalPath(filename) := Flatten(cs)]),
       Acks(order[..|cs| - 1]) + [FileAssembled(url(FinalPath(filename)), |Flatten(cs)|)])
  {
    var n := |cs|;
    var sent, k := order[..n - 1], order[n - 1];
    UploadsBeforeLast(s, sessionId, filename, order, cs, url, n - 1);
    var before := RunOrder(s, sessionId, filename, sent, cs, url);
    LastUploadAssembles(s, before, sessionId, filename, order, cs, url);
  }

  /** After a complete session, nothing of it is left to report: progress is empty again. */
  lemma SessionLeavesNoProgress(s: State, sessionId: string, filename: string, order: seq<nat>, cs: seq<Bytes>, url: string -> string)
    requires AcceptedUpload(sessionId, filename, cs)
    requires ChunkPath(sessionId) !in s.local
    requires IsArrivalOrder(order, |cs|)
    ensures Progress(RunOrder(s, sessionId, filename, order, cs, url).0.local, sessionId) == Report([], 0)
  {
    AnyArrivalOrderAssembles(s, sessionId, filename, order, cs, url);
  }

  /**
   * While a fresh session is incomplete, progress lists exactly the chunk
   * numbers received so far, each once and ascending.
   */
  lemma ProgressWhileUploading(s: State, sessionId: string, filename: string, order: seq<nat>, cs: seq<Bytes>, url: string -> string, j: nat)
    requires AcceptedUpload(sessionId, filename, cs)
    requires ChunkPath(sessionId) !in s.local
    requires IsArrivalOrder(order, |cs|)
    requires 0 < j < |cs|
    ensures var r := Progress(RunOrder(s, sessionId, filename, order[..j], cs, url).0.local, sessionId);
      && (forall k: nat :: k in r.uploadedChunks <==> k in order[..j])
      && StrictlySorted(r.uploadedChunks)
      && r.totalUploaded == j
  {
    UploadsBeforeLast(s, sessionId, filename, order, cs, url, j);
    var local := RunOrder(s, sessionId, filename, order[..j], cs, url).0.local;
    var dir := ChunkPath(sessionId);
    StoredContent(order[..j], cs);
    StoredNames(order[..j], cs);
    StoredSize(order[..j], cs);
    assert order[0] in order[..j];
    assert HasChunk(Files(local, dir), order[0]);
    ProgressOfChunkFiles(local, sessionId);
    var r := Progress(local, sessionId);
    forall k: nat ensures k in r.uploadedChunks <==> k in order[..j] {
      if k in order[..j] {
        var i :| 0 <= i < j && order[..j][i] == k;
        assert k >= 1;
      }
    }
  }

  /**
   * Re-sending a chunk before the session completes replaces its content:
   * the later upload's outcome is the same as if the earlier one had never
   * happened, and the file count does not grow.
   */
  lemma ReuploadReplaces(s: State, first: ChunkRequest, second: ChunkRequest, url: string -> string)
    requires ValidateChunk(first).Success? && ValidateChunk(second).Success?
    requires first.sessionId == second.sessionId && first.chunkNumber == second.chunkNumber
    requires Upload(s, first, url).1.ChunkStored?
    ensures Upload(Upload(s, first, url).0, second, url) == Upload(s, second, url)
    ensures var dir := ChunkPath(first.sessionId.value);
      FileCount(Upload(Upload(s, first, url).0, second, url).0.local, dir) == FileCount(Upload(s, first, url).0.local, dir)
        || Upload(Upload(s, first, url).0, second, url).1.FileAssembled?
  {
    var u1, u2 := ValidateChunk(first).value, ValidateChunk(second).value;
    var dir, name := ChunkPath(u1.sessionId), ChunkName(u1.chunkNumber);
    PutOverwrites(s.local, dir, name, u1.data, u2.data);
  }

  /** After an upload completes a session, a progress query for it finds nothing. */
  lemma ProgressEmptyAfterAssembly(s: State, req: ChunkRequest, url: string -> string)
    requires Upload(s, req, url).1.FileAssembled?
    ensures ProgressQuery(Upload(s, req, url).0.local, req.sessionId) == ProgressReport(Report([], 0))
  {
    var u := ValidateChunk(req).value;
    var dir := ChunkPath(u.sessionId);
    var stored := Put(s.local, dir, ChunkName(u.chunkNumber), u.data);
    assert Upload(s, req, url) == Assembly(State(stored, s.public), u.sessionId, u.filename, u.totalChunks, url);
  }

  /** chunk_5, chunk_2 and chunk_3 are three different names. */
  lemma GapNames()
    ensures ChunkName(1) == "chunk_1" && ChunkName(2) == "chunk_2" && ChunkName(3) == "chunk_3" && ChunkName(5) == "chunk_5"
  {
  }

  /** The directory the three uploads of the gap scenario leave, file by file. */
  lemma GapDirectory(local: Disk, dir: string, a: Bytes, b: Bytes, c: Bytes)
    requires dir !in local
    ensures var d1 := Put(local, dir, ChunkName(5), a);
      var d2 := Put(d1, dir, ChunkName(2), b);
      var d3 := Put(d2, dir, ChunkName(3), c);
      && FileCount(d1, dir) == 1 && FileCount(d2, dir) == 2 && FileCount(d3, dir) == 3
      && Files(d3, dir) == map[ChunkName(5) := a, ChunkName(2) := b, ChunkName(3) := c]
      && OnlySessionChanged(local, d3, dir)
  {
    GapNames();
    var d1 := Put(local, dir, ChunkName(5), a);
    var d2 := Put(d1, dir, ChunkName(2), b);
    assert OnlySessionChanged(local, d1, dir);
    PutChangesOnlySession(local, d1, dir, ChunkName(2), b);
    PutChangesOnlySession(local, d2, dir, ChunkName(3), c);
  }

  /** Assembling chunks 2, 3 and 5 for a total of three reads nothing for chunk 1. */
  lemma GapConcat(a: Bytes, b: Bytes, c: Bytes)
    ensures Concat(map[ChunkName(5) := a, ChunkName(2) := b, ChunkName(3) := c], 3) == b + c
  {
    GapNames();
    var files := map[ChunkName(5) := a, ChunkName(2) := b, ChunkName(3) := c];
    assert ReadChunk(files, 1) == [];
    assert ReadChunk(files, 2) == b;
    assert ReadChunk(files, 3) == c;
    assert Concat(files, 1) == [];
  }

  /**
   * Completion counts files and does not check their numbers: chunks 5, 2
   * and 3 of a declared three-chunk file are all accepted, the third makes
   * the count reach three, and the published file is chunk 2's bytes
   * followed by chunk 3's, with no chunk 1, while chunk 5 is deleted unread.
   */
  lemma CountOnlyCompletionPublishesGap(s: State, sessionId: string, filename: string, url: string -> string, a: Bytes, b: Bytes, c: Bytes)
    requires RequiredString(Some(sessionId)) && RequiredString(Some(filename))
    requires ChunkPath(sessionId) !in s.local
    ensures var r1 := Upload(s, ChunkUploadRequest(sessionId, 5, 3, a, filename), url);
      var r2 := Upload(r1.0, ChunkUploadRequest(sessionId, 2, 3, b, filename), url);
      var r3 := Upload(r2.0, ChunkUploadRequest(sessionId, 3, 3, c, filename), url);
      && r1.1 == ChunkStored(5) && r2.1 == ChunkStored(2)
      && r3.1 == FileAssembled(url(FinalPath(filename)), |b| + |c|)
      && r3.0.public == s.public[FinalPath(filename) := b + c]
      && r3.0.local == s.local
  {
    var dir := ChunkPath(sessionId);
    GapDirectory(s.local, dir, a, b, c);
    var d1 := Put(s.local, dir, ChunkName(5), a);
    var d2 := Put(d1, dir, ChunkName(2), b);
    var d3 := Put(d2, dir, ChunkName(3), c);
    UploadAcknowledged(s, sessionId, filename, 5, 3, a, url);
    UploadAcknowledged(State(d1, s.public), sessionId, filename, 2, 3, b, url);
    UploadCompletes(State(d2, s.public), sessionId, filename, 3, 3, c, url);
    GapConcat(a, b, c);
    ConcatSize(Files(d3, dir), 3);
    DeleteRestores(s.local, d3, dir);
  }
}
