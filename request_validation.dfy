/**
 * The validation rules the chunk controller's two actions apply before
 * they touch storage. A field the request lacks, or whose value is not of
 * the rule's type, is None.
 */
module RequestValidation {
  import opened Wrappers
  import opened ChunkStore

  /** Largest value the `integer` rule accepts (a 64-bit PHP integer). */
  const PHP_INT_MAX: int := 0x7FFF_FFFF_FFFF_FFFF
  /** Limit stated by `max:255` on the string fields. */
  const MAX_STRING_LENGTH: nat := 255

  datatype Field = SessionIdField | ChunkNumberField | TotalChunksField | ChunkField | FilenameField

  /** The form fields of a chunk upload. */
  datatype ChunkRequest = ChunkRequest(
    sessionId: Option<string>,
    chunkNumber: Option<int>,
    totalChunks: Option<int>,
    chunk: Option<Bytes>,
    filename: Option<string>)

  /** A chunk upload that passed validation. */
  datatype ChunkUpload = ChunkUpload(
    sessionId: string,
    chunkNumber: nat,
    totalChunks: nat,
    data: Bytes,
    filename: string)

  /** The characters PHP's trim() removes. */
  predicate Trimmable(c: char) {
    c == ' ' || c == '\t' || c == '\n' || c == '\r' || c as int == 0 || c as int == 11
  }

  /** A string that `required` treats as missing: nothing left after trimming. */
  predicate Blank(s: string) {
    forall i :: 0 <= i < |s| ==> Trimmable(s[i])
  }

  /** `required|string|max:255` */
  predicate RequiredString(v: Option<string>) {
    v.Some? && !Blank(v.value) && |v.value| <= MAX_STRING_LENGTH
  }

  /** `required|integer|min:1` */
  predicate PositiveInteger(v: Option<int>) {
    v.Some? && 1 <= v.value <= PHP_INT_MAX
  }

  /** Whether field f of req satisfies its rule. */
  predicate Passes(req: ChunkRequest, f: Field) {
    match f
    case SessionIdField => RequiredString(req.sessionId)
    case ChunkNumberField => PositiveInteger(req.chunkNumber)
    case TotalChunksField => PositiveInteger(req.totalChunks)
    case ChunkField => req.chunk.Some?
    case FilenameField => RequiredString(req.filename)
  }

  function Check(ok: bool, f: Field): set<Field> {
    if ok then {} else {f}
  }

  /**
   * The validation of an upload: every field's rule is checked and either
   * all pass, giving the validated values, or the failing fields are
   * reported together.
   */
  function ValidateChunk(req: ChunkRequest): (r: Result<ChunkUpload, set<Field>>)
    ensures r.Success? <==> forall f :: Passes(req, f)
    ensures r.Success? ==>
      && Some(r.value.sessionId) == req.sessionId
      && Some(r.value.chunkNumber as int) == req.chunkNumber
      && Some(r.value.totalChunks as int) == req.totalChunks
      && Some(r.value.data) == req.chunk
      && Some(r.value.filename) == req.filename
      && 1 <= r.value.chunkNumber && 1 <= r.value.totalChunks
    ensures r.Failure? ==> r.error != {} && forall f :: f in r.error <==> !Passes(req, f)
  {
    var failing :=
      Check(RequiredString(req.sessionId), SessionIdField) +
      Check(PositiveInteger(req.chunkNumber), ChunkNumberField) +
      Check(PositiveInteger(req.totalChunks), TotalChunksField) +
      Check(req.chunk.Some?, ChunkField) +
      Check(RequiredString(req.filename), FilenameField);
    assert forall f :: f in failing <==> !Passes(req, f);
    if failing == {} then
      Success(ChunkUpload(req.sessionId.value, req.chunkNumber.value, req.totalChunks.value,
                          req.chunk.value, req.filename.value))
    else
      assert exists f :: !Passes(req, f);
      Failure(failing)
  }

  /** The validation of a progress query: only `session_id`, by the same rule. */
  function ValidateProgress(sessionId: Option<string>): (r: Result<string, set<Field>>)
    ensures r.Success? <==> RequiredString(sessionId)
    ensures r.Success? ==> Some(r.value) == sessionId
    ensures r.Failure? ==> r.error == {SessionIdField}
  {
    if RequiredString(sessionId) then Success(sessionId.value) else Failure({SessionIdField})
  }
}
