/**
 * Assembly as the storage layer actually performs it. The public disk's
 * `append(path, data)` writes a separator (PHP_EOL, a line feed) between
 * the existing content and data, so after `put(final, '')` every appended
 * chunk is preceded by a line feed. The rest of the model uses the plain
 * concatenation `Concat`; this module states the difference.
 */
module AppendSeparator {
  import opened ChunkStore

  /** PHP_EOL on the server: a line feed. */
  const PHP_EOL: Bytes := [0x0A]

  /**
   * `append(path, data)`: an existing file becomes its content, the
   * separator and data; a missing one is created holding data.
   */
  function Append(disk: FileDisk, path: string, data: Bytes): (r: FileDisk)
    ensures r.Keys == disk.Keys + {path}
    ensures forall p :: p in disk && p != path ==> r[p] == disk[p]
    ensures path in disk ==> r[path] == disk[path] + PHP_EOL + data
    ensures path !in disk ==> r[path] == data
  {
    if path in disk then disk[path := disk[path] + PHP_EOL + data] else disk[path := data]
  }

  /** The public disk after `put(final, '')` and the appends of chunk_1 .. chunk_k, in order. */
  function AppendChunks(disk: FileDisk, final: string, files: Dir, k: nat): FileDisk {
    if k == 0 then disk[final := []] else Append(AppendChunks(disk, final, files, k - 1), final, ReadChunk(files, k))
  }

  /** The destination's bytes as written: each chunk preceded by a line feed. */
  function AssembledAsWritten(files: Dir, k: nat): Bytes {
    if k == 0 then [] else AssembledAsWritten(files, k - 1) + PHP_EOL + ReadChunk(files, k)
  }

  /** The append loop leaves the destination holding AssembledAsWritten and touches no other file. */
  lemma {:induction false} AppendChunksWrites(disk: FileDisk, final: string, files: Dir, k: nat)
    ensures final in AppendChunks(disk, final, files, k)
    ensures AppendChunks(disk, final, files, k)[final] == AssembledAsWritten(files, k)
    ensures AppendChunks(disk, final, files, k).Keys == disk.Keys + {final}
    ensures forall p :: p in disk && p != final ==> AppendChunks(disk, final, files, k)[p] == disk[p]
  {
    if k > 0 {
      AppendChunksWrites(disk, final, files, k - 1);
    }
  }

  /** The file as written is one byte per chunk longer than the chunks together. */
  lemma {:induction false} AsWrittenSize(files: Dir, k: nat)
    ensures |AssembledAsWritten(files, k)| == ChunkBytes(files, k) + k
  {
    if k > 0 {
      AsWrittenSize(files, k - 1);
    }
  }

  /** So, for any session of at least one chunk, the file as written is not the chunks' concatenation. */
  lemma AsWrittenIsNotConcat(files: Dir, k: nat)
    requires k >= 1
    ensures AssembledAsWritten(files, k) != Concat(files, k)
    ensures |AssembledAsWritten(files, k)| == |Concat(files, k)| + k
  {
    AsWrittenSize(files, k);
    ConcatSize(files, k);
  }

  /** A one-chunk file holding "A" is published as a line feed followed by "A". */
  lemma OneChunkAsWritten()
    ensures var files: Dir := map[ChunkNaming.ChunkName(1) := [0x41]];
      AssembledAsWritten(files, 1) == [0x0A, 0x41] && Concat(files, 1) == [0x41]
  {
    var files: Dir := map[ChunkNaming.ChunkName(1) := [0x41]];
    assert ReadChunk(files, 1) == [0x41];
  }
}
