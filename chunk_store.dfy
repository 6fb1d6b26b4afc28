/**
 * The two storage disks as values. The local disk maps a directory path
 * to the files directly inside it (file name to content); the chunk
 * controller keeps one such directory per session. The public disk maps
 * a path to a file's content. Also here: the count that decides
 * completion, the ordered concatenation that assembly produces, and how
 * the count-only rule relates to "every chunk 1..total is present".
 */
module ChunkStore {
  import opened ChunkNaming

  type Bytes = seq<bv8>
  /** The files of one directory: name to content. */
  type Dir = map<string, Bytes>
  /** The local disk: directory path to its files. */
  type Disk = map<string, Dir>
  /** The public disk: path to content. */
  type FileDisk = map<string, Bytes>

  /** The files directly in directory dir; none when the directory does not exist. */
  function Files(disk: Disk, dir: string): Dir {
    if dir in disk then disk[dir] else map[]
  }

  /** `count(files(dir))`: how many files the directory lists. */
  function FileCount(disk: Disk, dir: string): nat {
    |Files(disk, dir)|
  }

  /**
   * `put(dir/name, data)`: creates the directory if needed and writes the
   * file, replacing any earlier content of the same name.
   */
  function Put(disk: Disk, dir: string, name: string, data: Bytes): Disk {
    disk[dir := Files(disk, dir)[name := data]]
  }

  /** `deleteDirectory(dir)`: removes the directory with all its files. */
  function DeleteDirectory(disk: Disk, dir: string): Disk {
    disk - {dir}
  }

  /**
   * A put makes the directory exist, stores the file with exactly the given
   * content, leaves every other file and directory as it was, and adds one
   * to the directory's count exactly when the name is new.
   */
  lemma PutEffect(disk: Disk, dir: string, name: string, data: Bytes)
    ensures var r := Put(disk, dir, name, data);
      && r.Keys == disk.Keys + {dir}
      && name in Files(r, dir) && Files(r, dir)[name] == data
      && (forall other :: other != name ==>
            (other in Files(r, dir) <==> other in Files(disk, dir)) &&
            (other in Files(disk, dir) ==> Files(r, dir)[other] == Files(disk, dir)[other]))
      && (forall d :: d != dir ==> Files(r, d) == Files(disk, d))
      && FileCount(r, dir) == if name in Files(disk, dir) then FileCount(disk, dir) else FileCount(disk, dir) + 1
  {
  }

  /** Deleting a directory removes it and its files and nothing else. */
  lemma DeleteEffect(disk: Disk, dir: string)
    ensures var r := DeleteDirectory(disk, dir);
      && dir !in r && r.Keys == disk.Keys - {dir} && FileCount(r, dir) == 0
      && (forall d :: d != dir ==> Files(r, d) == Files(disk, d))
  {
  }

  /** Writing the same name twice leaves only the second content, as if the first write never happened. */
  lemma PutOverwrites(disk: Disk, dir: string, name: string, first: Bytes, second: Bytes)
    ensures Put(Put(disk, dir, name, first), dir, name, second) == Put(disk, dir, name, second)
    ensures FileCount(Put(Put(disk, dir, name, first), dir, name, second), dir) == FileCount(Put(disk, dir, name, first), dir)
  {
    assert Files(disk, dir)[name := first][name := second] == Files(disk, dir)[name := second];
  }

  /** Writes to different names of one directory commute. */
  lemma PutCommutesWithinDir(disk: Disk, dir: string, name1: string, data1: Bytes, name2: string, data2: Bytes)
    requires name1 != name2
    ensures Put(Put(disk, dir, name1, data1), dir, name2, data2) == Put(Put(disk, dir, name2, data2), dir, name1, data1)
  {
    var f := Files(disk, dir);
    assert f[name1 := data1][name2 := data2] == f[name2 := data2][name1 := data1];
  }

  /** Writes to different directories commute. */
  lemma PutCommutesAcrossDirs(disk: Disk, dir1: string, name1: string, data1: Bytes, dir2: string, name2: string, data2: Bytes)
    requires dir1 != dir2
    ensures Put(Put(disk, dir1, name1, data1), dir2, name2, data2) == Put(Put(disk, dir2, name2, data2), dir1, name1, data1)
  {
    var f1 := Files(disk, dir1)[name1 := data1];
    var f2 := Files(disk, dir2)[name2 := data2];
    assert disk[dir1 := f1][dir2 := f2] == disk[dir2 := f2][dir1 := f1];
  }

  // ---- completion and assembly ------------------------------------------

  /** Chunk i has a file. */
  predicate HasChunk(files: Dir, i: nat) {
    ChunkName(i) in files
  }

  /** Every chunk 1..total has a file. */
  predicate AllPresent(files: Dir, total: nat) {
    forall i :: 1 <= i <= total ==> HasChunk(files, i)
  }

  /**
   * Reading chunk_i: its bytes, or nothing when there is no such file (the
   * disk's read yields null, which appends as the empty string).
   */
  function ReadChunk(files: Dir, i: nat): (r: Bytes)
    ensures HasChunk(files, i) ==> r == files[ChunkName(i)]
    ensures !HasChunk(files, i) ==> r == []
  {
    if ChunkName(i) in files then files[ChunkName(i)] else []
  }

  /** What reading chunk_1, chunk_2, ..., chunk_k in that order yields. */
  function Concat(files: Dir, k: nat): Bytes
  {
    if k == 0 then [] else Concat(files, k - 1) + ReadChunk(files, k)
  }

  /** Total length of what chunk_1 .. chunk_k hold. */
  function ChunkBytes(files: Dir, k: nat): nat
  {
    if k == 0 then 0 else ChunkBytes(files, k - 1) + |ReadChunk(files, k)|
  }

  /** The assembled file is as long as its chunks together. */
  lemma {:induction false} ConcatSize(files: Dir, k: nat)
    ensures |Concat(files, k)| == ChunkBytes(files, k)
  {
    if k > 0 {
      ConcatSize(files, k - 1);
    }
  }

  /** Concat reads only chunk_1 .. chunk_k: directories that agree on those give the same bytes. */
  lemma {:induction false} ConcatDependsOnlyOnChunks(files: Dir, other: Dir, k: nat)
    requires forall i :: 1 <= i <= k ==> ReadChunk(other, i) == ReadChunk(files, i)
    ensures Concat(other, k) == Concat(files, k)
  {
    if k > 0 {
      ConcatDependsOnlyOnChunks(files, other, k - 1);
    }
  }

  /** Files other than chunk_1 .. chunk_k do not reach the assembled bytes. */
  lemma {:induction false} ConcatIgnoresOtherFiles(files: Dir, name: string, data: Bytes, k: nat)
    requires forall i :: 1 <= i <= k ==> name != ChunkName(i)
    ensures Concat(files[name := data], k) == Concat(files, k)
  {
    if k > 0 {
      assert name != ChunkName(k);
      ConcatIgnoresOtherFiles(files, name, data, k - 1);
    }
  }

  /** A missing chunk leaves a gap: the bytes are those of the chunks around it. */
  lemma {:induction false} ConcatSkipsMissing(files: Dir, m: nat, k: nat)
    requires 1 <= m <= k && !HasChunk(files, m)
    ensures Concat(files, k) == Concat(files, m - 1) + Between(files, m, k)
  {
    if k > m {
      ConcatSkipsMissing(files, m, k - 1);
    }
  }

  /** What reading chunk_(m+1) .. chunk_k yields. */
  function Between(files: Dir, m: nat, k: nat): (r: Bytes)
    ensures |r| <= ChunkBytes(files, k)
    decreases k
  {
    if k <= m then [] else Between(files, m, k - 1) + ReadChunk(files, k)
  }

  // ---- the count-only completion rule -----------------------------------

  /** The names chunk_1 .. chunk_n. */
  ghost function ChunkNames(n: nat): set<string> {
    set k | 1 <= k <= n :: ChunkName(k)
  }

  /** Every file is named `chunk_<k>` for some k in 1..total. */
  ghost predicate OnlyChunksUpTo(files: Dir, total: nat) {
    files.Keys <= ChunkNames(total)
  }

  lemma {:induction false} ChunkNamesSize(n: nat)
    ensures |ChunkNames(n)| == n
  {
    if n > 0 {
      ChunkNamesSize(n - 1);
      assert ChunkNames(n) == ChunkNames(n - 1) + {ChunkName(n)};
      if ChunkName(n) in ChunkNames(n - 1) {
        var k :| 1 <= k <= n - 1 && ChunkName(k) == ChunkName(n);
        ChunkNameInjective(k, n);
      }
    }
  }

  lemma SubsetSize<T>(a: set<T>, c: set<T>)
    requires a <= c
    ensures |a| <= |c|
  {
    assert a * c == a && a + c == c && a - c == {};
    assert |c - a| + |a - c| + |a * c| == |a + c|;
  }

  lemma SubsetOfSameSize<T>(a: set<T>, b: set<T>)
    requires a <= b && |a| == |b|
    ensures a == b
  {
    if b - a != {} {
      var x :| x in b - a;
      assert a <= b - {x};
      assert |b - {x}| == |b| - 1;
      SubsetSize(a, b - {x});
    }
    assert b - a == {};
    forall x | x in b ensures x in a {
      assert x !in b - a;
    }
  }

  lemma AllPresentMeansNames(files: Dir, total: nat)
    ensures AllPresent(files, total) <==> ChunkNames(total) <= files.Keys
  {
    if ChunkNames(total) <= files.Keys {
      forall i | 1 <= i <= total ensures HasChunk(files, i) {
        assert ChunkName(i) in ChunkNames(total);
      }
    }
    if AllPresent(files, total) {
      forall x | x in ChunkNames(total) ensures x in files {
        var k :| 1 <= k <= total && x == ChunkName(k);
        assert HasChunk(files, k);
      }
    }
  }

  /**
   * When a directory holds nothing but chunk files numbered within 1..total,
   * the count rule and "all of 1..total are present" agree, both ways.
   */
  lemma CountMeansAllPresent(files: Dir, total: nat)
    requires OnlyChunksUpTo(files, total)
    ensures |files| == total <==> AllPresent(files, total)
  {
    var keys, names := files.Keys, ChunkNames(total);
    ChunkNamesSize(total);
    AllPresentMeansNames(files, total);
    assert |keys| == |files|;
    if |files| == total {
      SubsetOfSameSize(keys, names);
      assert names <= keys;
    } else {
      assert keys != names;
      assert !(names <= keys);
    }
  }

  /**
   * Count-only completion is weaker than completeness: three files
   * chunk_2, chunk_3, chunk_5 satisfy the count for total 3 while chunk_1
   * is missing.
   */
  lemma CountWithoutAllPresent()
    ensures var files: Dir := map[ChunkName(2) := [], ChunkName(3) := [], ChunkName(5) := []];
      |files| == 3 && !AllPresent(files, 3)
  {
    var files: Dir := map[ChunkName(2) := [], ChunkName(3) := [], ChunkName(5) := []];
    assert ChunkName(2) == "chunk_2" && ChunkName(3) == "chunk_3" && ChunkName(5) == "chunk_5";
    assert ChunkName(1) == "chunk_1";
    assert !HasChunk(files, 1);
    assert files.Keys == {"chunk_2", "chunk_3", "chunk_5"};
  }
}
