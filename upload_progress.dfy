/**
 * The progress query: the files of a session's chunk directory, each
 * path matched against `chunk_(\d+)$` and cast to an integer, non-matches
 * and 0 dropped, sorted ascending; the count is the length of that list.
 */
module UploadProgress {
  import opened Wrappers
  import opened ChunkNaming
  import opened ChunkStore

  predicate Sorted(s: seq<int>) {
    forall i, j :: 0 <= i < j < |s| ==> s[i] <= s[j]
  }

  predicate StrictlySorted(s: seq<int>) {
    forall i, j :: 0 <= i < j < |s| ==> s[i] < s[j]
  }

  ghost predicate Distinct<T>(s: seq<T>) {
    forall i, j :: 0 <= i < j < |s| ==> s[i] != s[j]
  }

  /** Some enumeration of a set of names, each once. */
  ghost function Enumerate(names: set<string>): (r: seq<string>)
    ensures |r| == |names| && Distinct(r)
    ensures forall n :: n in r <==> n in names
    decreases |names|
  {
    if names == {} then []
    else
      var n :| n in names;
      var rest := Enumerate(names - {n});
      assert forall i :: 0 <= i < |rest| ==> rest[i] != n;
      rest + [n]
  }

  /** `files(dir)`: the names in the directory, in the order the disk lists them. */
  ghost function ListFiles(files: Dir): (r: seq<string>)
    ensures |r| == |files| && Distinct(r)
    ensures forall n :: n in r <==> n in files
  {
    Enumerate(files.Keys)
  }

  /** The integer a listed path contributes, if it survives the map and filter steps. */
  function IndexOfListed(dirPath: string, name: string): Option<int> {
    match ChunkIndexOf(dirPath + "/" + name)
    case Some(k) => if k != 0 then Some(k) else None
    case None => None
  }

  /**
   * The map and filter steps: each listed path `dirPath/name` becomes the
   * integer its pattern match captures; non-matching paths and 0 are dropped.
   */
  function ChunkIndices(dirPath: string, names: seq<string>): (r: seq<int>)
    ensures |r| <= |names|
    ensures forall j :: 0 <= j < |r| ==> r[j] >= 1
    ensures forall k :: k in r <==> exists i :: 0 <= i < |names| && IndexOfListed(dirPath, names[i]) == Some(k)
  {
    if names == [] then []
    else
      var tail := names[1..];
      var rest := ChunkIndices(dirPath, tail);
      assert forall i :: 0 <= i < |tail| ==> tail[i] == names[i + 1];
      match IndexOfListed(dirPath, names[0])
      case Some(k) => [k] + rest
      case None => rest
  }

  lemma {:induction false} ChunkIndicesConcat(dirPath: string, a: seq<string>, b: seq<string>)
    ensures ChunkIndices(dirPath, a + b) == ChunkIndices(dirPath, a) + ChunkIndices(dirPath, b)
  {
    if a == [] {
      assert a + b == b;
    } else {
      assert (a + b)[0] == a[0];
      assert (a + b)[1..] == a[1..] + b;
      ChunkIndicesConcat(dirPath, a[1..], b);
    }
  }

  /** The indices found depend only on which names are listed, not on the listing order. */
  lemma {:induction false} ChunkIndicesPermutation(dirPath: string, a: seq<string>, b: seq<string>)
    requires multiset(a) == multiset(b)
    ensures multiset(ChunkIndices(dirPath, a)) == multiset(ChunkIndices(dirPath, b))
    decreases |a|
  {
    if a == [] {
      assert |b| == |multiset(b)| == 0;
    } else {
      var x := a[0];
      assert x in multiset(b);
      var i :| 0 <= i < |b| && b[i] == x;
      var pre, post := b[..i], b[i + 1..];
      assert b == pre + [x] + post;
      assert a == [x] + a[1..];
      assert multiset(b) == multiset(pre) + multiset{x} + multiset(post);
      assert multiset(a) == multiset{x} + multiset(a[1..]);
      assert multiset(pre + post) == multiset(pre) + multiset(post);
      assert multiset(a[1..]) == multiset(a) - multiset{x};
      assert multiset(pre + post) == multiset(b) - multiset{x};
      ChunkIndicesPermutation(dirPath, a[1..], pre + post);
      ChunkIndicesConcat(dirPath, [x], a[1..]);
      ChunkIndicesConcat(dirPath, pre + [x], post);
      ChunkIndicesConcat(dirPath, pre, [x]);
      ChunkIndicesConcat(dirPath, pre, post);
    }
  }

  /** Every element of the sequence is at least lo. */
  predicate AtLeast(lo: int, s: seq<int>) {
    forall i :: 0 <= i < |s| ==> lo <= s[i]
  }

  /** Every element of the sequence exceeds lo. */
  predicate Above(lo: int, s: seq<int>) {
    forall i :: 0 <= i < |s| ==> lo < s[i]
  }

  lemma SortedCons(h: int, t: seq<int>)
    requires Sorted(t) && AtLeast(h, t)
    ensures Sorted([h] + t)
  {
    var r := [h] + t;
    forall i, j | 0 <= i < j < |r| ensures r[i] <= r[j] {
      assert r[j] == t[j - 1];
      if i > 0 {
        assert r[i] == t[i - 1];
      }
    }
  }

  lemma StrictlySortedCons(h: int, t: seq<int>)
    requires StrictlySorted(t) && Above(h, t)
    ensures StrictlySorted([h] + t)
  {
    var r := [h] + t;
    forall i, j | 0 <= i < j < |r| ensures r[i] < r[j] {
      assert r[j] == t[j - 1];
      if i > 0 {
        assert r[i] == t[i - 1];
      }
    }
  }

  /** A bound on every element carries over to any sequence with the same elements. */
  lemma BoundsCarry(lo: int, s: seq<int>, r: seq<int>, strict: bool)
    requires forall y :: y in r ==> y in s
    requires if strict then Above(lo, s) else AtLeast(lo, s)
    ensures if strict then Above(lo, r) else AtLeast(lo, r)
  {
    forall i | 0 <= i < |r| ensures if strict then lo < r[i] else lo <= r[i] {
      assert r[i] in r;
      var j :| 0 <= j < |s| && s[j] == r[i];
    }
  }

  lemma InsertFront(x: int, s: seq<int>, strict: bool)
    requires if strict then StrictlySorted(s) && x !in s else Sorted(s)
    requires s == [] || x <= s[0]
    ensures if strict then StrictlySorted([x] + s) else Sorted([x] + s)
  {
    if strict {
      assert Above(x, s) by {
        forall i | 0 <= i < |s| ensures x < s[i] {
          assert s[0] <= s[i] && s[i] in s;
        }
      }
      StrictlySortedCons(x, s);
    } else {
      assert AtLeast(x, s) by {
        forall i | 0 <= i < |s| ensures x <= s[i] {
          assert s[0] <= s[i];
        }
      }
      SortedCons(x, s);
    }
  }

  lemma InsertLater(x: int, s: seq<int>, rest: seq<int>, strict: bool)
    requires s != [] && s[0] < x
    requires if strict then StrictlySorted(s) && StrictlySorted(rest) else Sorted(s) && Sorted(rest)
    requires multiset(rest) == multiset(s[1..]) + multiset{x}
    ensures if strict then StrictlySorted([s[0]] + rest) else Sorted([s[0]] + rest)
    ensures multiset([s[0]] + rest) == multiset(s) + multiset{x}
  {
    var t := s[1..];
    assert s == [s[0]] + t;
    assert forall y :: y in rest ==> y in [x] + t by {
      forall y | y in rest ensures y in [x] + t {
        assert y in multiset(rest);
      }
    }
    if strict {
      assert Above(s[0], [x] + t) by {
        forall i | 0 <= i < |[x] + t| ensures s[0] < ([x] + t)[i] {
          if i > 0 {
            assert ([x] + t)[i] == s[i];
          }
        }
      }
      BoundsCarry(s[0], [x] + t, rest, true);
      StrictlySortedCons(s[0], rest);
    } else {
      assert AtLeast(s[0], [x] + t) by {
        forall i | 0 <= i < |[x] + t| ensures s[0] <= ([x] + t)[i] {
          if i > 0 {
            assert ([x] + t)[i] == s[i];
          }
        }
      }
      BoundsCarry(s[0], [x] + t, rest, false);
      SortedCons(s[0], rest);
    }
  }

  /** Insertion into a sorted sequence. */
  function Insert(x: int, s: seq<int>): (r: seq<int>)
    requires Sorted(s)
    ensures Sorted(r) && multiset(r) == multiset(s) + multiset{x}
    ensures StrictlySorted(s) && x !in s ==> StrictlySorted(r)
  {
    if s == [] || x <= s[0] then
      InsertFront(x, s, false);
      if StrictlySorted(s) && x !in s then InsertFront(x, s, true); [x] + s else [x] + s
    else
      assert Sorted(s[1..]);
      assert StrictlySorted(s) && x !in s ==> StrictlySorted(s[1..]) && x !in s[1..];
      var rest := Insert(x, s[1..]);
      InsertLater(x, s, rest, false);
      if StrictlySorted(s) && x !in s then InsertLater(x, s, rest, true); [s[0]] + rest else [s[0]] + rest
  }

  /** `sort()`: ascending order, duplicates kept. */
  function Sort(s: seq<int>): (r: seq<int>)
    ensures Sorted(r) && multiset(r) == multiset(s)
    ensures Distinct(s) ==> StrictlySorted(r)
  {
    if s == [] then []
    else
      var t := s[1..];
      assert s == [s[0]] + t;
      var rest := Sort(t);
      assert Distinct(s) ==> Distinct(t) && s[0] !in t by {
        if Distinct(s) {
          forall i, j | 0 <= i < j < |t| ensures t[i] != t[j] {
            assert t[i] == s[i + 1] && t[j] == s[j + 1];
          }
          forall i | 0 <= i < |t| ensures t[i] != s[0] {
            assert t[i] == s[i + 1];
          }
        }
      }
      assert s[0] !in t ==> s[0] !in rest by {
        if s[0] in rest {
          assert s[0] in multiset(rest);
        }
      }
      Insert(s[0], rest)
  }

  /** Two sorted sequences with the same elements are equal. */
  lemma {:induction false} SortedUnique(a: seq<int>, b: seq<int>)
    requires Sorted(a) && Sorted(b) && multiset(a) == multiset(b)
    ensures a == b
    decreases |a|
  {
    if a == [] {
      assert |b| == |multiset(b)| == 0;
    } else {
      assert |b| == |multiset(b)| == |multiset(a)| == |a|;
      assert a[0] in multiset(b) && b[0] in multiset(a);
      var i :| 0 <= i < |b| && b[i] == a[0];
      var j :| 0 <= j < |a| && a[j] == b[0];
      assert b[0] <= b[i] && a[0] <= a[j];
      assert a == [a[0]] + a[1..];
      assert b == [b[0]] + b[1..];
      assert multiset(a[1..]) == multiset(a) - multiset{a[0]};
      assert multiset(b[1..]) == multiset(b) - multiset{b[0]};
      assert Sorted(a[1..]) && Sorted(b[1..]);
      SortedUnique(a[1..], b[1..]);
    }
  }

  datatype Report = Report(uploadedChunks: seq<int>, totalUploaded: nat)

  /**
   * The answer to a progress query for a session: empty when its chunk
   * directory does not exist, otherwise the sorted indices found there.
   */
  ghost function Progress(disk: Disk, sessionId: string): (r: Report)
    ensures ChunkPath(sessionId) !in disk ==> r == Report([], 0)
    ensures Sorted(r.uploadedChunks) && r.totalUploaded == |r.uploadedChunks|
    ensures forall j :: 0 <= j < |r.uploadedChunks| ==> r.uploadedChunks[j] >= 1
    ensures ChunkPath(sessionId) in disk ==>
      multiset(r.uploadedChunks) ==
      multiset(ChunkIndices(ChunkPath(sessionId), ListFiles(disk[ChunkPath(sessionId)])))
  {
    var dir := ChunkPath(sessionId);
    if dir !in disk then Report([], 0)
    else
      var found := ChunkIndices(dir, ListFiles(disk[dir]));
      var sorted := Sort(found);
      assert AtLeast(1, sorted) by {
        assert AtLeast(1, found);
        forall y | y in sorted ensures y in found {
          assert y in multiset(sorted);
        }
        BoundsCarry(1, found, sorted, false);
      }
      Report(sorted, |sorted|)
  }

  lemma {:induction false} DistinctCount<T>(s: seq<T>, x: T)
    requires Distinct(s)
    ensures multiset(s)[x] == if x in s then 1 else 0
  {
    if s != [] {
      assert s == [s[0]] + s[1..];
      assert Distinct(s[1..]) by {
        forall i, j | 0 <= i < j < |s[1..]| ensures s[1..][i] != s[1..][j] {
          assert s[1..][i] == s[i + 1] && s[1..][j] == s[j + 1];
        }
      }
      assert s[0] !in s[1..] by {
        forall i | 0 <= i < |s[1..]| ensures s[1..][i] != s[0] {
          assert s[1..][i] == s[i + 1];
        }
      }
      DistinctCount(s[1..], x);
    }
  }

  /** Two listings of the same names, each name once, are permutations of each other. */
  lemma SameNamesSameMultiset<T>(a: seq<T>, b: seq<T>)
    requires Distinct(a) && Distinct(b)
    requires forall n :: n in a <==> n in b
    ensures multiset(a) == multiset(b)
  {
    forall x ensures multiset(a)[x] == multiset(b)[x] {
      DistinctCount(a, x);
      DistinctCount(b, x);
    }
  }

  /** Whatever order the disk lists the files in, the report is the same. */
  lemma ProgressIndependentOfListing(disk: Disk, sessionId: string, listing: seq<string>)
    requires ChunkPath(sessionId) in disk
    requires Distinct(listing) && forall n :: n in listing <==> n in disk[ChunkPath(sessionId)]
    ensures Progress(disk, sessionId).uploadedChunks == Sort(ChunkIndices(ChunkPath(sessionId), listing))
  {
    var dir := ChunkPath(sessionId);
    var listed := ListFiles(disk[dir]);
    SameNamesSameMultiset(listing, listed);
    ChunkIndicesPermutation(dir, listing, listed);
    SortedUnique(Progress(disk, sessionId).uploadedChunks, Sort(ChunkIndices(dir, listing)));
  }

  /** `chunk_<k>` with k >= 1: a name the upload action writes. */
  ghost predicate IsChunkName(name: string) {
    exists k: nat :: k >= 1 && name == ChunkName(k)
  }

  /** Every file is named as the upload action names chunks. */
  ghost predicate OnlyChunkFiles(files: Dir) {
    forall name :: name in files ==> IsChunkName(name)
  }

  lemma {:induction false} ChunkIndicesOfChunkNames(dirPath: string, names: seq<string>)
    requires forall i :: 0 <= i < |names| ==> IsChunkName(names[i])
    ensures |ChunkIndices(dirPath, names)| == |names|
    ensures forall i :: 0 <= i < |names| ==>
      ChunkIndices(dirPath, names)[i] >= 1 && ChunkName(ChunkIndices(dirPath, names)[i]) == names[i]
  {
    if names != [] {
      var k: nat :| k >= 1 && names[0] == ChunkName(k);
      ChunkNameRoundTrip(dirPath + "/", k);
      assert IndexOfListed(dirPath, names[0]) == Some(k);
      var tail := names[1..];
      assert forall i :: 0 <= i < |tail| ==> tail[i] == names[i + 1];
      ChunkIndicesOfChunkNames(dirPath, tail);
      assert ChunkIndices(dirPath, names) == [k] + ChunkIndices(dirPath, tail);
    }
  }

  /** The indices read from a directory of chunk files: one per file, all different, exactly the stored numbers. */
  lemma ChunkFilesIndices(dir: string, files: Dir)
    requires OnlyChunkFiles(files)
    ensures var found := ChunkIndices(dir, ListFiles(files));
      && |found| == |files| && Distinct(found)
      && forall k: nat :: k in found <==> k >= 1 && ChunkName(k) in files
  {
    var listed := ListFiles(files);
    var found := ChunkIndices(dir, listed);
    assert forall i :: 0 <= i < |listed| ==> IsChunkName(listed[i]) by {
      forall i | 0 <= i < |listed| ensures IsChunkName(listed[i]) {
        assert listed[i] in files;
      }
    }
    ChunkIndicesOfChunkNames(dir, listed);
    assert Distinct(found) by {
      forall i, j | 0 <= i < j < |found| ensures found[i] != found[j] {
        assert listed[i] != listed[j];
      }
    }
    forall k: nat ensures k in found <==> k >= 1 && ChunkName(k) in files {
      if k in found {
        var i :| 0 <= i < |found| && found[i] == k;
        assert ChunkName(k) == listed[i];
      }
      if k >= 1 && ChunkName(k) in files {
        var i :| 0 <= i < |listed| && listed[i] == ChunkName(k);
        ChunkNameInjective(found[i], k);
      }
    }
  }

  /**
   * For a directory written only by uploads, the report lists each stored
   * chunk number exactly once, ascending, and counts every file.
   */
  lemma ProgressOfChunkFiles(disk: Disk, sessionId: string)
    requires ChunkPath(sessionId) in disk && OnlyChunkFiles(disk[ChunkPath(sessionId)])
    ensures var r := Progress(disk, sessionId);
      && (forall k: nat :: k in r.uploadedChunks <==> k >= 1 && ChunkName(k) in disk[ChunkPath(sessionId)])
      && StrictlySorted(r.uploadedChunks)
      && r.totalUploaded == |disk[ChunkPath(sessionId)]|
  {
    var dir := ChunkPath(sessionId);
    var files := disk[dir];
    var found := ChunkIndices(dir, ListFiles(files));
    ChunkFilesIndices(dir, files);
    var r := Progress(disk, sessionId);
    assert r.uploadedChunks == Sort(found);
    forall k: nat ensures k in r.uploadedChunks <==> k in found {
      assert k in r.uploadedChunks <==> k in multiset(found);
    }
    assert |r.uploadedChunks| == |multiset(r.uploadedChunks)| == |multiset(found)| == |found|;
  }

}
