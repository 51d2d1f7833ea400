/**
 * What `ApplyStorageLimit` of FileUploader.cs guarantees: the eviction
 * deletes the shortest oldest-first prefix of the stored files that brings
 * their total to half the limit, files it cannot delete are passed over, and
 * files in the data folder itself are never touched.
 */
module StorageLimitProofs {
  import opened Strings
  import opened FileSystem
  import opened FileUploader

  /** The names of a list of stored files. */
  function Names(files: seq<StoredFile>): (r: set<Path>)
    ensures forall p :: p in r <==> exists k :: 0 <= k < |files| && files[k].fullName == p
  {
    set k | 0 <= k < |files| :: files[k].fullName
  }

  /** Deleting this file throws: it exists and another process holds it open. */
  predicate Blocked(fs: Fs, f: StoredFile) {
    f.fullName in fs.files && f.fullName in fs.locked
  }

  /** The names of a non-empty prefix: the first name and those of the rest of the prefix. */
  lemma NamesOfPrefix(files: seq<StoredFile>, m: nat)
    requires 1 <= m <= |files|
    ensures Names(files[..m]) == {files[0].fullName} + Names(files[1..][..m - 1])
  {
    var pre, rest := files[..m], files[1..][..m - 1];
    forall p ensures p in Names(pre) <==> p == files[0].fullName || p in Names(rest) {
      if p in Names(pre) {
        var k :| 0 <= k < m && pre[k].fullName == p;
        if k > 0 {
          assert rest[k - 1].fullName == p;
        }
      }
      if p in Names(rest) {
        var k :| 0 <= k < m - 1 && rest[k].fullName == p;
        assert pre[k + 1].fullName == p;
      }
    }
  }

  /** The running total after deleting the first `m` files. */
  lemma TotalLengthPrefix(files: seq<StoredFile>, m: nat)
    requires 1 <= m <= |files|
    ensures TotalLength(files[..m]) == files[0].length + TotalLength(files[1..][..m - 1])
  {
    assert files[..m][1..] == files[1..][..m - 1];
  }

  /**
   * How many files the eviction deletes when every delete succeeds: the
   * shortest non-empty oldest-first prefix after whose deletion the running
   * total is at most `threshold`, or all files when no prefix gets there.
   */
  function EvictCount(files: seq<StoredFile>, cumulatedSize: int, threshold: int): (n: nat)
    ensures n <= |files| && (files != [] ==> 1 <= n)
    ensures forall m :: 1 <= m < n ==> cumulatedSize - TotalLength(files[..m]) > threshold
    ensures 1 <= n < |files| ==> cumulatedSize - TotalLength(files[..n]) <= threshold
    decreases |files|
  {
    if files == [] then 0
    else if cumulatedSize - files[0].length <= threshold then
      assert files[..1][1..] == [];
      1
    else
      var rest := EvictCount(files[1..], cumulatedSize - files[0].length, threshold);
      forall m | 1 <= m <= rest + 1 && m <= |files|
        ensures TotalLength(files[..m]) == files[0].length + TotalLength(files[1..][..m - 1])
      {
        TotalLengthPrefix(files, m);
      }
      1 + rest
  }

  /**
   * When no stored file is held open, the eviction deletes exactly the
   * `EvictCount` oldest files and changes nothing else.
   */
  lemma {:induction false} EvictDeletesShortestPrefix(fs: Fs, files: seq<StoredFile>, cumulatedSize: int, threshold: int)
    requires forall k :: 0 <= k < |files| ==> !Blocked(fs, files[k])
    ensures Evict(fs, files, cumulatedSize, threshold).files ==
      fs.files - Names(files[..EvictCount(files, cumulatedSize, threshold)])
    decreases |files|
  {
    if files == [] {
      assert Names(files[..0]) == {};
    } else {
      var d := Delete(fs, files[0].fullName);
      assert d.0.files == fs.files - {files[0].fullName};
      if cumulatedSize - files[0].length <= threshold {
        assert Names(files[..1]) == {files[0].fullName};
      } else {
        var rest := files[1..];
        var c := cumulatedSize - files[0].length;
        forall k | 0 <= k < |rest| ensures !Blocked(d.0, rest[k]) {
          assert rest[k] == files[k + 1];
        }
        EvictDeletesShortestPrefix(d.0, rest, c, threshold);
        var m := EvictCount(rest, c, threshold);
        assert Evict(fs, files, cumulatedSize, threshold) == Evict(d.0, rest, c, threshold);
        assert EvictCount(files, cumulatedSize, threshold) == 1 + m;
        NamesOfPrefix(files, 1 + m);
      }
    }
  }

  /** Keeping the same elements keeps the same filtered list. */
  lemma {:induction false} FilterSame(files: seq<StoredFile>, keep: StoredFile -> bool, keep': StoredFile -> bool)
    requires forall k :: 0 <= k < |files| ==> keep(files[k]) == keep'(files[k])
    ensures Filter(files, keep) == Filter(files, keep')
    decreases |files|
  {
    if files != [] {
      FilterSame(files[1..], keep, keep');
    }
  }

  /** The files of a list that can be deleted on `fs`, in order. */
  function Deletable(fs: Fs, files: seq<StoredFile>): (r: seq<StoredFile>)
    ensures forall f :: f in r <==> f in files && !Blocked(fs, f)
  {
    Filter(files, f => !Blocked(fs, f))
  }

  /** Deleting a file that can be deleted leaves the same files deletable. */
  lemma DeletableAfterDelete(fs: Fs, f: StoredFile, files: seq<StoredFile>)
    requires !Blocked(fs, f)
    ensures Deletable(Delete(fs, f.fullName).0, files) == Deletable(fs, files)
  {
    var d := Delete(fs, f.fullName).0;
    FilterSame(files, g => !Blocked(fs, g), g => !Blocked(d, g));
  }

  /**
   * A delete that throws neither lowers the running total nor ends the
   * eviction: it goes exactly as if the files held open were not in the list.
   */
  lemma {:induction false} EvictPassesOverBlocked(fs: Fs, files: seq<StoredFile>, cumulatedSize: int, threshold: int)
    ensures Evict(fs, files, cumulatedSize, threshold) == Evict(fs, Deletable(fs, files), cumulatedSize, threshold)
    decreases |files|
  {
    if files != [] {
      var d := Delete(fs, files[0].fullName);
      if Blocked(fs, files[0]) {
        assert Deletable(fs, files) == Deletable(fs, files[1..]);
        EvictPassesOverBlocked(fs, files[1..], cumulatedSize, threshold);
      } else {
        var c := cumulatedSize - files[0].length;
        assert Deletable(fs, files) == [files[0]] + Deletable(fs, files[1..]);
        DeletableAfterDelete(fs, files[0], files[1..]);
        EvictPassesOverBlocked(d.0, files[1..], c, threshold);
        assert ([files[0]] + Deletable(fs, files[1..]))[1..] == Deletable(fs, files[1..]);
      }
    }
  }

  /** The eviction only deletes: what is left is unchanged, and a file not in the list stays. */
  lemma {:induction false} EvictOnlyDeletes(fs: Fs, files: seq<StoredFile>, cumulatedSize: int, threshold: int, p: Path)
    ensures var r := Evict(fs, files, cumulatedSize, threshold);
      (p in r.files ==> p in fs.files && r.files[p] == fs.files[p]) &&
      (p in fs.files && p !in Names(files) ==> p in r.files)
    decreases |files|
  {
    if files != [] {
      var d := Delete(fs, files[0].fullName);
      var c := if d.1 then cumulatedSize - files[0].length else cumulatedSize;
      EvictOnlyDeletes(d.0, files[1..], c, threshold, p);
    }
  }

  /**
   * The stored files are those of `processed/` and `errors/`: the limit is
   * only applied when they reach it (equality included), and the oldest of
   * them goes first.
   */
  lemma StorageLimitBoundary(fs: Fs, layout: Layout, storageLimitInBytes: int)
    ensures var stored := CollectStoredFiles(fs, layout);
      storageLimitInBytes > TotalLength(stored) ==> AfterApplyStorageLimit(fs, layout, storageLimitInBytes) == fs
    ensures var stored := CollectStoredFiles(fs, layout);
      storageLimitInBytes == TotalLength(stored) && stored != [] && stored[0].fullName !in fs.locked ==>
      stored[0].fullName !in AfterApplyStorageLimit(fs, layout, storageLimitInBytes).files
  {
    var stored := CollectStoredFiles(fs, layout);
    var total := TotalLength(stored);
    if storageLimitInBytes == total && stored != [] && stored[0].fullName !in fs.locked {
      assert AfterApplyStorageLimit(fs, layout, storageLimitInBytes) == Evict(fs, stored, total, HalfOf(total));
      EvictDeletesFirst(fs, stored, total, HalfOf(total));
    }
  }

  /** The eviction always deletes the oldest file first. */
  lemma EvictDeletesFirst(fs: Fs, files: seq<StoredFile>, cumulatedSize: int, threshold: int)
    requires files != [] && files[0].fullName !in fs.locked
    ensures files[0].fullName !in Evict(fs, files, cumulatedSize, threshold).files
  {
    var f := files[0].fullName;
    var d := Delete(fs, f);
    var c := cumulatedSize - files[0].length;
    EvictOnlyDeletes(d.0, files[1..], c, threshold, f);
  }

  /** A stored file lies in `processed/` or in `errors/`. */
  lemma StoredFileLocation(fs: Fs, layout: Layout, f: StoredFile)
    requires f in CollectStoredFiles(fs, layout)
    ensures InDirectory(f.fullName, layout.ProcessedPath()) || InDirectory(f.fullName, layout.ErrorPath())
  {
    var paths := FilesIfExists(fs, layout.ProcessedPath()) + FilesIfExists(fs, layout.ErrorPath());
    var infos := Infos(fs, paths);
    assert f in multiset(CollectStoredFiles(fs, layout));
    assert f in infos;
    var k :| 0 <= k < |infos| && infos[k] == f;
    assert paths[k] in paths;
  }

  /** A file in a sub-directory of `dataFolder` is not directly in `dataFolder`. */
  lemma SubdirectoryApart(dataFolder: Path, sub: string, p: Path)
    requires sub != [] && sub[|sub| - 1] == '/' && InDirectory(p, dataFolder + sub)
    ensures !InDirectory(p, dataFolder)
  {
    var n := |dataFolder| + |sub| - 1;
    assert p[n] == (dataFolder + sub)[n] == '/';
    assert p[|dataFolder|..][|sub| - 1] == '/';
  }

  /**
   * The storage limit never deletes or changes a file directly in the data
   * folder (one still waiting for upload).
   */
  lemma RootFilesNeverEvicted(fs: Fs, layout: Layout, storageLimitInBytes: int, p: Path)
    requires p in fs.files && InDirectory(p, layout.dataFolder)
    ensures p in AfterApplyStorageLimit(fs, layout, storageLimitInBytes).files
    ensures AfterApplyStorageLimit(fs, layout, storageLimitInBytes).files[p] == fs.files[p]
  {
    var stored := CollectStoredFiles(fs, layout);
    assert p !in Names(stored) by {
      if p in Names(stored) {
        var k :| 0 <= k < |stored| && stored[k].fullName == p;
        StoredFileLocation(fs, layout, stored[k]);
        if InDirectory(p, layout.ProcessedPath()) {
          SubdirectoryApart(layout.dataFolder, ProcessedPrefix, p);
        } else {
          SubdirectoryApart(layout.dataFolder, ErrorPrefix, p);
        }
      }
    }
    var total := TotalLength(stored);
    if storageLimitInBytes <= total {
      EvictOnlyDeletes(fs, stored, total, HalfOf(storageLimitInBytes), p);
    }
  }

  /** A megabyte in bytes, and four stored files of 10, 20, 30 and 40 MB, oldest first. */
  const MB: nat := 1024 * 1024
  const FourFiles: seq<StoredFile> :=
    [StoredFile("d/processed/t-1", 10 * MB, 1), StoredFile("d/processed/t-2", 20 * MB, 2),
     StoredFile("d/processed/t-3", 30 * MB, 3), StoredFile("d/processed/t-4", 40 * MB, 4)]

  /**
   * With 100 MB stored and a limit of 50 MB the eviction runs down to 25 MB,
   * half the limit: after three deletes 40 MB remain, so the fourth goes too.
   * With a limit of 100 MB it stops after the third (40 MB <= 50 MB).
   */
  lemma StorageLimitExample()
    ensures TotalLength(FourFiles) == 100 * MB
    ensures EvictCount(FourFiles, 100 * MB, HalfOf(50 * MB)) == 4
    ensures EvictCount(FourFiles, 100 * MB, HalfOf(100 * MB)) == 3
  {
    var f := FourFiles;
    var f1, f2, f3 := f[1..], f[1..][1..], f[1..][1..][1..];
    assert f1 == [f[1], f[2], f[3]] && f2 == [f[2], f[3]] && f3 == [f[3]] && f3[1..] == [];
    assert TotalLength(f3) == 40 * MB;
    assert TotalLength(f2) == 70 * MB;
    assert TotalLength(f1) == 90 * MB;
    assert EvictCount(f3, 40 * MB, 25 * MB) == 1;
    assert EvictCount(f2, 70 * MB, 25 * MB) == 2;
    assert EvictCount(f1, 90 * MB, 25 * MB) == 3;
    assert EvictCount(f2, 70 * MB, 50 * MB) == 1;
    assert EvictCount(f1, 90 * MB, 50 * MB) == 2;
  }

  /** A limit no greater than the stored total starts the eviction down to half the limit. */
  lemma ApplyStorageLimitEvicts(fs: Fs, layout: Layout, storageLimitInBytes: int, stored: seq<StoredFile>)
    requires stored == CollectStoredFiles(fs, layout) && storageLimitInBytes <= TotalLength(stored)
    ensures AfterApplyStorageLimit(fs, layout, storageLimitInBytes) ==
      Evict(fs, stored, TotalLength(stored), HalfOf(storageLimitInBytes))
  {
  }

  /** On a disk with nothing held open, the eviction of the four files removes all four or the three oldest. */
  lemma FourFilesEvicted(fs: Fs)
    requires fs.locked == {}
    ensures Evict(fs, FourFiles, 100 * MB, HalfOf(50 * MB)).files == fs.files - Names(FourFiles)
    ensures Evict(fs, FourFiles, 100 * MB, HalfOf(100 * MB)).files ==
      fs.files - {FourFiles[0].fullName, FourFiles[1].fullName, FourFiles[2].fullName}
  {
    var f := FourFiles;
    StorageLimitExample();
    EvictDeletesShortestPrefix(fs, f, 100 * MB, HalfOf(50 * MB));
    EvictDeletesShortestPrefix(fs, f, 100 * MB, HalfOf(100 * MB));
    assert f[..4] == f;
    assert f[..3] == [f[0], f[1], f[2]];
    assert Names(f[..3]) == {f[0].fullName, f[1].fullName, f[2].fullName};
  }

  /**
   * The same example run by `ApplyStorageLimit` on a disk whose stored files
   * are these four and where nothing is held open: a 50 MB limit deletes all
   * four, a 100 MB limit the three oldest, and no other file is touched.
   */
  lemma StorageLimitExampleOnDisk(fs: Fs, layout: Layout)
    requires CollectStoredFiles(fs, layout) == FourFiles && fs.locked == {}
    ensures AfterApplyStorageLimit(fs, layout, 50 * MB).files == fs.files - Names(FourFiles)
    ensures AfterApplyStorageLimit(fs, layout, 100 * MB).files ==
      fs.files - {FourFiles[0].fullName, FourFiles[1].fullName, FourFiles[2].fullName}
  {
    StorageLimitExample();
    ApplyStorageLimitEvicts(fs, layout, 50 * MB, FourFiles);
    ApplyStorageLimitEvicts(fs, layout, 100 * MB, FourFiles);
    FourFilesEvicted(fs);
  }
}
