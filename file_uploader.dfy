/**
 * The local buffer and upload pipeline of FileUploader.cs: buffered files wait
 * in the data folder, are written by the output sink table by table, moved to
 * `processed/` or `errors/` by outcome, and then the TTL sweep and the
 * storage-limit eviction keep the disk bounded.
 *
 * Each operation that changes the disk is a method on `Disk` whose
 * postcondition equates the new disk with a function (`After...`) of the old
 * one; the lemmas in FileUploaderProofs state what those functions guarantee.
 */
module FileUploader {
  import opened Wrappers
  import opened Strings
  import opened FileSystem
  import opened FileNames

  /** Sub-directory of the data folder for successfully uploaded files. */
  const ProcessedPrefix: string := "processed/"
  /** Sub-directory of the data folder for files the output rejected. */
  const ErrorPrefix: string := "errors/"

  /**
   * The OutputSerializer settings the uploader reads: the data folder (a
   * directory path, so it ends with '/'), the data-file extension and the
   * marker a producer puts in the name of a file it is still writing.
   */
  datatype Layout = Layout(dataFolder: Path, extension: string, inProgressPostfix: string) {
    function ProcessedPath(): Path { dataFolder + ProcessedPrefix }
    function ErrorPath(): Path { dataFolder + ErrorPrefix }
  }

  /** What `IOutput.Write` reports for a list of files. */
  datatype WriteResult = WriteResult(successfullyWrittenFiles: seq<Path>, failedFiles: seq<Path>)

  /** `IOutput.Write` as a function of its file list; None when it throws. */
  type Output = seq<Path> -> Option<WriteResult>

  // ---------------------------------------------------------------- listings

  /**
   * `GetPendingTables(from)`: the distinct non-empty table names of the files
   * in `from`; None when `from` does not exist (DirectoryNotFoundException).
   */
  function GetPendingTables(fs: Fs, from: Path): (r: Option<seq<string>>)
    ensures r.None? <==> from !in fs.directories
    ensures r.Some? ==> NoDuplicates(r.value)
    ensures r.Some? ==> forall t :: t in r.value <==>
      t != "" && '-' !in t &&
      exists p :: p in EnumerateFiles(fs, from) && StartsWith(GetFileName(p), t + "-")
  {
    if from !in fs.directories then None
    else
      var listed := EnumerateFiles(fs, from);
      var names := Map(listed, GetFileName);
      var tables := PendingTableNames(names);
      assert forall t :: t in tables <==>
        t != "" && '-' !in t &&
        exists p :: p in listed && StartsWith(GetFileName(p), t + "-") by {
        forall t {
          NamesOfListing(listed, t);
        }
      }
      Some(tables)
  }

  /** A name in the listing's names starts with `t-` exactly when a listed file's name does. */
  lemma NamesOfListing(listed: seq<Path>, t: string)
    ensures (exists n :: n in Map(listed, GetFileName) && StartsWith(n, t + "-")) <==>
            (exists p :: p in listed && StartsWith(GetFileName(p), t + "-"))
  {
    var names := Map(listed, GetFileName);
    if n :| n in names && StartsWith(n, t + "-") {
      var k :| 0 <= k < |names| && names[k] == n;
      assert listed[k] in listed;
    }
    if p :| p in listed && StartsWith(GetFileName(p), t + "-") {
      var k :| 0 <= k < |listed| && listed[k] == p;
      assert names[k] in names;
    }
  }

  /** The files of `dataPath` matching `<table>-*<extension>` that are not still being written. */
  predicate IsReadyFileOf(layout: Layout, table: string, p: Path) {
    GlobMatch(GetFileName(p), table + "-", layout.extension) && !Contains(p, layout.inProgressPostfix)
  }

  /**
   * `GetFilesOfTable(dataPath, table)`: the ready data files of one table;
   * None when `dataPath` does not exist.
   */
  function GetFilesOfTable(fs: Fs, layout: Layout, dataPath: Path, table: string): (r: Option<seq<Path>>)
    ensures r.None? <==> dataPath !in fs.directories
    ensures r.Some? ==> forall p :: p in r.value ==>
      p in fs.files && InDirectory(p, dataPath) &&
      !Contains(p, layout.inProgressPostfix) &&
      StartsWith(GetFileName(p), table + "-") && EndsWith(GetFileName(p), layout.extension)
    ensures r.Some? ==> forall p :: p in EnumerateFiles(fs, dataPath) && IsReadyFileOf(layout, table, p) ==> p in r.value
  {
    if dataPath !in fs.directories then None
    else Some(Filter(EnumerateFiles(fs, dataPath), p => IsReadyFileOf(layout, table, p)))
  }

  /**
   * The table name of the first data file `dataPath` lists, "" when it lists
   * none or that file's name has no '-'.
   */
  function FirstTableName(fs: Fs, layout: Layout, dataPath: Path): (t: string)
    ensures '-' !in t
    ensures t != "" ==>
      exists p :: p in EnumerateFiles(fs, dataPath) && GlobMatch(GetFileName(p), "", layout.extension) && GetTableName(p) == t
  {
    var allFiles := Filter(EnumerateFiles(fs, dataPath), p => GlobMatch(GetFileName(p), "", layout.extension));
    if |allFiles| == 0 then ""
    else
      assert allFiles[0] in allFiles;
      GetTableName(allFiles[0])
  }

  /**
   * `GetFilesOfSameTable(dataPath)`: the ready files of the table of the first
   * data file listed, or none when there is no data file or its name has no
   * table; None when `dataPath` does not exist.
   */
  function GetFilesOfSameTable(fs: Fs, layout: Layout, dataPath: Path): (r: Option<seq<Path>>)
    ensures r.None? <==> dataPath !in fs.directories
    ensures r.Some? ==> forall p :: p in r.value ==> !Contains(p, layout.inProgressPostfix)
    ensures r.Some? && r.value != [] ==>
      var table := GetTableName(r.value[0]);
      table != "" && forall p :: p in r.value ==> GetTableName(p) == table
    ensures r.Some? && FirstTableName(fs, layout, dataPath) == "" ==> r.value == []
    ensures r.Some? && FirstTableName(fs, layout, dataPath) != "" ==>
      forall p :: p in r.value <==>
        p in EnumerateFiles(fs, dataPath) && IsReadyFileOf(layout, FirstTableName(fs, layout, dataPath), p)
  {
    if dataPath !in fs.directories then None
    else
      var pattern := FirstTableName(fs, layout, dataPath);
      if pattern == "" then Some([])
      else
        var files := GetFilesOfTable(fs, layout, dataPath, pattern).value;
        ReadyFilesOfTable(fs, layout, dataPath, pattern, files);
        Some(files)
  }

  /** The ready files of a named table all carry that table's name and are exactly its ready listed files. */
  lemma ReadyFilesOfTable(fs: Fs, layout: Layout, dataPath: Path, table: string, files: seq<Path>)
    requires dataPath in fs.directories && table != "" && '-' !in table
    requires files == GetFilesOfTable(fs, layout, dataPath, table).value
    ensures forall p :: p in files ==> !Contains(p, layout.inProgressPostfix)
    ensures files != [] ==> GetTableName(files[0]) == table
    ensures forall p :: p in files ==> GetTableName(p) == table
    ensures forall p :: p in files <==> p in EnumerateFiles(fs, dataPath) && IsReadyFileOf(layout, table, p)
  {
    SameTable(files, table);
    assert files != [] ==> files[0] in files;
  }

  /** Files whose names start with `table + "-"` all have `table` as table name. */
  lemma SameTable(files: seq<Path>, table: string)
    requires '-' !in table
    requires forall p :: p in files ==> StartsWith(GetFileName(p), table + "-")
    ensures forall p :: p in files ==> GetTableName(p) == table
  {
    forall p | p in files ensures GetTableName(p) == table {
      TableNameOfPrefixed(p, table);
    }
  }

  // ----------------------------------------------------------------- moving

  /** Where `MoveToFolder` puts a file: `Path.Combine(outputFolder, GetFileName(file))`. */
  function Target(outputFolder: Path, fullFileName: Path): Path {
    outputFolder + GetFileName(fullFileName)
  }

  /**
   * One iteration of `MoveToFolder`'s loop, its exception caught: create the
   * folder, skip a move onto itself, delete an existing target, then move.
   */
  function MoveOne(fs: Fs, fullFileName: Path, outputFolder: Path): (r: Fs)
    ensures r.locked == fs.locked && r.directories == fs.directories + {outputFolder}
    ensures forall p :: p != fullFileName && p != Target(outputFolder, fullFileName) ==>
      (p in r.files <==> p in fs.files) && (p in fs.files ==> r.files[p] == fs.files[p])
  {
    var created := fs.(directories := fs.directories + {outputFolder});
    var targetFile := Target(outputFolder, fullFileName);
    if targetFile == fullFileName then created
    else
      var cleared := if targetFile in created.files then Delete(created, targetFile) else (created, true);
      if !cleared.1 then cleared.0
      else Move(cleared.0, fullFileName, targetFile).0
  }

  /** The disk after `MoveToFolder(fileList, outputFolder)`: each file in turn, none stopping the rest. */
  function AfterMoveToFolder(fs: Fs, fileList: seq<Path>, outputFolder: Path): (r: Fs)
    ensures r.locked == fs.locked
    decreases |fileList|
  {
    if fileList == [] then fs
    else MoveOne(AfterMoveToFolder(fs, fileList[..|fileList| - 1], outputFolder), fileList[|fileList| - 1], outputFolder)
  }

  /** `MoveToFolder`: moves every file of `fileList` into `outputFolder`. */
  method MoveToFolder(disk: Disk, fileList: seq<Path>, outputFolder: Path)
    modifies disk
    ensures disk.View() == AfterMoveToFolder(old(disk.View()), fileList, outputFolder)
  {
    for i := 0 to |fileList|
      invariant disk.View() == AfterMoveToFolder(old(disk.View()), fileList[..i], outputFolder)
    {
      assert fileList[..i + 1][..i] == fileList[..i];
      var fullFileName := fileList[i];
      if !disk.DirectoryExists(outputFolder) {
        disk.CreateDirectory(outputFolder);
      }
      var fileName := GetFileName(fullFileName);
      var targetFile := outputFolder + fileName;
      if targetFile == fullFileName {
        // A file already at its target stays where it is.
        continue;
      }
      var cleared := true;
      if disk.FileExists(targetFile) {
        cleared := disk.DeleteFile(targetFile);
      }
      if cleared {
        var moved := disk.MoveFile(fullFileName, targetFile);
      }
    }
    assert fileList[..|fileList|] == fileList;
  }

  // ----------------------------------------------------------------- upload

  /** `output.Write(GetFilesOfTable(dataPath, table))`. */
  function WriteTable(fs: Fs, layout: Layout, output: Output, table: string): Option<WriteResult> {
    var files := GetFilesOfTable(fs, layout, layout.dataFolder, table);
    if files.None? then None else output(files.value)
  }

  /**
   * `OutputWriteResult.Aggregate`: one write per table, in order, the written
   * and the failed files gathered across tables; a write that throws ends it.
   */
  function WriteTables(fs: Fs, layout: Layout, output: Output, tables: seq<string>): (r: Option<WriteResult>)
  {
    if tables == [] then Some(WriteResult([], []))
    else
      match WriteTable(fs, layout, output, tables[0])
      case None => None
      case Some(first) =>
        match WriteTables(fs, layout, output, tables[1..])
        case None => None
        case Some(rest) =>
          Some(WriteResult(first.successfullyWrittenFiles + rest.successfullyWrittenFiles,
                           first.failedFiles + rest.failedFiles))
  }

  /**
   * The disk after `DoUpload`: no data folder ends the pass silently; a
   * throwing write ends it before anything moves; otherwise the written files
   * go to `processed/` and the failed ones to `errors/`.
   */
  function AfterDoUpload(fs: Fs, layout: Layout, output: Output): Fs {
    match GetPendingTables(fs, layout.dataFolder)
    case None => fs
    case Some(tables) =>
      match WriteTables(fs, layout, output, tables)
      case None => fs
      case Some(result) =>
        AfterMoveToFolder(AfterMoveToFolder(fs, result.successfullyWrittenFiles, layout.ProcessedPath()),
                          result.failedFiles, layout.ErrorPath())
  }

  /** `DoUpload`, with `MoveAllFiles` inlined. */
  method DoUpload(disk: Disk, layout: Layout, output: Output)
    modifies disk
    ensures disk.View() == AfterDoUpload(old(disk.View()), layout, output)
  {
    var tableNames := GetPendingTables(disk.View(), layout.dataFolder);
    if tableNames.None? {
      // DirectoryNotFoundException: no data folder, so no data files.
      return;
    }
    var written := WriteTables(disk.View(), layout, output, tableNames.value);
    if written.None? {
      // Any other exception is logged and ends the pass.
      return;
    }
    MoveToFolder(disk, written.value.successfullyWrittenFiles, layout.ProcessedPath());
    MoveToFolder(disk, written.value.failedFiles, layout.ErrorPath());
  }

  // ---------------------------------------------------------------- TTL sweep

  /** The files of `from` created strictly before `now - ttl`, in listing order. */
  function ExpiredFiles(fs: Fs, from: Path, ttl: int, now: int): (r: seq<Path>)
    ensures forall p :: p in r <==>
      p in EnumerateFiles(fs, from) && fs.files[p].creationTime < now - ttl
  {
    Filter(EnumerateFiles(fs, from), p => p in fs.files && fs.files[p].creationTime < now - ttl)
  }

  /** `ForEach(f => f.Delete())`: the first delete that throws ends the sweep (result false). */
  function DeleteEach(fs: Fs, paths: seq<Path>): (r: (Fs, bool))
    ensures r.0.locked == fs.locked && r.0.directories == fs.directories
    decreases |paths|
  {
    if paths == [] then (fs, true)
    else
      var d := Delete(fs, paths[0]);
      if !d.1 then (d.0, false) else DeleteEach(d.0, paths[1..])
  }

  /** The disk after `DeleteOldFiles(from, ttl)` and whether it returned normally. */
  function AfterDeleteOldFiles(fs: Fs, from: Path, ttl: int, now: int): (r: (Fs, bool)) {
    if from !in fs.directories then (fs, true)
    else DeleteEach(fs, ExpiredFiles(fs, from, ttl, now))
  }

  /**
   * `DeleteOldFiles(from, ttl)` with the clock read as `now` (seconds); `ok` is
   * false when a delete threw, which ends the sweep and propagates.
   */
  method DeleteOldFiles(disk: Disk, from: Path, ttl: int, now: int) returns (ok: bool)
    modifies disk
    ensures (disk.View(), ok) == AfterDeleteOldFiles(old(disk.View()), from, ttl, now)
  {
    if !disk.DirectoryExists(from) {
      // A missing folder holds no expired files.
      return true;
    }
    var expired := ExpiredFiles(disk.View(), from, ttl, now);
    var i := 0;
    while i < |expired|
      invariant 0 <= i <= |expired|
      invariant DeleteEach(old(disk.View()), expired) == DeleteEach(disk.View(), expired[i..])
    {
      assert expired[i..][1..] == expired[i + 1..];
      var deleted := disk.DeleteFile(expired[i]);
      if !deleted {
        return false;
      }
      i := i + 1;
    }
    return true;
  }

  // ------------------------------------------------------------ storage limit

  /** What `CollectStoredFiles` keeps of a file: `FileInfo` with its name, length and creation time. */
  datatype StoredFile = StoredFile(fullName: Path, length: nat, creationTime: int)

  /** The `FileInfo` of each path. */
  function Infos(fs: Fs, paths: seq<Path>): (r: seq<StoredFile>)
    requires forall p :: p in paths ==> p in fs.files
    ensures |r| == |paths|
    ensures forall k :: 0 <= k < |r| ==>
      r[k] == StoredFile(paths[k], fs.files[paths[k]].Length(), fs.files[paths[k]].creationTime)
  {
    if paths == [] then []
    else
      var p := paths[0];
      [StoredFile(p, fs.files[p].Length(), fs.files[p].creationTime)] + Infos(fs, paths[1..])
  }

  /** Oldest first. */
  predicate SortedByCreation(files: seq<StoredFile>) {
    forall i, j :: 0 <= i < j < |files| ==> files[i].creationTime <= files[j].creationTime
  }

  /** Puts `f` before the first file of `sorted` that is not older than it. */
  function InsertByCreation(f: StoredFile, sorted: seq<StoredFile>): (r: seq<StoredFile>)
    requires SortedByCreation(sorted)
    ensures SortedByCreation(r)
    ensures multiset(r) == multiset(sorted) + multiset{f}
  {
    if sorted == [] || f.creationTime <= sorted[0].creationTime then [f] + sorted
    else
      var rest := InsertByCreation(f, sorted[1..]);
      InsertStep(f, sorted, rest);
      [sorted[0]] + rest
  }

  /** The recursive case of `InsertByCreation`: the first file stays in front. */
  lemma InsertStep(f: StoredFile, sorted: seq<StoredFile>, rest: seq<StoredFile>)
    requires SortedByCreation(sorted) && sorted != [] && sorted[0].creationTime < f.creationTime
    requires SortedByCreation(rest) && multiset(rest) == multiset(sorted[1..]) + multiset{f}
    ensures SortedByCreation([sorted[0]] + rest)
    ensures multiset([sorted[0]] + rest) == multiset(sorted) + multiset{f}
  {
    assert sorted == [sorted[0]] + sorted[1..];
    forall k | 0 <= k < |rest| ensures sorted[0].creationTime <= rest[k].creationTime {
      assert rest[k] in multiset(rest);
      if rest[k] != f {
        assert rest[k] in sorted[1..];
      }
    }
    SortedCons(sorted[0], rest);
  }

  /** A file no newer than every file of a sorted list can go in front of it. */
  lemma SortedCons(f: StoredFile, sorted: seq<StoredFile>)
    requires SortedByCreation(sorted)
    requires forall k :: 0 <= k < |sorted| ==> f.creationTime <= sorted[k].creationTime
    ensures SortedByCreation([f] + sorted)
  {
    var r := [f] + sorted;
    forall i, j | 0 <= i < j < |r| ensures r[i].creationTime <= r[j].creationTime {
      if i > 0 {
        assert r[i] == sorted[i - 1] && r[j] == sorted[j - 1];
      }
    }
  }

  /** The files of `files` created at time `t`, in their order there. */
  function CreatedAt(files: seq<StoredFile>, t: int): seq<StoredFile> {
    if files == [] then []
    else (if files[0].creationTime == t then [files[0]] else []) + CreatedAt(files[1..], t)
  }


  /** `CreatedAt` of a list with a file in front. */
  lemma CreatedAtCons(f: StoredFile, files: seq<StoredFile>, t: int)
    ensures CreatedAt([f] + files, t) == (if f.creationTime == t then [f] else []) + CreatedAt(files, t)
  {
    assert ([f] + files)[1..] == files;
  }

  /** The recursive case of `InsertByCreation`, as an equation. */
  lemma InsertUnfold(f: StoredFile, sorted: seq<StoredFile>)
    requires SortedByCreation(sorted) && sorted != [] && sorted[0].creationTime < f.creationTime
    ensures SortedByCreation(sorted[1..])
    ensures InsertByCreation(f, sorted) == [sorted[0]] + InsertByCreation(f, sorted[1..])
  {
  }

  /** Inserting `f` puts it ahead of the files created at the same time. */
  lemma {:induction false} InsertKeepsOrder(f: StoredFile, sorted: seq<StoredFile>, t: int)
    requires SortedByCreation(sorted)
    ensures CreatedAt(InsertByCreation(f, sorted), t) ==
      (if f.creationTime == t then [f] else []) + CreatedAt(sorted, t)
    decreases |sorted|
  {
    if sorted == [] || f.creationTime <= sorted[0].creationTime {
      CreatedAtCons(f, sorted, t);
    } else {
      var first, tail := sorted[0], sorted[1..];
      InsertUnfold(f, sorted);
      var rest := InsertByCreation(f, tail);
      InsertKeepsOrder(f, tail, t);
      CreatedAtCons(first, rest, t);
      assert sorted == [first] + tail;
      CreatedAtCons(first, tail, t);
      // `first` is strictly older than `f`, so at most one of them was created at `t`.
      if f.creationTime == t {
        assert CreatedAt(sorted, t) == CreatedAt(tail, t);
        assert CreatedAt([first] + rest, t) == CreatedAt(rest, t);
      } else if first.creationTime == t {
        assert CreatedAt(rest, t) == CreatedAt(tail, t);
        assert CreatedAt([first] + rest, t) == [first] + CreatedAt(tail, t);
      }
    }
  }

  /**
   * `OrderBy(file => file.CreationTimeUtc)`: oldest first, a permutation, and
   * stable: files created at the same time keep their listing order.
   */
  function SortByCreation(files: seq<StoredFile>): (r: seq<StoredFile>)
    ensures SortedByCreation(r)
    ensures multiset(r) == multiset(files)
    ensures forall t :: CreatedAt(r, t) == CreatedAt(files, t)
  {
    if files == [] then []
    else
      assert files == [files[0]] + files[1..];
      var sortedRest := SortByCreation(files[1..]);
      forall t ensures CreatedAt(InsertByCreation(files[0], sortedRest), t) == CreatedAt(files, t) {
        InsertKeepsOrder(files[0], sortedRest, t);
      }
      InsertByCreation(files[0], sortedRest)
  }

  /** The files directly in `dir`, or none when it does not exist. */
  function FilesIfExists(fs: Fs, dir: Path): (r: seq<Path>)
    ensures forall p :: p in r ==> p in fs.files && InDirectory(p, dir) && dir in fs.directories
  {
    if dir in fs.directories then EnumerateFiles(fs, dir) else []
  }

  /**
   * `CollectStoredFiles`: the files of `processed/` and `errors/` (not the data
   * folder itself), oldest first.
   */
  function CollectStoredFiles(fs: Fs, layout: Layout): (r: seq<StoredFile>)
    ensures SortedByCreation(r)
    ensures multiset(r) == multiset(Infos(fs, FilesIfExists(fs, layout.ProcessedPath()) + FilesIfExists(fs, layout.ErrorPath())))
    ensures forall t ::
      CreatedAt(r, t) == CreatedAt(Infos(fs, FilesIfExists(fs, layout.ProcessedPath()) + FilesIfExists(fs, layout.ErrorPath())), t)
  {
    SortByCreation(Infos(fs, FilesIfExists(fs, layout.ProcessedPath()) + FilesIfExists(fs, layout.ErrorPath())))
  }

  /** Sum of the lengths of `files`. */
  function TotalLength(files: seq<StoredFile>): nat {
    if files == [] then 0 else files[0].length + TotalLength(files[1..])
  }

  /**
   * C#'s `x / 2` on `long`, which truncates toward zero: twice the result
   * misses `x` by at most one, on the side of zero.
   */
  function HalfOf(x: int): (r: int)
    ensures x >= 0 ==> 0 <= x - 2 * r < 2
    ensures x < 0 ==> -2 < x - 2 * r <= 0
  {
    if x >= 0 then x / 2 else -((-x) / 2)
  }

  /**
   * The deletion loop of `ApplyStorageLimit`: delete oldest first; a delete
   * that throws is logged and the loop goes on without counting it; stop right
   * after the delete that brings the running total to `threshold` or below.
   */
  function Evict(fs: Fs, files: seq<StoredFile>, cumulatedSize: int, threshold: int): (r: Fs)
    ensures r.locked == fs.locked && r.directories == fs.directories
    decreases |files|
  {
    if files == [] then fs
    else
      var d := Delete(fs, files[0].fullName);
      if !d.1 then Evict(d.0, files[1..], cumulatedSize, threshold)
      else if cumulatedSize - files[0].length <= threshold then d.0
      else Evict(d.0, files[1..], cumulatedSize - files[0].length, threshold)
  }

  /** One step of `Evict`, as the deletion loop takes it. */
  lemma EvictStep(fs: Fs, files: seq<StoredFile>, cumulatedSize: int, threshold: int)
    requires files != []
    ensures var d := Delete(fs, files[0].fullName);
      Evict(fs, files, cumulatedSize, threshold) ==
        if !d.1 then Evict(d.0, files[1..], cumulatedSize, threshold)
        else if cumulatedSize - files[0].length <= threshold then d.0
        else Evict(d.0, files[1..], cumulatedSize - files[0].length, threshold)
  {
  }

  /** The disk after `ApplyStorageLimit(storageLimitInBytes)`. */
  function AfterApplyStorageLimit(fs: Fs, layout: Layout, storageLimitInBytes: int): Fs {
    var storedFiles := CollectStoredFiles(fs, layout);
    var total := TotalLength(storedFiles);
    if storageLimitInBytes > total then fs
    else Evict(fs, storedFiles, total, HalfOf(storageLimitInBytes))
  }

  /** `ApplyStorageLimit`: evicts stored files oldest first once they reach the limit. */
  method ApplyStorageLimit(disk: Disk, layout: Layout, storageLimitInBytes: int)
    modifies disk
    ensures disk.View() == AfterApplyStorageLimit(old(disk.View()), layout, storageLimitInBytes)
  {
    ghost var before := disk.View();
    var storedFiles := CollectStoredFiles(disk.View(), layout);

    var cumulatedSize := 0;
    for i := 0 to |storedFiles|
      invariant cumulatedSize + TotalLength(storedFiles[i..]) == TotalLength(storedFiles)
    {
      assert storedFiles[i..][1..] == storedFiles[i + 1..];
      cumulatedSize := cumulatedSize + storedFiles[i].length;
    }
    assert storedFiles[|storedFiles|..] == [];
    assert cumulatedSize == TotalLength(storedFiles);

    if storageLimitInBytes > cumulatedSize {
      // The stored files fit under the limit: nothing is evicted.
      assert AfterApplyStorageLimit(before, layout, storageLimitInBytes) == before;
      return;
    }

    assert AfterApplyStorageLimit(before, layout, storageLimitInBytes)
        == Evict(before, storedFiles, cumulatedSize, HalfOf(storageLimitInBytes));
    DeleteOldestFirst(disk, storedFiles, cumulatedSize, HalfOf(storageLimitInBytes));
  }

  /**
   * The second loop of `ApplyStorageLimit`: deletes `storedFiles` in order,
   * decrementing `cumulatedSize` for each delete that succeeds, and stops once
   * it is at most `threshold`.
   */
  method DeleteOldestFirst(disk: Disk, storedFiles: seq<StoredFile>, cumulatedSize: int, threshold: int)
    modifies disk
    ensures disk.View() == Evict(old(disk.View()), storedFiles, cumulatedSize, threshold)
  {
    var remaining := cumulatedSize;
    var i := 0;
    while i < |storedFiles|
      invariant 0 <= i <= |storedFiles|
      invariant Evict(old(disk.View()), storedFiles, cumulatedSize, threshold)
             == Evict(disk.View(), storedFiles[i..], remaining, threshold)
    {
      var file := storedFiles[i];
      EvictStep(disk.View(), storedFiles[i..], remaining, threshold);
      assert storedFiles[i..][1..] == storedFiles[i + 1..];
      var deleted := disk.DeleteFile(file.fullName);
      if deleted {
        remaining := remaining - file.length;
        if remaining <= threshold {
          // The total is down to half the limit: eviction ends here.
          break;
        }
      }
      i := i + 1;
    }
  }

  // ------------------------------------------------------------------ a pass

  /** Bytes in a megabyte, as `Start` converts the configured limit. */
  const BytesPerMegabyte: int := 1024 * 1024

  /**
   * The disk after `Start` and whether it returned normally: upload, sweep
   * `processed/`, then apply the storage limit given in megabytes; a sweep that
   * throws skips the storage limit.
   */
  function AfterStart(fs: Fs, layout: Layout, output: Output, processedFilesTTL: int,
                      storageLimit: int, now: int): (Fs, bool)
  {
    var uploaded := AfterDoUpload(fs, layout, output);
    var swept := AfterDeleteOldFiles(uploaded, layout.ProcessedPath(), processedFilesTTL, now);
    if !swept.1 then swept
    else (AfterApplyStorageLimit(swept.0, layout, storageLimit * BytesPerMegabyte), true)
  }

  /** `Start`: one upload pass. `ok` is false when an exception escapes. */
  method Start(disk: Disk, layout: Layout, output: Output, processedFilesTTL: int,
               storageLimit: int, now: int) returns (ok: bool)
    modifies disk
    ensures (disk.View(), ok) == AfterStart(old(disk.View()), layout, output, processedFilesTTL, storageLimit, now)
  {
    DoUpload(disk, layout, output);
    ok := DeleteOldFiles(disk, layout.ProcessedPath(), processedFilesTTL, now);
    if !ok {
      return;
    }
    // The limit is configured in megabytes; the eviction works in bytes.
    ApplyStorageLimit(disk, layout, storageLimit * BytesPerMegabyte);
  }
}
