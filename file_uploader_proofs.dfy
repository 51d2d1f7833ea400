/**
 * What the buffer operations of FileUploader.cs guarantee, proved about the
 * functions that specify the `Disk` methods.
 */
module FileUploaderProofs {
  import opened Wrappers
  import opened Strings
  import opened FileSystem
  import opened FileNames
  import opened FileUploader

  // ----------------------------------------------------------------- moving

  /** A file whose target is its own path is left where it is, as it is. */
  lemma MoveToSelfUntouched(fs: Fs, fullFileName: Path, outputFolder: Path)
    requires Target(outputFolder, fullFileName) == fullFileName
    ensures MoveOne(fs, fullFileName, outputFolder).files == fs.files
  {
  }

  /**
   * A movable file ends up at its target with its content and is gone from
   * where it was; whatever the target held before is discarded.
   */
  lemma MoveOneDelivers(fs: Fs, fullFileName: Path, outputFolder: Path)
    requires Target(outputFolder, fullFileName) != fullFileName
    requires fullFileName in fs.files && fullFileName !in fs.locked
    requires Target(outputFolder, fullFileName) !in fs.locked
    ensures MoveOne(fs, fullFileName, outputFolder).files ==
      (fs.files - {fullFileName})[Target(outputFolder, fullFileName) := fs.files[fullFileName]]
  {
  }

  /**
   * When the source cannot be moved (it is missing or held open) the target
   * has already been deleted: the old target content is lost all the same.
   */
  lemma MoveOneFailedMoveLosesTarget(fs: Fs, fullFileName: Path, outputFolder: Path)
    requires Target(outputFolder, fullFileName) != fullFileName
    requires fullFileName !in fs.files || fullFileName in fs.locked
    requires Target(outputFolder, fullFileName) !in fs.locked
    ensures MoveOne(fs, fullFileName, outputFolder).files == fs.files - {Target(outputFolder, fullFileName)}
  {
  }

  /** `p` is neither a file of the list nor the target of one. */
  predicate Untouched(p: Path, fileList: seq<Path>, outputFolder: Path) {
    forall k :: 0 <= k < |fileList| ==> p != fileList[k] && p != Target(outputFolder, fileList[k])
  }

  /** `MoveToFolder` changes only the files of the list and their targets. */
  lemma {:induction false} MoveToFolderFrame(fs: Fs, fileList: seq<Path>, outputFolder: Path, p: Path)
    requires Untouched(p, fileList, outputFolder)
    ensures var r := AfterMoveToFolder(fs, fileList, outputFolder);
      (p in r.files <==> p in fs.files) && (p in fs.files ==> r.files[p] == fs.files[p])
    decreases |fileList|
  {
    if fileList != [] {
      var init := fileList[..|fileList| - 1];
      assert Untouched(p, init, outputFolder) by {
        forall k | 0 <= k < |init| ensures p != init[k] && p != Target(outputFolder, init[k]) {
          assert init[k] == fileList[k];
        }
      }
      MoveToFolderFrame(fs, init, outputFolder, p);
      assert p != fileList[|fileList| - 1];
    }
  }

  /**
   * The conditions under which every file of a `MoveToFolder` call has a place
   * of its own: the file names are distinct, no file of the list sits where a
   * file of the list is to go, and nothing holds a target open.
   */
  predicate Deliverable(fs: Fs, fileList: seq<Path>, outputFolder: Path) {
    (forall i, j :: 0 <= i < j < |fileList| ==> GetFileName(fileList[i]) != GetFileName(fileList[j])) &&
    (forall i, j :: 0 <= i < |fileList| && 0 <= j < |fileList| ==> Target(outputFolder, fileList[i]) != fileList[j]) &&
    (forall i :: 0 <= i < |fileList| ==> Target(outputFolder, fileList[i]) !in fs.locked)
  }

  /** What `MoveToFolder` leaves of one file of the list. */
  predicate Delivered(fs: Fs, r: Fs, f: Path, outputFolder: Path) {
    (f in fs.files && f !in fs.locked ==>
      f !in r.files && Target(outputFolder, f) in r.files && r.files[Target(outputFolder, f)] == fs.files[f]) &&
    (f in fs.files && f in fs.locked ==> f in r.files && r.files[f] == fs.files[f])
  }

  /** Distinct file names give distinct targets. */
  lemma TargetsDiffer(outputFolder: Path, f: Path, g: Path)
    requires GetFileName(f) != GetFileName(g)
    ensures Target(outputFolder, f) != Target(outputFolder, g)
  {
    assert Target(outputFolder, f)[|outputFolder|..] == GetFileName(f);
    assert Target(outputFolder, g)[|outputFolder|..] == GetFileName(g);
  }

  lemma DeliverableInit(fs: Fs, fileList: seq<Path>, outputFolder: Path)
    requires Deliverable(fs, fileList, outputFolder) && fileList != []
    ensures Deliverable(fs, fileList[..|fileList| - 1], outputFolder)
  {
    var init := fileList[..|fileList| - 1];
    forall i | 0 <= i < |init| ensures init[i] == fileList[i] { }
  }

  /** The last file of the list is untouched by the moves of the files before it, and so is its target. */
  lemma LastUntouched(fs: Fs, fileList: seq<Path>, outputFolder: Path)
    requires Deliverable(fs, fileList, outputFolder) && fileList != []
    ensures var x := fileList[|fileList| - 1];
      Untouched(x, fileList[..|fileList| - 1], outputFolder) &&
      Untouched(Target(outputFolder, x), fileList[..|fileList| - 1], outputFolder)
  {
    var n := |fileList| - 1;
    var init, x := fileList[..n], fileList[n];
    forall k | 0 <= k < n
      ensures x != init[k] && x != Target(outputFolder, init[k])
      ensures Target(outputFolder, x) != init[k] && Target(outputFolder, x) != Target(outputFolder, init[k])
    {
      assert init[k] == fileList[k];
      TargetsDiffer(outputFolder, init[k], x);
    }
  }

  /** A file already delivered stays delivered when an unrelated file is moved. */
  lemma DeliveredKept(fs: Fs, s: Fs, f: Path, x: Path, outputFolder: Path)
    requires Delivered(fs, s, f, outputFolder)
    requires f != x && f != Target(outputFolder, x)
    requires Target(outputFolder, f) != x && Target(outputFolder, f) != Target(outputFolder, x)
    ensures Delivered(fs, MoveOne(s, x, outputFolder), f, outputFolder)
  {
  }

  /** Moving the last file of the list leaves the files before it delivered. */
  lemma EarlierStayDelivered(fs: Fs, s: Fs, fileList: seq<Path>, outputFolder: Path)
    requires Deliverable(fs, fileList, outputFolder) && fileList != []
    requires forall k :: 0 <= k < |fileList| - 1 ==> Delivered(fs, s, fileList[k], outputFolder)
    ensures forall k :: 0 <= k < |fileList| - 1 ==>
      Delivered(fs, MoveOne(s, fileList[|fileList| - 1], outputFolder), fileList[k], outputFolder)
  {
    var x := fileList[|fileList| - 1];
    forall k | 0 <= k < |fileList| - 1
      ensures Delivered(fs, MoveOne(s, x, outputFolder), fileList[k], outputFolder)
    {
      TargetsDiffer(outputFolder, fileList[k], x);
      DeliveredKept(fs, s, fileList[k], x, outputFolder);
    }
  }

  /**
   * `MoveToFolder` moves every file it can into the folder with its content,
   * and a file it cannot move (held open) stays as it was without stopping the
   * files after it.
   */
  lemma {:induction false} MoveToFolderDelivers(fs: Fs, fileList: seq<Path>, outputFolder: Path)
    requires Deliverable(fs, fileList, outputFolder)
    ensures forall k :: 0 <= k < |fileList| ==>
      Delivered(fs, AfterMoveToFolder(fs, fileList, outputFolder), fileList[k], outputFolder)
    decreases |fileList|
  {
    if fileList != [] {
      var n := |fileList| - 1;
      var init, x := fileList[..n], fileList[n];
      var s := AfterMoveToFolder(fs, init, outputFolder);
      DeliverableInit(fs, fileList, outputFolder);
      MoveToFolderDelivers(fs, init, outputFolder);
      assert forall k :: 0 <= k < n ==> Delivered(fs, s, fileList[k], outputFolder) by {
        forall k | 0 <= k < n ensures Delivered(fs, s, fileList[k], outputFolder) {
          assert init[k] == fileList[k];
        }
      }
      EarlierStayDelivered(fs, s, fileList, outputFolder);
      LastUntouched(fs, fileList, outputFolder);
      MoveToFolderFrame(fs, init, outputFolder, x);
      MoveToFolderFrame(fs, init, outputFolder, Target(outputFolder, x));
      DeliverLast(fs, s, x, outputFolder);
      assert AfterMoveToFolder(fs, fileList, outputFolder) == MoveOne(s, x, outputFolder);
    }
  }

  /** The last file of the list is delivered when the moves before it left it and its target alone. */
  lemma DeliverLast(fs: Fs, s: Fs, x: Path, outputFolder: Path)
    requires s.locked == fs.locked
    requires Target(outputFolder, x) != x && Target(outputFolder, x) !in fs.locked
    requires (x in s.files <==> x in fs.files) && (x in fs.files ==> s.files[x] == fs.files[x])
    ensures Delivered(fs, MoveOne(s, x, outputFolder), x, outputFolder)
  {
    if x in fs.files && x !in fs.locked {
      MoveOneDelivers(s, x, outputFolder);
    }
  }

  // ----------------------------------------------------------------- upload

  /** A target in a sub-directory of `dataFolder` is never a file directly in `dataFolder`. */
  lemma TargetLeavesDataFolder(dataFolder: Path, sub: string, f: Path, x: Path)
    requires '/' in sub && InDirectory(x, dataFolder)
    ensures Target(dataFolder + sub, f) != x
  {
    var t := Target(dataFolder + sub, f);
    assert t[|dataFolder|..] == sub + GetFileName(f);
    assert '/' in t[|dataFolder|..];
  }

  /** A target in `processed/` is never a target in `errors/`. */
  lemma ProcessedAndErrorsApart(layout: Layout, f: Path, g: Path)
    ensures Target(layout.ProcessedPath(), f) != Target(layout.ErrorPath(), g)
  {
    var n := |layout.dataFolder|;
    assert Target(layout.ProcessedPath(), f)[n] == 'p';
    assert Target(layout.ErrorPath(), g)[n] == 'e';
  }

  /**
   * The conditions under which `DoUpload` can place every file the output
   * reported: the files lie directly in the data folder, file names are
   * distinct within each list, no file is reported both written and failed,
   * and nothing holds a target open.
   */
  predicate Placeable(fs: Fs, layout: Layout, written: seq<Path>, failed: seq<Path>) {
    (forall i :: 0 <= i < |written| ==> InDirectory(written[i], layout.dataFolder)) &&
    (forall i :: 0 <= i < |failed| ==> InDirectory(failed[i], layout.dataFolder)) &&
    (forall i, j :: 0 <= i < j < |written| ==> GetFileName(written[i]) != GetFileName(written[j])) &&
    (forall i, j :: 0 <= i < j < |failed| ==> GetFileName(failed[i]) != GetFileName(failed[j])) &&
    (forall i, j :: 0 <= i < |written| && 0 <= j < |failed| ==> written[i] != failed[j]) &&
    (forall i :: 0 <= i < |written| ==> Target(layout.ProcessedPath(), written[i]) !in fs.locked) &&
    (forall i :: 0 <= i < |failed| ==> Target(layout.ErrorPath(), failed[i]) !in fs.locked)
  }

  lemma PlaceableLists(fs: Fs, layout: Layout, written: seq<Path>, failed: seq<Path>)
    requires Placeable(fs, layout, written, failed)
    ensures Deliverable(fs, written, layout.ProcessedPath())
    ensures Deliverable(fs, failed, layout.ErrorPath())
    ensures forall i, j :: 0 <= i < |written| && 0 <= j < |failed| ==>
      Target(layout.ProcessedPath(), written[i]) != failed[j] && Target(layout.ErrorPath(), failed[j]) != written[i] &&
      Target(layout.ProcessedPath(), written[i]) != Target(layout.ErrorPath(), failed[j])
  {
    var d := layout.dataFolder;
    forall i, j | 0 <= i < |written| && 0 <= j < |written|
      ensures Target(layout.ProcessedPath(), written[i]) != written[j]
    {
      TargetLeavesDataFolder(d, ProcessedPrefix, written[i], written[j]);
    }
    forall i, j | 0 <= i < |failed| && 0 <= j < |failed|
      ensures Target(layout.ErrorPath(), failed[i]) != failed[j]
    {
      TargetLeavesDataFolder(d, ErrorPrefix, failed[i], failed[j]);
    }
    forall i, j | 0 <= i < |written| && 0 <= j < |failed|
      ensures Target(layout.ProcessedPath(), written[i]) != failed[j] && Target(layout.ErrorPath(), failed[j]) != written[i]
      ensures Target(layout.ProcessedPath(), written[i]) != Target(layout.ErrorPath(), failed[j])
    {
      TargetLeavesDataFolder(d, ProcessedPrefix, written[i], failed[j]);
      TargetLeavesDataFolder(d, ErrorPrefix, failed[j], written[i]);
      ProcessedAndErrorsApart(layout, written[i], failed[j]);
    }
  }

  /** A file delivered by the first move stays delivered through a second move that leaves it and its target alone. */
  lemma StaysDelivered(fs: Fs, s: Fs, f: Path, outputFolder: Path, fileList: seq<Path>, secondFolder: Path)
    requires Delivered(fs, s, f, outputFolder) && s.locked == fs.locked
    requires Untouched(f, fileList, secondFolder) && Untouched(Target(outputFolder, f), fileList, secondFolder)
    ensures Delivered(fs, AfterMoveToFolder(s, fileList, secondFolder), f, outputFolder)
  {
    MoveToFolderFrame(s, fileList, secondFolder, f);
    MoveToFolderFrame(s, fileList, secondFolder, Target(outputFolder, f));
  }

  /** A file the first move leaves alone is delivered by the second move as it would be from the start. */
  lemma DeliveredLater(fs: Fs, s: Fs, f: Path, outputFolder: Path, r: Fs)
    requires Delivered(s, r, f, outputFolder) && s.locked == fs.locked
    requires (f in s.files <==> f in fs.files) && (f in fs.files ==> s.files[f] == fs.files[f])
    ensures Delivered(fs, r, f, outputFolder)
  {
  }

  /**
   * After a successful write, `DoUpload` moves each written file it can to
   * `processed/` and each failed file it can to `errors/`, each with its content;
   * a file held open stays where it was.
   */
  lemma DoUploadPlacesFiles(fs: Fs, layout: Layout, output: Output, result: WriteResult)
    requires layout.dataFolder in fs.directories
    requires WriteTables(fs, layout, output, GetPendingTables(fs, layout.dataFolder).value) == Some(result)
    requires Placeable(fs, layout, result.successfullyWrittenFiles, result.failedFiles)
    ensures forall i :: 0 <= i < |result.successfullyWrittenFiles| ==>
      Delivered(fs, AfterDoUpload(fs, layout, output), result.successfullyWrittenFiles[i], layout.ProcessedPath())
    ensures forall j :: 0 <= j < |result.failedFiles| ==>
      Delivered(fs, AfterDoUpload(fs, layout, output), result.failedFiles[j], layout.ErrorPath())
  {
    var w, f := result.successfullyWrittenFiles, result.failedFiles;
    var P, E := layout.ProcessedPath(), layout.ErrorPath();
    var s := AfterMoveToFolder(fs, w, P);
    var r := AfterMoveToFolder(s, f, E);
    assert AfterDoUpload(fs, layout, output) == r;
    PlaceableLists(fs, layout, w, f);
    MoveToFolderDelivers(fs, w, P);
    forall i | 0 <= i < |w| ensures Delivered(fs, r, w[i], P) {
      assert Untouched(w[i], f, E) && Untouched(Target(P, w[i]), f, E);
      StaysDelivered(fs, s, w[i], P, f, E);
    }
    assert Deliverable(s, f, E);
    MoveToFolderDelivers(s, f, E);
    forall j | 0 <= j < |f| ensures Delivered(fs, r, f[j], E) {
      assert Untouched(f[j], w, P);
      MoveToFolderFrame(fs, w, P, f[j]);
      DeliveredLater(fs, s, f[j], E, r);
    }
  }

  // ---------------------------------------------------------------- TTL sweep

  /** The paths of a list, as a set. */
  function Elements(paths: seq<Path>): (r: set<Path>)
    ensures forall p :: p in r <==> p in paths
  {
    set p | p in paths
  }

  /** Deleting files none of which is held open completes and removes exactly those files. */
  lemma {:induction false} DeleteEachUnlocked(fs: Fs, paths: seq<Path>)
    requires forall k :: 0 <= k < |paths| ==> paths[k] !in fs.locked
    ensures DeleteEach(fs, paths).1
    ensures DeleteEach(fs, paths).0.files == fs.files - Elements(paths)
    decreases |paths|
  {
    if paths != [] {
      var d := Delete(fs, paths[0]);
      DeleteEachUnlocked(d.0, paths[1..]);
      assert Elements(paths) == {paths[0]} + Elements(paths[1..]);
    }
  }

  /**
   * The sweep has no per-file catch: the first file it cannot delete ends it,
   * so exactly the files listed before that one are gone.
   */
  lemma {:induction false} DeleteEachStopsAtLocked(fs: Fs, paths: seq<Path>, k: nat)
    requires k < |paths| && paths[k] in fs.files && paths[k] in fs.locked
    requires forall i :: 0 <= i < k ==> paths[i] !in fs.locked
    ensures !DeleteEach(fs, paths).1
    ensures DeleteEach(fs, paths).0.files == fs.files - Elements(paths[..k])
    decreases k
  {
    if k == 0 {
      assert Elements(paths[..0]) == {};
    } else {
      var d := Delete(fs, paths[0]);
      assert paths[1..][k - 1] == paths[k];
      DeleteEachStopsAtLocked(d.0, paths[1..], k - 1);
      assert paths[..k] == [paths[0]] + paths[1..][..k - 1];
      assert Elements(paths[..k]) == {paths[0]} + Elements(paths[1..][..k - 1]);
    }
  }

  /** The files of `from` created strictly before `now - ttl`. */
  function Expired(fs: Fs, from: Path, ttl: int, now: int): set<Path> {
    set p | p in fs.files && InDirectory(p, from) && fs.files[p].creationTime < now - ttl
  }

  /**
   * With every file listed once, the sweep of an existing folder in which no
   * expired file is held open completes and deletes exactly the files created
   * strictly before `now - ttl`.
   */
  lemma DeleteOldFilesExact(fs: Fs, from: Path, ttl: int, now: int)
    requires fs.Valid() && from in fs.directories
    requires forall p :: p in Expired(fs, from, ttl, now) ==> p !in fs.locked
    ensures AfterDeleteOldFiles(fs, from, ttl, now).1
    ensures AfterDeleteOldFiles(fs, from, ttl, now).0.files == fs.files - Expired(fs, from, ttl, now)
  {
    var expired := ExpiredFiles(fs, from, ttl, now);
    assert Elements(expired) == Expired(fs, from, ttl, now);
    forall k | 0 <= k < |expired| ensures expired[k] !in fs.locked {
      assert expired[k] in Elements(expired);
    }
    DeleteEachUnlocked(fs, expired);
  }

  /** A sweep that meets an expired file held open fails. */
  lemma {:induction false} DeleteEachFailsOnLocked(fs: Fs, paths: seq<Path>, k: nat)
    requires k < |paths| && paths[k] in fs.files && paths[k] in fs.locked
    ensures !DeleteEach(fs, paths).1
    decreases k
  {
    if k > 0 && !(paths[0] in fs.files && paths[0] in fs.locked) {
      assert paths[1..][k - 1] == paths[k];
      DeleteEachFailsOnLocked(Delete(fs, paths[0]).0, paths[1..], k - 1);
    }
  }

  /** One expired file held open makes the whole sweep throw. */
  lemma DeleteOldFilesFails(fs: Fs, from: Path, ttl: int, now: int, p: Path)
    requires fs.Valid() && from in fs.directories
    requires p in Expired(fs, from, ttl, now) && p in fs.locked
    ensures !AfterDeleteOldFiles(fs, from, ttl, now).1
  {
    var expired := ExpiredFiles(fs, from, ttl, now);
    assert p in expired;
    var k :| 0 <= k < |expired| && expired[k] == p;
    DeleteEachFailsOnLocked(fs, expired, k);
  }

  /** The sweep of a folder that does not exist changes nothing and returns normally. */
  lemma DeleteOldFilesNoFolder(fs: Fs, from: Path, ttl: int, now: int)
    requires from !in fs.directories
    ensures AfterDeleteOldFiles(fs, from, ttl, now) == (fs, true)
  {
  }
}
