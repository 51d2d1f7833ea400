/**
 * The part of the local disk the uploader works on: files with their content
 * and creation time, the directories that exist, and the order in which a
 * directory listing returns files. Paths use '/' as separator and a directory
 * path ends with '/'.
 */
module FileSystem {
  import opened Strings

  type Path = string

  /** What `FileInfo` reports about a file: its bytes (so `Length`) and `CreationTime`. */
  datatype FileEntry = FileEntry(content: seq<bv8>, creationTime: int) {
    function Length(): nat { |content| }
  }

  /** `p` names a file directly inside directory `dir` (not in a sub-directory). */
  predicate InDirectory(p: Path, dir: Path) {
    |dir| < |p| && p[..|dir|] == dir && '/' !in p[|dir|..]
  }

  /**
   * A snapshot of the disk. `order` is the order in which directory listings
   * enumerate files; `locked` are files another process holds open, so that
   * deleting or moving them throws.
   */
  datatype Fs = Fs(files: map<Path, FileEntry>, order: seq<Path>, directories: set<Path>, locked: set<Path>) {
    /** Every file is listed exactly once. */
    ghost predicate Valid() {
      NoDuplicates(order) && forall p :: p in files <==> p in order
    }
  }

  /** `s` without `p`. */
  function Without(s: seq<Path>, p: Path): (r: seq<Path>)
    ensures forall q :: q in r <==> q in s && q != p
    ensures NoDuplicates(s) ==> NoDuplicates(r)
  {
    if s == [] then []
    else
      assert NoDuplicates(s) ==> NoDuplicates(s[1..]) && s[0] !in s[1..] by {
        if NoDuplicates(s) {
          forall i, j | 0 <= i < j < |s[1..]| ensures s[1..][i] != s[1..][j] {
            assert s[1..][i] == s[i + 1] && s[1..][j] == s[j + 1];
          }
        }
      }
      var rest := Without(s[1..], p);
      if s[0] == p then rest else [s[0]] + rest
  }

  /** `Directory.EnumerateFiles(dir)`: the files directly in `dir`, in listing order. */
  function EnumerateFiles(fs: Fs, dir: Path): (r: seq<Path>)
    ensures forall p :: p in r <==> p in fs.order && p in fs.files && InDirectory(p, dir)
    ensures forall p :: p in r ==> p in fs.files
  {
    Filter(fs.order, p => p in fs.files && InDirectory(p, dir))
  }

  /**
   * `File.Delete(p)`: a file that another process holds open cannot be deleted
   * (the call throws, result `false`); deleting a missing file is not an error.
   */
  function Delete(fs: Fs, p: Path): (r: (Fs, bool))
    ensures r.1 <==> !(p in fs.files && p in fs.locked)
    ensures r.1 ==> r.0.files == fs.files - {p}
    ensures !r.1 ==> r.0 == fs
    ensures r.0.directories == fs.directories && r.0.locked == fs.locked
    ensures fs.Valid() ==> r.0.Valid()
  {
    if p in fs.files && p in fs.locked then (fs, false)
    else (fs.(files := fs.files - {p}, order := Without(fs.order, p)), true)
  }

  /**
   * `File.Move(src, dst)`: throws (result `false`, nothing changes) when `src`
   * is missing or held open, or when `dst` already exists.
   */
  function Move(fs: Fs, src: Path, dst: Path): (r: (Fs, bool))
    ensures r.1 <==> src in fs.files && src !in fs.locked && dst !in fs.files
    ensures r.1 ==> r.0.files == (fs.files - {src})[dst := fs.files[src]]
    ensures !r.1 ==> r.0 == fs
    ensures r.0.directories == fs.directories && r.0.locked == fs.locked
    ensures fs.Valid() ==> r.0.Valid()
  {
    if src in fs.files && src !in fs.locked && dst !in fs.files then
      var order := Without(fs.order, src) + [dst];
      assert fs.Valid() ==> NoDuplicates(order) by {
        if fs.Valid() {
          forall i, j | 0 <= i < j < |order| ensures order[i] != order[j] {
            if j == |order| - 1 {
              assert order[i] in Without(fs.order, src);
            }
          }
        }
      }
      (fs.(files := (fs.files - {src})[dst := fs.files[src]], order := order), true)
    else (fs, false)
  }

  /** The disk itself, changed in place by the uploader. */
  class Disk {
    var files: map<Path, FileEntry>
    var order: seq<Path>
    var directories: set<Path>
    const locked: set<Path>

    /** The current state of the disk as a value. */
    function View(): Fs
      reads this
    {
      Fs(files, order, directories, locked)
    }

    constructor (initial: Fs)
      ensures View() == initial
    {
      files := initial.files;
      order := initial.order;
      directories := initial.directories;
      locked := initial.locked;
    }

    /** `Directory.Exists(dir)`. */
    predicate DirectoryExists(dir: Path)
      reads this
    {
      dir in directories
    }

    /** `File.Exists(p)`. */
    predicate FileExists(p: Path)
      reads this
    {
      p in files
    }

    /** `Directory.CreateDirectory(dir)`. */
    method CreateDirectory(dir: Path)
      modifies this
      ensures View() == old(View()).(directories := old(directories) + {dir})
    {
      directories := directories + {dir};
    }

    /** `File.Delete(p)`; `ok` is false when the call throws. */
    method DeleteFile(p: Path) returns (ok: bool)
      modifies this
      ensures (View(), ok) == Delete(old(View()), p)
    {
      ok := !(p in files && p in locked);
      if ok {
        files := files - {p};
        order := Without(order, p);
      }
    }

    /** `File.Move(src, dst)`; `ok` is false when the call throws. */
    method MoveFile(src: Path, dst: Path) returns (ok: bool)
      modifies this
      ensures (View(), ok) == Move(old(View()), src, dst)
    {
      ok := src in files && src !in locked && dst !in files;
      if ok {
        files := (files - {src})[dst := files[src]];
        order := Without(order, src) + [dst];
      }
    }
  }
}
