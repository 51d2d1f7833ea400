/**
 * Naming conventions of the local buffer (FileUploader.cs): a buffered file is
 * named `<table>-<suffix><extension>` and the table name is the part of the
 * file name before the first '-'.
 */
module FileNames {
  import opened Strings

  /**
   * `GetFileName`: the text after the last '/' of a path, or the whole path
   * when it has no '/'.
   */
  function GetFileName(fullFileName: string): (r: string)
    ensures '/' !in r
    ensures EndsWith(fullFileName, r)
    ensures r == fullFileName || fullFileName[|fullFileName| - |r| - 1] == '/'
    ensures '/' !in fullFileName ==> r == fullFileName
  {
    var tokens := Split(fullFileName, '/');
    LastToken(fullFileName, '/');
    SplitSingle(fullFileName, '/');
    tokens[|tokens| - 1]
  }

  /**
   * `t` is what `Split('-')[0]` gives for a name with a '-' exactly when `t`
   * holds no '-' and the name starts with `t + "-"`.
   */
  lemma TableNamePrefix(name: string, t: string)
    ensures ('-' in name && t == Split(name, '-')[0]) <==> ('-' !in t && StartsWith(name, t + "-"))
  {
    FirstToken(name, '-');
    BeforeFirstDash(name, t);
  }

  lemma BeforeFirstDash(name: string, t: string)
    ensures ('-' in name && t == name[..IndexOf(name, '-')]) <==> ('-' !in t && StartsWith(name, t + "-"))
  {
    var i := IndexOf(name, '-');
    IndexOfAbsent(name, '-');
    if '-' in name && t == name[..i] {
      DashAfterPrefix(name, i);
    }
    if '-' !in t && StartsWith(name, t + "-") {
      PrefixIsFirstDash(name, t, i);
    }
  }

  lemma DashAfterPrefix(name: string, i: nat)
    requires i < |name| && name[i] == '-'
    ensures name[..i + 1] == name[..i] + "-"
  {
  }

  lemma PrefixIsFirstDash(name: string, t: string, i: nat)
    requires '-' !in t && StartsWith(name, t + "-")
    requires i <= |name| && '-' !in name[..i] && (i < |name| ==> name[i] == '-')
    ensures i == |t| && name[..i] == t
  {
    assert name[..|t| + 1] == t + "-";
    assert name[|t|] == '-';
    assert name[..|t|] == t;
  }

  /**
   * `GetTableName`: the part of the file name before its first '-', or ""
   * when the file name has no '-'.
   */
  function GetTableName(fullFileName: string): (r: string)
    ensures '-' !in GetFileName(fullFileName) ==> r == ""
    ensures '-' in GetFileName(fullFileName) ==>
      '-' !in r && StartsWith(GetFileName(fullFileName), r + "-")
  {
    var fileName := GetFileName(fullFileName);
    var tokens := Split(fileName, '-');
    SplitSingle(fileName, '-');
    if |tokens| == 1 then ""
    else
      TableNamePrefix(fileName, tokens[0]);
      tokens[0]
  }

  /** A file whose name starts with `table + "-"` belongs to `table`. */
  lemma TableNameOfPrefixed(fullFileName: string, table: string)
    requires '-' !in table && StartsWith(GetFileName(fullFileName), table + "-")
    ensures GetTableName(fullFileName) == table
  {
    TableNamePrefix(GetFileName(fullFileName), table);
  }

  /**
   * The table names that `GetPendingTables` derives from the file names of a
   * folder: names with a '-', cut at the first '-', empty prefixes dropped,
   * duplicates removed.
   */
  function PendingTableNames(fileNames: seq<string>): (r: seq<string>)
    ensures NoDuplicates(r)
    ensures forall t :: t in r <==>
      t != "" && '-' !in t && exists n :: n in fileNames && StartsWith(n, t + "-")
  {
    var prefixes := TablePrefixes(fileNames);
    Distinct(Filter(prefixes, (t: string) => |t| > 0))
  }

  /** The text before the first '-' of each name that has one. */
  function TablePrefixes(fileNames: seq<string>): (prefixes: seq<string>)
    ensures forall t :: t in prefixes <==>
      '-' !in t && exists n :: n in fileNames && StartsWith(n, t + "-")
  {
    var withDash := Filter(fileNames, (n: string) => '-' in n);
    var prefixes := Map(withDash, (n: string) => Split(n, '-')[0]);
    forall t ensures t in prefixes <==> '-' !in t && exists n :: n in fileNames && StartsWith(n, t + "-") {
      PrefixOfSomeName(fileNames, withDash, prefixes, t);
    }
    prefixes
  }

  lemma PrefixOfSomeName(fileNames: seq<string>, withDash: seq<string>, prefixes: seq<string>, t: string)
    requires withDash == Filter(fileNames, (n: string) => '-' in n)
    requires prefixes == Map(withDash, (n: string) => Split(n, '-')[0])
    ensures t in prefixes <==> '-' !in t && exists n :: n in fileNames && StartsWith(n, t + "-")
  {
    if t in prefixes {
      var k :| 0 <= k < |prefixes| && prefixes[k] == t;
      var n := withDash[k];
      assert n in withDash;
      TableNamePrefix(n, t);
      assert n in fileNames && StartsWith(n, t + "-");
    }
    if n :| n in fileNames && '-' !in t && StartsWith(n, t + "-") {
      TableNamePrefix(n, t);
      assert n in withDash;
      var k :| 0 <= k < |withDash| && withDash[k] == n;
      assert prefixes[k] == t;
    }
  }

  /**
   * The glob `<prefix>*<suffix>` that `Directory.GetFiles` applies to file
   * names: the name starts with `prefix` and ends with `suffix`, which do not
   * overlap.
   */
  predicate GlobMatch(name: string, prefix: string, suffix: string) {
    |prefix| + |suffix| <= |name| && StartsWith(name, prefix) && EndsWith(name, suffix)
  }
}
