/** `MapItemPath` and its public wrapper `GetDirectoryPath`: the physical directory
    for a slash-delimited item path under a root. When the escaped item path is too
    long, its leading part is replaced by a hashed directory whose `link` file records
    what it stands for. */
module ItemPathMapping {
  import opened Text
  import opened PlatformPath
  import opened IllegalSymbols
  import opened Hashing
  import opened ShortPath
  import opened SliceArithmetic

  /** The platform path-length ceiling the threshold is taken from. */
  const PathLengthCeiling: int := 240

  /** C#'s `int`. */
  type Int32 = x: int | -0x8000_0000 <= x < 0x8000_0000

  /** `240 - SerializationFolderPathMaxLength` in C#'s unchecked 32-bit arithmetic: the
      length of one slice of the item path. It wraps around to a negative number for a
      setting below 240 - int.MaxValue. */
  function Threshold(folderPathMaxLength: Int32): (num: Int32)
    ensures (num - (PathLengthCeiling - folderPathMaxLength)) % 0x1_0000_0000 == 0
    ensures folderPathMaxLength >= PathLengthCeiling - 0x7FFF_FFFF ==> num == PathLengthCeiling - folderPathMaxLength
    ensures folderPathMaxLength < PathLengthCeiling - 0x7FFF_FFFF ==> num < 0
    ensures num == 0 <==> folderPathMaxLength == PathLengthCeiling
  {
    var difference := PathLengthCeiling - folderPathMaxLength;
    if difference > 0x7FFF_FFFF then difference - 0x1_0000_0000 else difference
  }

  /** `s.IndexOf(c, from)`: the first index at or after `from` holding `c`, or -1. */
  function IndexOf(s: string, c: char, from: nat): (r: int)
    requires from <= |s|
    ensures r == -1 || (from <= r < |s| && s[r] == c)
    ensures forall k :: from <= k < |s| && (r == -1 || k < r) ==> s[k] != c
    decreases |s| - from
  {
    if from == |s| then -1
    else if s[from] == c then from
    else IndexOf(s, c, from + 1)
  }

  /** `s.LastIndexOf(c, from)`: the last index at or before `from` holding `c`, or -1. */
  function LastIndexOf(s: string, c: char, from: nat): (r: int)
    requires from < |s|
    ensures r == -1 || (0 <= r <= from && s[r] == c)
    ensures forall k :: r < k <= from ==> s[k] != c
  {
    if s[from] == c then from
    else if from == 0 then -1
    else LastIndexOf(s, c, from - 1)
  }

  /** Where the escaped path is cut: the first '/' at or after `start`, and failing
      that the last '/' before `start`; -1 when the path holds no '/'. */
  function SplitIndex(s: string, start: nat): (r: int)
    requires 0 < start <= |s|
    ensures r == -1 || (0 <= r < |s| && s[r] == '/')
    ensures r == -1 <==> '/' !in s
    ensures start <= r ==> forall k :: start <= k < r ==> s[k] != '/'
    ensures 0 <= r < start ==> forall k :: r < k < |s| ==> s[k] != '/'
  {
    var index := IndexOf(s, '/', start);
    if index >= 0 then index
    else
      var last := LastIndexOf(s, '/', start - 1);
      assert last == -1 ==> forall k :: 0 <= k < |s| ==> s[k] != '/';
      last
  }

  /** `.Replace('/', Path.DirectorySeparatorChar)`. */
  function ToNative(s: string): (r: string)
    ensures |r| == |s| && '/' !in r
  {
    Replace(s, '/', [DirectorySeparatorChar])
  }

  /** The separator turned back into '/': a link file's contents read as item path text. */
  function FromNative(s: string): (r: string)
    ensures |r| == |s| && DirectorySeparatorChar !in r
  {
    Replace(s, DirectorySeparatorChar, "/")
  }

  /** The outcome of one mapping: the returned path and, when the path was split, the
      hashed directory and the `link` file contents that stand for its leading part. */
  datatype Mapping =
    | Unsplit(path: string)
    | Split(shortPath: string, contents: string, path: string)

  function LinkFile(shortPath: string): string {
    Combine(shortPath, "link")
  }

  /** The mapping of an already escaped item path, cut in slices of `num` characters. */
  function MapEscaped(num: int, hasher: Hasher, escaped: string, root: string): Mapping
    requires num != 0
  {
    var startIndex := StartIndex(|escaped|, num);
    if startIndex == 0 then Unsplit(ToNative(Combine(root, escaped)))
    else
      var index := SplitIndex(escaped, startIndex);
      if index <= 0 then Unsplit(Combine(root, escaped))
      else
        var contents := ToNative(escaped[..index]);
        var suffix := ToNative(escaped[index + 1..]);
        var shortPath := Combine(root, HashName(contents, hasher));
        Split(shortPath, contents, Combine(shortPath, suffix))
  }

  /** What `MapItemPath` returns and where it puts a link file, as a function of its
      inputs alone: `configured` holds the extra invalid characters the static table
      was built from, `folderPathMaxLength` the setting read on each call. The item path
      fails `Path.IsPathRooted`'s character check or the assertion that it is not rooted;
      a maximum length of 240 makes it divide by zero; and a root holding an invalid
      path character fails the first `Path.Combine`, which every outcome reaches
      before it touches the file system (lines 46, 55 and 92). */
  function MapPath(configured: seq<char>, folderPathMaxLength: Int32, hasher: Hasher, itemPath: string, root: string): (m: Result<Mapping>)
    ensures m.Failure? <==>
      HasInvalidPathChars(itemPath) || IsPathRooted(itemPath)
      || folderPathMaxLength == PathLengthCeiling || HasInvalidPathChars(root)
  {
    if HasInvalidPathChars(itemPath) then Failure("Illegal characters in path.")
    else if IsPathRooted(itemPath) then Failure("itemPath is rooted")
    else if Threshold(folderPathMaxLength) == 0 then Failure("Attempted to divide by zero.")
    else if HasInvalidPathChars(root) then Failure("Illegal characters in path.")
    else Success(MapEscaped(Threshold(folderPathMaxLength), hasher, ReplaceInOrder(IllegalSymbolsToReplace(configured), itemPath), root))
  }

  /** The files after a mapping: a split writes its link file only if none exists. */
  function FilesAfter(files: map<string, string>, m: Mapping): map<string, string> {
    match m
    case Unsplit(_) => files
    case Split(shortPath, contents, _) =>
      if LinkFile(shortPath) in files then files else files[LinkFile(shortPath) := contents]
  }

  /** The directories after a mapping: the hashed directory is created with its link file. */
  function DirectoriesAfter(files: map<string, string>, directories: set<string>, m: Mapping): set<string> {
    match m
    case Unsplit(_) => directories
    case Split(shortPath, _, _) =>
      if LinkFile(shortPath) in files then directories else directories + {shortPath}
  }

  /** The part of the file system the mapping touches: the files it can test for and
      write, with their text, and the directories it creates. */
  class FileSystem {
    var files: map<string, string>
    var directories: set<string>

    constructor ()
      ensures files == map[] && directories == {}
    {
      files := map[];
      directories := {};
    }

    /** `File.Exists`. */
    predicate FileExists(path: string)
      reads this
    {
      path in files
    }

    /** `Directory.CreateDirectory`. */
    method CreateDirectory(path: string)
      modifies this
      ensures directories == old(directories) + {path}
      ensures files == old(files)
    {
      directories := directories + {path};
    }

    /** `File.WriteAllText`: creates the file or replaces its text. */
    method WriteAllText(path: string, contents: string)
      modifies this
      ensures files == old(files)[path := contents]
      ensures directories == old(directories)
    {
      files := files[path := contents];
    }
  }

  /** `Directory.CreateDirectory` and `File.WriteAllText` of the `link` file, as the
      mapping performs them: only for a split, and only when no link file exists yet. */
  method EnsureLink(fs: FileSystem, m: Mapping)
    modifies fs
    ensures fs.files == FilesAfter(old(fs.files), m)
    ensures fs.directories == DirectoriesAfter(old(fs.files), old(fs.directories), m)
  {
    if m.Split? && !fs.FileExists(Combine(m.shortPath, "link")) {
      fs.CreateDirectory(m.shortPath);
      fs.WriteAllText(Combine(m.shortPath, "link"), m.contents);
    }
  }

  /** The split branch of `MapEscaped`, spelled out for a cut at `index`. */
  lemma SplitCase(num: int, hasher: Hasher, escaped: string, root: string, startIndex: nat, index: int)
    requires num != 0 && startIndex == StartIndex(|escaped|, num) && startIndex != 0
    requires index == SplitIndex(escaped, startIndex) && index > 0
    ensures var contents := ToNative(escaped[..index]);
      var shortPath := Combine(root, HashName(contents, hasher));
      MapEscaped(num, hasher, escaped, root) == Split(shortPath, contents, Combine(shortPath, ToNative(escaped[index + 1..])))
  {
  }

  /** The slicing arithmetic of `MapItemPath`, from the slice boundary to the short path:
      which of the three outcomes the escaped path gets. */
  method SliceEscaped(num: int, hasher: Hasher, escaped: string, root: string) returns (m: Mapping)
    requires num != 0 && !HasInvalidPathChars(root)
    ensures m == MapEscaped(num, hasher, escaped, root)
  {
    var startIndex := TruncatedDivision(|escaped|, num) * num;
    StartIndexIsTruncatedProduct(|escaped|, num);
    if startIndex == 0 {
      return Unsplit(ToNative(Combine(root, escaped)));
    }
    var index := IndexOf(escaped, '/', startIndex);
    if index < 0 {
      index := LastIndexOf(escaped, '/', startIndex - 1);
    }
    assert index == SplitIndex(escaped, startIndex);
    if index <= 0 {
      return Unsplit(Combine(root, escaped));
    }
    var contents := ToNative(escaped[..index]);
    var str2 := ToNative(escaped[index + 1..]);
    // The cut is at a positive index, so the leading part is never empty and the
    // source's fallback for an empty one is never taken.
    assert |contents| > 0;
    ShortPathOfRootedContents(root, contents, hasher);
    var shortPath := GetShortPath(root + contents, root, hasher).value;
    SplitCase(num, hasher, escaped, root, startIndex, index);
    m := Split(shortPath, contents, Combine(shortPath, str2));
  }

  /** `MapItemPath`: fails on an item path with invalid path characters or a rooted
      one, on a zero slice length and on a root with invalid path characters; otherwise
      returns the mapped path, after writing the link file of a split if it is missing.
      `table` is the static table, built from `configured`. */
  method MapItemPath(fs: FileSystem, table: seq<Substitution>, ghost configured: seq<char>,
                     folderPathMaxLength: Int32, hasher: Hasher, itemPath: string, root: string)
    returns (r: Result<string>)
    requires table == IllegalSymbolsToReplace(configured)
    modifies fs
    ensures MapPath(configured, folderPathMaxLength, hasher, itemPath, root).Failure? ==>
      r.Failure? && fs.files == old(fs.files) && fs.directories == old(fs.directories)
    ensures MapPath(configured, folderPathMaxLength, hasher, itemPath, root).Success? ==>
      var m := MapPath(configured, folderPathMaxLength, hasher, itemPath, root).value;
      && r == Success(m.path)
      && fs.files == FilesAfter(old(fs.files), m)
      && fs.directories == DirectoriesAfter(old(fs.files), old(fs.directories), m)
  {
    if HasInvalidPathChars(itemPath) {
      return Failure("Illegal characters in path.");
    }
    if IsPathRooted(itemPath) {
      return Failure("itemPath is rooted");
    }
    var escaped := ReplaceIllegalCharsByConfig(itemPath, table);
    var num := Threshold(folderPathMaxLength);
    if num == 0 {
      return Failure("Attempted to divide by zero.");
    }
    // The first `Path.Combine` on every outcome takes the root (lines 46, 55 and 92).
    if HasInvalidPathChars(root) {
      return Failure("Illegal characters in path.");
    }
    var m := SliceEscaped(num, hasher, escaped, root);
    EnsureLink(fs, m);
    r := Success(m.path);
  }

  /** `GetDirectoryPath`: the public entry point, which maps the item path. */
  method GetDirectoryPath(fs: FileSystem, table: seq<Substitution>, ghost configured: seq<char>,
                          folderPathMaxLength: Int32, hasher: Hasher, itemPath: string, root: string)
    returns (r: Result<string>)
    requires table == IllegalSymbolsToReplace(configured)
    modifies fs
    ensures MapPath(configured, folderPathMaxLength, hasher, itemPath, root).Failure? ==>
      r.Failure? && fs.files == old(fs.files) && fs.directories == old(fs.directories)
    ensures MapPath(configured, folderPathMaxLength, hasher, itemPath, root).Success? ==>
      var m := MapPath(configured, folderPathMaxLength, hasher, itemPath, root).value;
      && r == Success(m.path)
      && fs.files == FilesAfter(old(fs.files), m)
      && fs.directories == DirectoriesAfter(old(fs.files), old(fs.directories), m)
  {
    r := MapItemPath(fs, table, configured, folderPathMaxLength, hasher, itemPath, root);
  }

  /** Where an escaped path at least one slice long is cut. */
  function CutIndex(num: int, escaped: string): int
    requires num != 0 && Abs(num) <= |escaped|
  {
    SplitIndex(escaped, StartIndex(|escaped|, num))
  }

  /** A mapping splits exactly when the escaped path is at least one slice long and
      holds a '/' past its first character. */
  lemma SplitsExactly(num: int, hasher: Hasher, escaped: string, root: string)
    requires num != 0
    ensures MapEscaped(num, hasher, escaped, root).Split? <==>
      Abs(num) <= |escaped| && exists k :: 0 < k < |escaped| && escaped[k] == '/'
  {
    if Abs(num) <= |escaped| {
      var index := CutIndex(num, escaped);
      if index > 0 {
        assert escaped[index] == '/';
      } else {
        forall k | 0 < k < |escaped| ensures escaped[k] != '/' {
          if index == -1 {
            assert escaped[k] in escaped;
          }
        }
      }
    }
  }

  /** A split cuts the escaped path at a '/' past its first character. The link file
      holds the part before the '/', with every '/' turned into the separator; the short
      path is what `GetShortPath` makes of the root followed by that part; and the
      mapped path is the part after the '/', likewise converted, under the short path. */
  lemma SplitShape(num: int, hasher: Hasher, escaped: string, root: string)
    requires num != 0
    requires MapEscaped(num, hasher, escaped, root).Split?
    ensures Abs(num) <= |escaped|
    ensures var m := MapEscaped(num, hasher, escaped, root);
      var i := CutIndex(num, escaped);
      && 0 < i < |escaped| && escaped[i] == '/'
      && escaped == escaped[..i] + "/" + escaped[i + 1..]
      && m.contents == ToNative(escaped[..i]) && |m.contents| == i
      && m.shortPath == Combine(root, HashName(m.contents, hasher))
      && (!HasInvalidPathChars(root) ==> GetShortPath(root + m.contents, root, hasher) == Success(m.shortPath))
      && m.path == Combine(m.shortPath, ToNative(escaped[i + 1..]))
  {
    var start := StartIndex(|escaped|, num);
    assert start != 0;
    var i := SplitIndex(escaped, start);
    assert i > 0;
    var contents := ToNative(escaped[..i]);
    var shortPath := Combine(root, HashName(contents, hasher));
    assert MapEscaped(num, hasher, escaped, root) == Split(shortPath, contents, Combine(shortPath, ToNative(escaped[i + 1..])));
    SplitAt(escaped, i);
    ShortPathOfRootedContents(root, ToNative(escaped[..i]), hasher);
  }

  /** The part of a cut path that stays below the short path, with '/' converted. */
  function Suffix(num: int, escaped: string): string
    requires num != 0 && Abs(num) <= |escaped|
  {
    var i := CutIndex(num, escaped);
    if 0 < i then ToNative(escaped[i + 1..]) else ""
  }

  /** Where the mapped path lies. A path shorter than one slice is joined to the root
      with no '/' left anywhere; a longer one that is not cut is joined to the root with
      its '/' kept; both lie under the root unless the escaped path is rooted. A cut
      path lies under the short path, and so under the root, unless the part after the
      cut is rooted: `Path.Combine` then returns that part alone. */
  lemma MappedUnderRoot(num: int, hasher: Hasher, escaped: string, root: string)
    requires num != 0
    ensures var m := MapEscaped(num, hasher, escaped, root);
      && (|escaped| < Abs(num) ==>
            && m == Unsplit(ToNative(Combine(root, escaped))) && '/' !in m.path
            && (!IsPathRooted(escaped) ==> IsPrefix(ToNative(root), m.path)))
      && (Abs(num) <= |escaped| && m.Unsplit? ==>
            && m.path == Combine(root, escaped)
            && (!IsPathRooted(escaped) ==> IsPrefix(root, m.path)))
      && (m.Split? ==>
            && Abs(num) <= |escaped| && IsPrefix(root, m.shortPath)
            && (IsPathRooted(Suffix(num, escaped)) ==> m.path == Suffix(num, escaped))
            && (!IsPathRooted(Suffix(num, escaped)) ==> IsPrefix(m.shortPath, m.path) && IsPrefix(root, m.path)))
  {
    var m := MapEscaped(num, hasher, escaped, root);
    if |escaped| < Abs(num) && !IsPathRooted(escaped) {
      ReplaceKeepsPrefix(root, Combine(root, escaped), AltDirectorySeparatorChar, [DirectorySeparatorChar]);
    }
    if m.Split? {
      SplitShape(num, hasher, escaped, root);
      if !IsPathRooted(Suffix(num, escaped)) {
        PrefixTransitive(root, m.shortPath, m.path);
      }
    }
  }

  /** The part after the cut is rooted exactly when it begins with a separator, or has
      ':' second: a doubled '/' at the cut makes the mapping leave the root. */
  lemma SuffixRootedWhen(num: int, escaped: string)
    requires num != 0 && Abs(num) <= |escaped| && 0 < CutIndex(num, escaped)
    ensures var i := CutIndex(num, escaped);
      IsPathRooted(Suffix(num, escaped)) <==>
        (i + 1 < |escaped| && escaped[i + 1] in {'/', '\\'}) || (i + 2 < |escaped| && escaped[i + 2] == ':')
  {
    var i := CutIndex(num, escaped);
    var rest := escaped[i + 1..];
    if i + 1 < |escaped| {
      ReplaceAt(rest, AltDirectorySeparatorChar, DirectorySeparatorChar, 0);
    }
    if i + 2 < |escaped| {
      ReplaceAt(rest, AltDirectorySeparatorChar, DirectorySeparatorChar, 1);
    }
  }

  /** With slices of 10, `aaaaaaaaaa//c` is cut at its first '/', and what follows,
      `/c`, becomes the rooted `\c`: the mapped path is `\c` alone, whatever the root. */
  lemma DoubleSlashLeavesRoot(hasher: Hasher, root: string)
    ensures var m := MapEscaped(10, hasher, "aaaaaaaaaa//c", root);
      m.Split? && m.path == "\\c" && (|root| > 2 ==> !IsPrefix(root, m.path))
  {
    var e := "aaaaaaaaaa//c";
    assert StartIndex(13, 10) == 10;
    assert e[10] == '/';
    assert IndexOf(e, '/', 10) == 10;
    assert e[11..] == "/c";
    assert ToNative("/c") == "\\c";
  }

  /** The same through the whole mapping: with a maximum length of 230, a root without
      invalid characters and no lower-case letter configured, the item path
      `aaaaaaaaaa//c` is kept as it is by escaping and maps to `\c`. */
  lemma ItemPathLeavesRoot(configured: seq<char>, hasher: Hasher, root: string)
    requires forall c :: c in configured ==> !('a' <= c <= 'z')
    requires !HasInvalidPathChars(root)
    ensures MapPath(configured, 230, hasher, "aaaaaaaaaa//c", root).Success?
    ensures MapPath(configured, 230, hasher, "aaaaaaaaaa//c", root).value.path == "\\c"
  {
    var s := "aaaaaaaaaa//c";
    LettersAndSlashesAreKept(configured, s);
    var escaped := ReplaceInOrder(IllegalSymbolsToReplace(configured), s);
    assert !HasInvalidPathChars(s) && !IsPathRooted(s) by {
      forall k | 0 <= k < |s| ensures !IsInvalidPathChar(s[k]) {
      }
    }
    assert Threshold(230) == 10;
    assert MapPath(configured, 230, hasher, s, root) == Success(MapEscaped(10, hasher, escaped, root));
    DoubleSlashLeavesRoot(hasher, root);
  }

  /** When a '/' follows the slice boundary, the path is cut at the first such '/', and
      what stays below the short path is shorter than one slice: the mapped path is
      less than one slice (plus the 8-character name and a separator) beyond the root. */
  lemma CutAtSliceBoundary(num: int, hasher: Hasher, escaped: string, root: string)
    requires num != 0 && Abs(num) <= |escaped|
    requires '/' in escaped[StartIndex(|escaped|, num)..]
    ensures var m := MapEscaped(num, hasher, escaped, root);
      var start := StartIndex(|escaped|, num);
      var i := CutIndex(num, escaped);
      && m.Split?
      && start <= i && escaped[i] == '/' && '/' !in escaped[start..i]
      && |m.path| < |m.shortPath| + Abs(num)
      && |m.path| < |root| + 9 + Abs(num)
  {
    var start := StartIndex(|escaped|, num);
    var i := CutIndex(num, escaped);
    var k :| start <= k < |escaped| && escaped[k] == '/' by {
      var j :| 0 <= j < |escaped| - start && escaped[start..][j] == '/';
      assert escaped[start + j] == '/';
    }
    assert start <= i;
    assert '/' !in escaped[start..i] by {
      forall j | 0 <= j < i - start ensures escaped[start..i][j] != '/' {
        assert escaped[start + j] != '/';
      }
    }
    SplitShape(num, hasher, escaped, root);
  }

  /** After a split the link file exists: it keeps whatever text it had, or else holds
      the contents; and unless it already existed, the short path is a directory. */
  lemma LinkAfterSplit(files: map<string, string>, directories: set<string>, m: Mapping)
    requires m.Split?
    ensures LinkFile(m.shortPath) in FilesAfter(files, m)
    ensures FilesAfter(files, m)[LinkFile(m.shortPath)] ==
      if LinkFile(m.shortPath) in files then files[LinkFile(m.shortPath)] else m.contents
    ensures LinkFile(m.shortPath) !in files ==> m.shortPath in DirectoriesAfter(files, directories, m)
  {
  }

  /** Only the link file and the short path are touched, and mapping the same path a
      second time changes nothing more. */
  lemma EffectsIdempotent(files: map<string, string>, directories: set<string>, m: Mapping)
    ensures forall p :: p in files ==> p in FilesAfter(files, m) && FilesAfter(files, m)[p] == files[p]
    ensures forall p :: p in FilesAfter(files, m) && p !in files ==> m.Split? && p == LinkFile(m.shortPath)
    ensures directories <= DirectoriesAfter(files, directories, m)
    ensures FilesAfter(FilesAfter(files, m), m) == FilesAfter(files, m)
    ensures DirectoriesAfter(FilesAfter(files, m), DirectoriesAfter(files, directories, m), m)
      == DirectoriesAfter(files, directories, m)
  {
  }

  /** The link file tells which leading part of the escaped path its directory stands
      for: when the escaped path holds no separator, its contents read back as exactly
      the part before the cut. */
  lemma LinkRecordsLeadingPart(num: int, hasher: Hasher, escaped: string, root: string)
    requires num != 0 && MapEscaped(num, hasher, escaped, root).Split?
    requires DirectorySeparatorChar !in escaped
    ensures Abs(num) <= |escaped|
    ensures FromNative(MapEscaped(num, hasher, escaped, root).contents) == escaped[..CutIndex(num, escaped)]
  {
    SplitShape(num, hasher, escaped, root);
    var lead := escaped[..CutIndex(num, escaped)];
    assert DirectorySeparatorChar !in lead by {
      forall k | 0 <= k < |lead| ensures lead[k] != DirectorySeparatorChar {
        assert lead[k] == escaped[k];
        assert escaped[k] in escaped;
      }
    }
    ReplaceBack(lead, AltDirectorySeparatorChar, DirectorySeparatorChar);
  }
}
