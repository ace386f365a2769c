/** The pieces of `System.IO.Path` the mapping uses, fixed to the Windows platform
    the serializer runs on. */
module PlatformPath {
  import opened Text

  const DirectorySeparatorChar: char := '\\'
  const AltDirectorySeparatorChar: char := '/'
  const VolumeSeparatorChar: char := ':'

  /** `Path.GetInvalidFileNameChars()`: '"', '<', '>', '|', the control characters
      0 to 31, ':', '*', '?', '\\' and '/', in that order. */
  const InvalidFileNameChars: seq<char> :=
    ['"', '<', '>', '|'] + ControlChars + [':', '*', '?', '\\', '/']

  /** The characters with codes 0 to 31, in order. */
  const ControlChars: seq<char> := CharsBelow(32)

  /** The characters with codes below `n`, in order. */
  function CharsBelow(n: nat): (r: seq<char>)
    requires n <= 32
    ensures |r| == n && forall i :: 0 <= i < n ==> r[i] as int == i
  {
    if n == 0 then [] else CharsBelow(n - 1) + [(n - 1) as char]
  }

  /** The characters `Path.IsPathRooted` and `Path.Combine` reject in a path: '"',
      '<', '>', '|' and the control characters 0 to 31. */
  predicate IsInvalidPathChar(c: char) {
    c == '"' || c == '<' || c == '>' || c == '|' || c as int < 32
  }

  /** The check that makes `Path.IsPathRooted` and `Path.Combine` throw an `ArgumentException`. */
  predicate HasInvalidPathChars(p: string) {
    exists k :: 0 <= k < |p| && IsInvalidPathChar(p[k])
  }

  /** `Path.IsPathRooted`, for a path that passed the check above: a leading separator,
      or a drive letter's volume separator. */
  predicate IsPathRooted(p: string) {
    (|p| >= 1 && (p[0] == DirectorySeparatorChar || p[0] == AltDirectorySeparatorChar))
    || (|p| >= 2 && p[1] == VolumeSeparatorChar)
  }

  /** `Path.Combine(a, b)`, for paths that passed the check above: a rooted `b` replaces
      `a`; otherwise `b` is appended to `a`, with a directory separator between them
      unless `a` already ends in a separator or a volume separator. */
  function Combine(a: string, b: string): (r: string)
    ensures IsSuffix(b, r)
    ensures IsPathRooted(b) ==> r == b
    ensures !IsPathRooted(b) ==> IsPrefix(a, r)
    ensures |a| + |b| <= |r| <= |a| + |b| + 1 || (IsPathRooted(b) && |r| == |b|)
    ensures |r| == |a| + |b| + 1 ==> r[|a|] == DirectorySeparatorChar
    ensures |r| == |a| + |b| + 1 <==>
      |a| > 0 && |b| > 0 && !IsPathRooted(b)
      && a[|a| - 1] !in {DirectorySeparatorChar, AltDirectorySeparatorChar, VolumeSeparatorChar}
  {
    if |b| == 0 then a
    else if |a| == 0 then b
    else if IsPathRooted(b) then b
    else if a[|a| - 1] in {DirectorySeparatorChar, AltDirectorySeparatorChar, VolumeSeparatorChar} then a + b
    else a + [DirectorySeparatorChar] + b
  }
}
