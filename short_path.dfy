/** `GetShortPath`: the hashed directory that stands in for a path that is too long. */
module ShortPath {
  import opened Hex
  import opened Text
  import opened PlatformPath
  import opened Hashing

  datatype Result<T> = Success(value: T) | Failure(message: string)

  /** `GetShortPath(path, root)`: fails unless `path` starts with `root` ignoring
      case, and fails in `Path.Combine` for a root holding an invalid path character;
      otherwise `root` joined with the name hashed from the rest of `path`. */
  function GetShortPath(path: string, root: string, hasher: Hasher): (r: Result<string>)
    ensures r.Failure? <==> !StartsWithIgnoreCase(path, root) || HasInvalidPathChars(root)
    ensures r.Success? ==>
      && IsPrefix(root, r.value)
      && |root| + 8 <= |r.value| <= |root| + 9
      && IsUpperHex(r.value[|r.value| - 8..])
      && (|r.value| == |root| + 9 ==> r.value[|root|] == DirectorySeparatorChar)
  {
    if !StartsWithIgnoreCase(path, root) then Failure("path is not under the root")
    else if HasInvalidPathChars(root) then Failure("Illegal characters in path.")
    else
      var name := HashName(path[|root|..], hasher);
      NameJoin(root, name);
      Success(Combine(root, name))
  }

  /** Joining a root with an 8-digit name adds at most one separator in between. */
  lemma NameJoin(root: string, name: string)
    requires |name| == 8 && IsUpperHex(name)
    ensures var j := Combine(root, name);
      && IsPrefix(root, j)
      && |root| + 8 <= |j| <= |root| + 9
      && j[|j| - 8..] == name
      && (|j| == |root| + 9 ==> j[|root|] == DirectorySeparatorChar)
  {
    assert IsUpperHexDigit(name[0]) && IsUpperHexDigit(name[1]);
    assert !IsPathRooted(name);
  }

  /** As the mapping calls it, with `root + contents`: the prefix check passes, so only
      the root's characters can make it fail, and the hash input is exactly `contents`. */
  lemma ShortPathOfRootedContents(root: string, contents: string, hasher: Hasher)
    ensures GetShortPath(root + contents, root, hasher).Success? <==> !HasInvalidPathChars(root)
    ensures !HasInvalidPathChars(root) ==>
      GetShortPath(root + contents, root, hasher) == Success(Combine(root, HashName(contents, hasher)))
  {
    StartsWithOwnPrefix(root, contents);
    assert (root + contents)[|root|..] == contents;
  }

  /** Two paths under the same root that agree up to case get the same short path,
      and either both are accepted or both rejected. */
  lemma ShortPathIgnoresCase(p: string, q: string, root: string, hasher: Hasher)
    requires Lower(p) == Lower(q)
    ensures GetShortPath(p, root, hasher) == GetShortPath(q, root, hasher)
  {
    if |root| <= |p| {
      LowerSlices(p, |root|);
      LowerSlices(q, |root|);
    }
  }
}
