/** String operations the path code relies on: character replacement
    (`string.Replace(char, char)` and `StringBuilder.Replace` with a one-character
    key), invariant lower-casing and case-insensitive prefix tests. */
module Text {

  predicate IsPrefix(p: string, s: string) {
    |p| <= |s| && s[..|p|] == p
  }

  predicate IsSuffix(p: string, s: string) {
    |p| <= |s| && s[|s| - |p|..] == p
  }

  /** A string is the part before position `i`, the character there and the rest. */
  lemma SplitAt(s: string, i: nat)
    requires i < |s|
    ensures s == s[..i] + [s[i]] + s[i + 1..]
  {
    assert s == s[..i] + s[i..];
  }

  lemma PrefixTransitive(a: string, b: string, c: string)
    requires IsPrefix(a, b) && IsPrefix(b, c)
    ensures IsPrefix(a, c)
  {
    assert c[..|a|] == c[..|b|][..|a|];
  }

  /** Every occurrence of `c` in `s` replaced by `v`, left to right. */
  function Replace(s: string, c: char, v: string): (r: string)
    ensures c !in s ==> r == s
    ensures c !in v ==> c !in r
    ensures |v| == 1 ==> |r| == |s|
    ensures forall x :: x in r ==> x in s || x in v
  {
    if s == [] then [] else (if s[0] == c then v else [s[0]]) + Replace(s[1..], c, v)
  }

  /** Replacement works character by character, so it distributes over concatenation. */
  lemma {:induction false} ReplaceConcat(a: string, b: string, c: char, v: string)
    ensures Replace(a + b, c, v) == Replace(a, c, v) + Replace(b, c, v)
  {
    if a == [] {
      assert a + b == b;
    } else {
      assert (a + b)[1..] == a[1..] + b;
      ReplaceConcat(a[1..], b, c, v);
    }
  }

  /** Replacing `c` by `d` and then `d` by `c` restores text that held no `d`. */
  lemma {:induction false} ReplaceBack(s: string, c: char, d: char)
    requires d !in s
    ensures Replace(Replace(s, c, [d]), d, [c]) == s
  {
    if s != [] {
      var head := if s[0] == c then [d] else [s[0]];
      ReplaceConcat(head, Replace(s[1..], c, [d]), d, [c]);
      assert d !in s[1..] by {
        forall k | 0 <= k < |s[1..]| ensures s[1..][k] != d {
          assert s[1..][k] == s[k + 1];
          assert s[k + 1] in s;
        }
      }
      ReplaceBack(s[1..], c, d);
      assert head[1..] == [];
      assert s == [s[0]] + s[1..];
    }
  }

  /** A one-character replacement works position by position. */
  lemma {:induction false} ReplaceAt(s: string, c: char, d: char, k: nat)
    requires k < |s|
    ensures Replace(s, c, [d])[k] == if s[k] == c then d else s[k]
  {
    if k > 0 {
      ReplaceAt(s[1..], c, d, k - 1);
    }
  }

  /** A single-character replacement keeps the prefix relation. */
  lemma ReplaceKeepsPrefix(p: string, s: string, c: char, v: string)
    requires IsPrefix(p, s)
    ensures IsPrefix(Replace(p, c, v), Replace(s, c, v))
  {
    assert s == p + s[|p|..];
    ReplaceConcat(p, s[|p|..], c, v);
  }

  /** ASCII case mapping; the locale-invariant mapping of other letters is not modelled. */
  function LowerChar(c: char): char {
    if 'A' <= c <= 'Z' then (c as int + 32) as char else c
  }

  /** `ToLowerInvariant`, restricted to ASCII letters. */
  function Lower(s: string): (r: string)
    ensures |r| == |s|
    ensures forall i :: 0 <= i < |r| ==> !('A' <= r[i] <= 'Z')
    ensures forall i :: 0 <= i < |r| ==> LowerChar(r[i]) == LowerChar(s[i])
  {
    seq(|s|, i requires 0 <= i < |s| => LowerChar(s[i]))
  }

  /** Lower-casing twice is lower-casing once. */
  lemma LowerIdempotent(s: string)
    ensures Lower(Lower(s)) == Lower(s)
  {
    assert forall i :: 0 <= i < |s| ==> Lower(Lower(s))[i] == Lower(s)[i];
  }

  lemma LowerSlices(s: string, n: nat)
    requires n <= |s|
    ensures Lower(s[..n]) == Lower(s)[..n] && Lower(s[n..]) == Lower(s)[n..]
  {
  }

  /** `s.StartsWith(prefix, StringComparison.InvariantCultureIgnoreCase)`. */
  predicate StartsWithIgnoreCase(s: string, prefix: string) {
    |prefix| <= |s| && Lower(s[..|prefix|]) == Lower(prefix)
  }

  /** Every string starts with itself followed by anything, ignoring case. */
  lemma StartsWithOwnPrefix(root: string, rest: string)
    ensures StartsWithIgnoreCase(root + rest, root)
  {
    assert (root + rest)[..|root|] == root;
  }
}
