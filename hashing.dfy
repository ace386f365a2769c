/** `GetHash`: the 8-character name of a shortened directory, made from a 16-byte
    digest of the lower-cased path folded down to 4 bytes. */
module Hashing {
  import opened Hex
  import opened Text

  type byte = bv8

  /** A 16-byte digest, as MD5 (RFC 1321) produces. */
  type Digest = d: seq<byte> | |d| == 16
    witness [0, 0, 0, 0, 0, 0, 0, 0, 0, 0, 0, 0, 0, 0, 0, 0]

  /** The two outside computations `GetHash` relies on: UTF-8 encoding and MD5. */
  datatype Hasher = Hasher(utf8: string -> seq<byte>, md5: seq<byte> -> Digest)

  /** Byte `j` of the folded digest, as the fold loop leaves it: in the iterations
      i < 4 the loop XORs byte i with itself, so the first four digest bytes drop out. */
  function Folded(d: Digest, j: nat): byte
    requires j < 4
  {
    d[4 + j] ^ d[8 + j] ^ d[12 + j]
  }

  /** Slot `j` after the first `i` iterations of `bytes[i % 4] ^= bytes[i]`. */
  ghost function Partial(d: Digest, j: nat, i: nat): byte
    requires j < 4 && i <= 16
  {
    if i <= j then d[j]
    else if i <= 4 then 0
    else Partial(d, j, i - 1) ^ (if (i - 1) % 4 == j then d[i - 1] else 0)
  }

  /** One iteration of the fold loop, seen from slot `j`. */
  lemma PartialStep(d: Digest, j: nat, i: nat)
    requires j < 4 && i < 16
    ensures Partial(d, j, i + 1) ==
      if j != i % 4 then Partial(d, j, i)
      else if i < 4 then 0
      else Partial(d, j, i) ^ d[i]
  {
  }

  /** Four iterations starting at a multiple of 4 (past the first four) add byte i+j to slot j. */
  lemma PartialFourMore(d: Digest, j: nat, i: nat)
    requires j < 4 && (i == 4 || i == 8 || i == 12)
    ensures Partial(d, j, i + 4) == Partial(d, j, i) ^ d[i + j]
  {
    assert i % 4 == 0 && (i + 1) % 4 == 1 && (i + 2) % 4 == 2 && (i + 3) % 4 == 3;
    PartialStep(d, j, i); PartialStep(d, j, i + 1); PartialStep(d, j, i + 2); PartialStep(d, j, i + 3);
  }

  /** After all sixteen iterations, slot `j` holds bytes 4+j, 8+j and 12+j XORed. */
  lemma PartialComplete(d: Digest, j: nat)
    requires j < 4
    ensures Partial(d, j, 16) == Folded(d, j)
  {
    assert Partial(d, j, 4) == 0;
    PartialFourMore(d, j, 4);
    PartialFourMore(d, j, 8);
    PartialFourMore(d, j, 12);
  }

  /** Bytes rendered with "X2", one after another. */
  function RenderBytes(bs: seq<byte>): (h: string)
    ensures |h| == 2 * |bs| && IsUpperHex(h)
  {
    if bs == [] then ""
    else
      X2Length(bs[|bs| - 1] as int);
      RenderBytes(bs[..|bs| - 1]) + X2(bs[|bs| - 1] as int)
  }

  /** Each byte can be read back from its two characters of the rendering. */
  lemma {:induction false} RenderBytesAt(bs: seq<byte>, k: nat)
    requires k < |bs|
    ensures RenderBytes(bs)[2 * k..2 * k + 2] == X2(bs[k] as int)
    ensures Value(RenderBytes(bs)[2 * k..2 * k + 2]) == bs[k] as int
  {
    var init, last := RenderBytes(bs[..|bs| - 1]), X2(bs[|bs| - 1] as int);
    X2Length(bs[|bs| - 1] as int);
    if k < |bs| - 1 {
      RenderBytesAt(bs[..|bs| - 1], k);
      assert (init + last)[2 * k..2 * k + 2] == init[2 * k..2 * k + 2];
    } else {
      assert (init + last)[2 * k..2 * k + 2] == last;
    }
    FormatRoundTrip(bs[k] as int, 2);
  }

  /** The text of a digest: its four folded bytes in "X2" format. */
  function HashText(d: Digest): (h: string)
    ensures |h| == 8 && IsUpperHex(h)
  {
    RenderBytes(FoldedBytes(d))
  }

  function FoldedBytes(d: Digest): (bs: seq<byte>)
    ensures |bs| == 4 && forall j :: 0 <= j < 4 ==> bs[j] == Folded(d, j)
  {
    [Folded(d, 0), Folded(d, 1), Folded(d, 2), Folded(d, 3)]
  }

  /** Reading the hex pair at position j of the name gives folded byte j back. */
  lemma HashTextRoundTrip(d: Digest, j: nat)
    requires j < 4
    ensures Value(HashText(d)[2 * j..2 * j + 2]) == Folded(d, j) as int
  {
    RenderBytesAt(FoldedBytes(d), j);
  }

  /** What `GetHash(s)` returns. */
  function HashName(s: string, hasher: Hasher): (h: string)
    ensures |h| == 8 && IsUpperHex(h)
  {
    HashText(hasher.md5(hasher.utf8(Lower(s))))
  }

  /** `GetHash`: the digest is folded in place into its first four bytes, which are
      then appended to a builder in "X2" format. */
  method GetHash(s: string, hasher: Hasher) returns (h: string)
    ensures h == HashName(s, hasher)
    ensures |h| == 8 && IsUpperHex(h)
  {
    var digest := hasher.md5(hasher.utf8(Lower(s)));
    var bytes := new byte[16];
    forall k | 0 <= k < 16 {
      bytes[k] := digest[k];
    }
    for i := 0 to bytes.Length
      invariant forall k :: 4 <= k < 16 ==> bytes[k] == digest[k]
      invariant forall j :: 0 <= j < 4 ==> bytes[j] == Partial(digest, j, i)
    {
      forall j | 0 <= j < 4 {
        PartialStep(digest, j, i);
      }
      assert i < 4 ==> bytes[i] == digest[i];
      bytes[i % 4] := bytes[i % 4] ^ bytes[i];
    }
    forall j | 0 <= j < 4 ensures bytes[j] == Folded(digest, j) {
      PartialComplete(digest, j);
    }
    var builder := "";
    for j := 0 to 4
      invariant builder == RenderBytes(bytes[..j])
    {
      assert bytes[..j + 1][..j] == bytes[..j];
      builder := builder + X2(bytes[j] as int);
    }
    assert bytes[..4] == FoldedBytes(digest);
    h := builder;
  }

  /** Two inputs that agree up to case get the same name. */
  lemma HashNameIgnoresCase(s: string, t: string, hasher: Hasher)
    requires Lower(s) == Lower(t)
    ensures HashName(s, hasher) == HashName(t, hasher)
  {
  }

  /** A fold over all sixteen bytes modulo 4: byte j XOR byte 4+j XOR byte 8+j XOR byte 12+j. */
  function FullFold(d: Digest, j: nat): byte
    requires j < 4
  {
    d[j] ^ d[4 + j] ^ d[8 + j] ^ d[12 + j]
  }

  /** The loop's result differs from the full fold by exactly the first-word byte. */
  lemma FoldedOmitsFirstWord(d: Digest, j: nat)
    requires j < 4
    ensures Folded(d, j) == FullFold(d, j) ^ d[j]
    ensures Folded(d, j) == FullFold(d, j) <==> d[j] == 0
  {
  }

  /** A digest for which the two folds differ: its first byte alone is set. */
  lemma FoldedDiffersFromFullFold()
    ensures var d: Digest := [1, 0, 0, 0, 0, 0, 0, 0, 0, 0, 0, 0, 0, 0, 0, 0];
      Folded(d, 0) == 0 && FullFold(d, 0) == 1
  {
  }
}
