/** The arithmetic of `MapItemPath`'s cut: C#'s truncating integer division and the
    start of the last slice of a path, `(length / num) * num`. */
module SliceArithmetic {

  function Abs(n: int): nat {
    if n < 0 then -n else n
  }

  /** C#'s integer division, which truncates toward zero. */
  function TruncatedDivision(a: int, b: int): int
    requires b != 0
  {
    var q := Abs(a) / Abs(b);
    if (a < 0) == (b < 0) then q else -q
  }

  /** Where the last slice of a path of length `len` starts: the largest multiple of
      `num` not above `len`, whatever the sign of `num`. */
  function StartIndex(len: nat, num: int): (r: nat)
    requires num != 0
    ensures r <= len < r + Abs(num)
    ensures r == 0 <==> len < Abs(num)
    decreases len
  {
    if len < Abs(num) then 0 else StartIndex(len - Abs(num), num) + Abs(num)
  }

  /** `StartIndex` is the source's `(len / num) * num`. */
  lemma {:induction false} StartIndexIsTruncatedProduct(len: nat, num: int)
    requires num != 0
    ensures StartIndex(len, num) == TruncatedDivision(len, num) * num
    decreases len
  {
    var n := Abs(num);
    TruncatedProduct(len, num);
    if len < n {
      DivisionUnique(len, n, 0, len);
    } else {
      StartIndexIsTruncatedProduct(len - n, num);
      TruncatedProduct(len - n, num);
      QuotientStep(len, n);
    }
  }

  /** The quotient is determined by a decomposition with a remainder in range. */
  lemma DivisionUnique(a: nat, n: nat, q: nat, r: nat)
    requires n > 0 && a == n * q + r && r < n
    ensures a / n == q
  {
    var q', r' := a / n, a % n;
    assert a == n * q' + r' && 0 <= r' < n;
    assert n * (q - q') == r' - r;
    MultipleBounds(n, q - q');
  }

  /** A non-zero multiple of `n` is at least `n` away from zero. */
  lemma MultipleBounds(n: nat, k: int)
    ensures k >= 1 ==> n * k >= n
    ensures k <= -1 ==> n * k + n <= 0
  {
    if k >= 1 {
      assert n * k == n + n * (k - 1);
    } else if k <= -1 {
      assert n * k == n * (k + 1) - n;
    }
  }

  /** `TruncatedDivision(len, num) * num` is `(len / |num|) * |num|` whatever the sign of `num`. */
  lemma TruncatedProduct(len: nat, num: int)
    requires num != 0
    ensures TruncatedDivision(len, num) * num == (len / Abs(num)) * Abs(num)
  {
    var q := len / Abs(num);
    if num < 0 {
      assert (-q) * num == q * (-num);
    }
  }

  /** Taking `n` away from `len` takes one from the quotient. */
  lemma QuotientStep(len: nat, n: nat)
    requires 0 < n <= len
    ensures (len / n) * n == ((len - n) / n) * n + n
  {
    var q := (len - n) / n;
    assert len - n == n * q + (len - n) % n;
    DivisionUnique(len, n, q + 1, (len - n) % n);
    assert (q + 1) * n == q * n + n;
  }
}
