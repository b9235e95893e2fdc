/** Go's int64 and uint64: sums wrap around modulo 2^64. */
module Int64 {

  const TWO_TO_THE_63 := 0x8000_0000_0000_0000
  const TWO_TO_THE_64 := 0x1_0000_0000_0000_0000

  type int64 = x: int | -TWO_TO_THE_63 <= x < TWO_TO_THE_63
  type uint64 = x: int | 0 <= x < TWO_TO_THE_64

  lemma ModIs(n: int, u: uint64, q: int)
    requires n == u + q * TWO_TO_THE_64
    ensures n % TWO_TO_THE_64 == u
  {
  }

  /** Two's complement: the int64 that a sum wraps around to. */
  function Wrap64(n: int): int64 {
    (n + TWO_TO_THE_63) % TWO_TO_THE_64 - TWO_TO_THE_63
  }

  /** The one int64 that differs from n by a multiple of 2^64. */
  lemma WrapIs(n: int, w: int64, q: int)
    requires n == w + q * TWO_TO_THE_64
    ensures Wrap64(n) == w
  {
  }

  /** A sum of two int64 is out of range by at most one turn. */
  lemma WrapOfSum(n: int)
    requires -TWO_TO_THE_64 <= n < TWO_TO_THE_64
    ensures Wrap64(n) == if n >= TWO_TO_THE_63 then n - TWO_TO_THE_64
                         else if n < -TWO_TO_THE_63 then n + TWO_TO_THE_64 else n
  {
    if n >= TWO_TO_THE_63 {
      WrapIs(n, n - TWO_TO_THE_64, 1);
    } else if n < -TWO_TO_THE_63 {
      WrapIs(n, n + TWO_TO_THE_64, -1);
    } else {
      WrapIs(n, n, 0);
    }
  }

  lemma WrapQuotient(n: int) returns (q: int)
    ensures n == Wrap64(n) + q * TWO_TO_THE_64
  {
    q := (n + TWO_TO_THE_63) / TWO_TO_THE_64;
  }

  lemma WrapOfWrap(n: int, d: int)
    ensures Wrap64(Wrap64(n) + d) == Wrap64(n + d)
  {
  }

  /** Numbers less than 2^64 apart wrap to the same int64 only if they are equal. */
  lemma WrapIsInjective(m: int, n: int)
    requires Wrap64(m) == Wrap64(n) && -TWO_TO_THE_64 < m - n < TWO_TO_THE_64
    ensures m == n
  {
  }
}
