/** Octets, and the big-endian integers that MRT records are made of. */
module Bytes {

  type byte = x: int | 0 <= x < 256

  datatype Option<+T> = None | Some(value: T)

  function Uint16(d: seq<byte>): (n: nat)
    requires |d| >= 2
    ensures n < 0x1_0000
  {
    (d[0] as int) * 0x100 + d[1]
  }

  function Uint32(d: seq<byte>): (n: nat)
    requires |d| >= 4
    ensures n < 0x1_0000_0000
  {
    Uint16(d) * 0x1_0000 + Uint16(d[2..])
  }

  function PutUint16(n: nat): (d: seq<byte>)
    requires n < 0x1_0000
    ensures |d| == 2
  {
    [n / 0x100, n % 0x100]
  }

  function PutUint32(n: nat): (d: seq<byte>)
    requires n < 0x1_0000_0000
    ensures |d| == 4
  {
    PutUint16(n / 0x1_0000) + PutUint16(n % 0x1_0000)
  }

  /** Reading back what was written, whatever follows it. */
  lemma Uint16OfPut(n: nat, rest: seq<byte>)
    requires n < 0x1_0000
    ensures Uint16(PutUint16(n) + rest) == n
  {
  }

  lemma Uint32OfPut(n: nat, rest: seq<byte>)
    requires n < 0x1_0000_0000
    ensures Uint32(PutUint32(n) + rest) == n
  {
  }

  /** Writing back what was read. */
  lemma PutOfUint16(d: seq<byte>)
    requires |d| >= 2
    ensures PutUint16(Uint16(d)) == d[..2]
  {
  }

  lemma PutOfUint32(d: seq<byte>)
    requires |d| >= 4
    ensures PutUint32(Uint32(d)) == d[..4]
  {
    PutOfUint16(d);
    PutOfUint16(d[2..]);
    Halves(Uint16(d), Uint16(d[2..]));
    assert d[..4] == d[..2] + d[2..][..2];
  }

  lemma Halves(hi: nat, lo: nat)
    requires hi < 0x1_0000 && lo < 0x1_0000
    ensures (hi * 0x1_0000 + lo) / 0x1_0000 == hi && (hi * 0x1_0000 + lo) % 0x1_0000 == lo
  {
  }
}
