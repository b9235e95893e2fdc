/**
 `cidr2prefix` turns a network into the string of its leading bits. This module
 relates those strings to address arithmetic: their prefix order is containment of
 networks, and their lexicographic order is numeric order of addresses.
 */
module Prefixes {
  import opened Bytes
  import opened Ordering

  // ------------------------------------------------------------ bit strings

  predicate IsBits(s: string) {
    forall i | 0 <= i < |s| :: s[i] == '0' || s[i] == '1'
  }

  /** The low w bits of n, most significant first; %08b is width 8. */
  function Bits(n: nat, w: nat): (s: string)
    ensures |s| == w && IsBits(s)
  {
    if w == 0 then "" else Bits(n / 2, w - 1) + [if n % 2 == 1 then '1' else '0']
  }

  function Number(s: string): nat
    requires IsBits(s)
  {
    if s == "" then 0 else Number(s[..|s| - 1]) * 2 + (if s[|s| - 1] == '1' then 1 else 0)
  }

  lemma {:induction false} BitsOfNumber(s: string)
    requires IsBits(s)
    ensures Bits(Number(s), |s|) == s
  {
    if s != "" {
      BitsOfNumber(s[..|s| - 1]);
      assert s == s[..|s| - 1] + [s[|s| - 1]];
    }
  }

  function Pow2(k: nat): (p: nat)
    ensures p >= 1
  {
    if k == 0 then 1 else 2 * Pow2(k - 1)
  }

  lemma {:induction false} NumberOfBits(n: nat, w: nat)
    requires n < Pow2(w)
    ensures Number(Bits(n, w)) == n
  {
    if w > 0 {
      NumberOfBits(n / 2, w - 1);
      assert Bits(n, w)[..w - 1] == Bits(n / 2, w - 1);
    }
  }

  /** n without its last k bits. */
  function Shift(n: nat, k: nat): nat {
    if k == 0 then n else Shift(n / 2, k - 1)
  }

  lemma DivUnique(a: nat, p: nat, q: nat, r: nat)
    requires p >= 1 && a == p * q + r && r < p
    ensures a / p == q
  {
    var d, r' := a / p - q, a % p;
    assert p * (d + q) == p * d + p * q;
    assert d >= 1 ==> p * d >= p;
    assert d <= -1 ==> p * d + p <= 0;
  }

  /** Halving and then dividing by p is dividing by 2p. */
  lemma HalvesDivide(n: nat, p: nat)
    requires p >= 1
    ensures (n / 2) / p == n / (2 * p)
  {
    var h := n / 2;
    var q, r := h / p, h % p;
    Doubled(h, p, q, r, n % 2);
    DivUnique(n, 2 * p, q, 2 * r + n % 2);
  }

  lemma Doubled(h: nat, p: nat, q: nat, r: nat, b: nat)
    requires h == p * q + r
    ensures 2 * h + b == (2 * p) * q + (2 * r + b)
  {
  }

  lemma {:induction false} ShiftIsDivision(n: nat, k: nat)
    ensures Shift(n, k) == n / Pow2(k)
  {
    if k > 0 {
      ShiftIsDivision(n / 2, k - 1);
      HalvesDivide(n, Pow2(k - 1));
    }
  }

  /** The leading bits of a number are the bits of the number shifted right. */
  lemma {:induction false} LeadingBits(n: nat, w: nat, k: nat)
    requires k <= w
    ensures Bits(n, w)[..k] == Bits(Shift(n, w - k), k)
    decreases w
  {
    if k < w {
      LeadingBits(n / 2, w - 1, k);
    }
  }

  lemma {:induction false} ShiftBelow(n: nat, w: nat, k: nat)
    requires n < Pow2(w) && k <= w
    ensures Shift(n, k) < Pow2(w - k)
    decreases k
  {
    if k > 0 {
      ShiftBelow(n / 2, w - 1, k - 1);
    }
  }

  lemma BitsAreInjective(m: nat, n: nat, k: nat)
    requires m < Pow2(k) && n < Pow2(k) && Bits(m, k) == Bits(n, k)
    ensures m == n
  {
    NumberOfBits(m, k);
    NumberOfBits(n, k);
  }

  /** Two numbers of w bits agree on their leading k bits exactly when their shifts agree. */
  lemma LeadingBitsIff(m: nat, n: nat, w: nat, k: nat)
    requires m < Pow2(w) && n < Pow2(w) && k <= w
    ensures Bits(m, w)[..k] == Bits(n, w)[..k] <==> m / Pow2(w - k) == n / Pow2(w - k)
  {
    var a, b := Shift(m, w - k), Shift(n, w - k);
    LeadingBits(m, w, k);
    LeadingBits(n, w, k);
    ShiftIsDivision(m, w - k);
    ShiftIsDivision(n, w - k);
    if Bits(a, k) == Bits(b, k) {
      ShiftBelow(m, w, w - k);
      ShiftBelow(n, w, w - k);
      BitsAreInjective(a, b, k);
    }
  }

  // --------------------------------------------------------------- networks

  /** net.IPNet as ParseCIDR returns it: 4 or 16 octets and a mask length. */
  datatype Network = Network(ip: seq<byte>, ones: nat)

  predicate Valid(n: Network) {
    (|n.ip| == 4 || |n.ip| == 16) && n.ones <= 8 * |n.ip|
  }

  function Expand(ip: seq<byte>): (s: string)
    ensures |s| == 8 * |ip| && IsBits(s)
  {
    if ip == [] then "" else Expand(ip[..|ip| - 1]) + Bits(ip[|ip| - 1], 8)
  }

  function Key(n: Network): (s: string)
    requires Valid(n)
    ensures |s| == n.ones
  {
    Expand(n.ip)[..n.ones]
  }

  /** The address as one big-endian number. */
  function AddressValue(ip: seq<byte>): nat {
    if ip == [] then 0 else AddressValue(ip[..|ip| - 1]) * 256 + ip[|ip| - 1]
  }

  /** n followed by k zero bits. */
  function Double(n: nat, k: nat): nat {
    if k == 0 then n else 2 * Double(n, k - 1)
  }

  lemma NumberOfOneMore(s: string, c: char)
    requires IsBits(s) && (c == '0' || c == '1')
    ensures IsBits(s + [c]) && Number(s + [c]) == 2 * Number(s) + (if c == '1' then 1 else 0)
  {
  }

  lemma {:induction false} NumberAppend(s: string, b: nat, k: nat)
    requires IsBits(s) && b < Pow2(k)
    ensures IsBits(s + Bits(b, k)) && Number(s + Bits(b, k)) == Double(Number(s), k) + b
  {
    if k == 0 {
      assert s + Bits(b, k) == s;
    } else {
      var c := if b % 2 == 1 then '1' else '0';
      NumberAppend(s, b / 2, k - 1);
      NumberOfOneMore(s + Bits(b / 2, k - 1), c);
      assert s + Bits(b, k) == s + Bits(b / 2, k - 1) + [c];
    }
  }

  lemma Double8(n: nat)
    ensures Double(n, 8) == 256 * n
  {
    assert Double(n, 2) == 2 * Double(n, 1) == 4 * n;
    assert Double(n, 4) == 2 * Double(n, 3) == 4 * Double(n, 2);
    assert Double(n, 6) == 2 * Double(n, 5) == 4 * Double(n, 4);
    assert Double(n, 8) == 2 * Double(n, 7) == 4 * Double(n, 6);
  }

  lemma {:induction false} NumberOfExpand(ip: seq<byte>)
    ensures Number(Expand(ip)) == AddressValue(ip)
  {
    if ip != [] {
      var init, b := ip[..|ip| - 1], ip[|ip| - 1];
      NumberOfExpand(init);
      Pow2Adds8(0);
      NumberAppend(Expand(init), b, 8);
      Double8(AddressValue(init));
    }
  }

  /** The octet-wise expansion is the binary notation of the whole address. */
  lemma ExpandIsBits(ip: seq<byte>)
    ensures Expand(ip) == Bits(AddressValue(ip), 8 * |ip|)
    ensures AddressValue(ip) < Pow2(8 * |ip|)
  {
    NumberOfExpand(ip);
    BitsOfNumber(Expand(ip));
    NumberBelow(Expand(ip));
  }

  lemma Pow2Adds8(k: nat)
    ensures Pow2(k + 8) == 256 * Pow2(k)
  {
    assert Pow2(k + 2) == 2 * Pow2(k + 1) == 4 * Pow2(k);
    assert Pow2(k + 4) == 2 * Pow2(k + 3) == 4 * Pow2(k + 2);
    assert Pow2(k + 6) == 2 * Pow2(k + 5) == 4 * Pow2(k + 4);
    assert Pow2(k + 8) == 2 * Pow2(k + 7) == 4 * Pow2(k + 6);
  }

  /** Fprintf("%08b") for each octet, then the first `ones` characters. */
  method BuildKey(n: Network) returns (s: string)
    requires Valid(n)
    ensures s == Key(n)
  {
    var buffer := "";
    for i := 0 to |n.ip|
      invariant buffer == Expand(n.ip[..i])
    {
      assert n.ip[..i + 1][..i] == n.ip[..i];
      buffer := buffer + Bits(n.ip[i], 8);
    }
    assert n.ip[..|n.ip|] == n.ip;
    s := buffer[..n.ones];
  }

  // ------------------------------------------------------------ containment

  /** x is an address of the network, numerically. */
  predicate Contains(n: Network, x: nat)
    requires Valid(n)
  {
    var hostBits := 8 * |n.ip| - n.ones;
    x < Pow2(8 * |n.ip|) && x / Pow2(hostBits) == AddressValue(n.ip) / Pow2(hostBits)
  }

  lemma PrefixIff(a: string, b: string)
    requires |a| <= |b|
    ensures a <= b <==> b[..|a|] == a
  {
  }

  lemma SameBlockIff(x: nat, v: nat, w: nat, k: nat)
    requires x < Pow2(w) && v < Pow2(w) && k <= w
    ensures x / Pow2(w - k) == v / Pow2(w - k) <==> Bits(v, w)[..k] <= Bits(x, w)
  {
    LeadingBitsIff(x, v, w, k);
    PrefixIff(Bits(v, w)[..k], Bits(x, w));
  }

  lemma ContainsIff(n: Network, x: nat)
    requires Valid(n) && x < Pow2(8 * |n.ip|)
    ensures Contains(n, x) <==> Key(n) <= Bits(x, 8 * |n.ip|)
  {
    var w, v := 8 * |n.ip|, AddressValue(n.ip);
    ExpandIsBits(n.ip);
    assert Key(n) == Bits(v, w)[..n.ones];
    SameBlockIff(x, v, w, n.ones);
  }

  /** An address whose bits start with a given string and go on with one repeated bit. */
  lemma Padded(key: string, w: nat, bit: char) returns (x: nat)
    requires IsBits(key) && |key| <= w && (bit == '0' || bit == '1')
    ensures x < Pow2(w) && Bits(x, w) == key + seq(w - |key|, _ => bit)
  {
    var s := key + seq(w - |key|, _ => bit);
    x := Number(s);
    BitsOfNumber(s);
    NumberBelow(s);
  }

  lemma {:induction false} NumberBelow(s: string)
    requires IsBits(s)
    ensures Number(s) < Pow2(|s|)
  {
    if s != "" {
      NumberBelow(s[..|s| - 1]);
    }
  }

  ghost predicate Covers(p: Network, q: Network)
    requires Valid(p) && Valid(q)
  {
    forall x: nat | Contains(q, x) :: Contains(p, x)
  }

  /** p covers q, address by address, exactly when p's key is a prefix of q's key. */
  lemma CoversIffPrefix(p: Network, q: Network)
    requires Valid(p) && Valid(q) && |p.ip| == |q.ip|
    ensures Covers(p, q) <==> Key(p) <= Key(q)
  {
    if Key(p) <= Key(q) {
      PrefixCovers(p, q);
    }
    if Covers(p, q) {
      CoverIsPrefix(p, q);
    }
  }

  lemma PrefixCovers(p: Network, q: Network)
    requires Valid(p) && Valid(q) && |p.ip| == |q.ip| && Key(p) <= Key(q)
    ensures Covers(p, q)
  {
    forall x: nat | Contains(q, x)
      ensures Contains(p, x)
    {
      ContainsIff(p, x);
      ContainsIff(q, x);
    }
  }

  lemma CoverIsPrefix(p: Network, q: Network)
    requires Valid(p) && Valid(q) && |p.ip| == |q.ip| && Covers(p, q)
    ensures Key(p) <= Key(q)
  {
    var w := 8 * |p.ip|;
    var other := if |Key(q)| < |Key(p)| && Key(p)[|Key(q)|] == '0' then '1' else '0';
    var x := Padded(Key(q), w, other);
    ContainsIff(q, x);
    ContainsIff(p, x);
  }

  // ------------------------------------------------------------------ order

  function CharRank(c: char): int { c as int }

  function ByteRank(b: byte): int { b }

  predicate TextLess(a: string, b: string) {
    LexLess(a, b, CharRank)
  }

  lemma {:induction false} BitsOrder(m: nat, n: nat, w: nat)
    requires m < Pow2(w) && n < Pow2(w)
    ensures TextLess(Bits(m, w), Bits(n, w)) <==> m < n
  {
    if w == 0 {
      LexIrreflexive("", CharRank);
    } else {
      BitsOrder(m / 2, n / 2, w - 1);
      NumberOfBits(m / 2, w - 1);
      NumberOfBits(n / 2, w - 1);
      LexLastBreaksTie(Bits(m / 2, w - 1), Bits(n / 2, w - 1),
                       if m % 2 == 1 then '1' else '0', if n % 2 == 1 then '1' else '0', CharRank);
    }
  }

  lemma {:induction false} ByteOrder(a: seq<byte>, b: seq<byte>)
    requires |a| == |b|
    ensures LexLess(a, b, ByteRank) <==> AddressValue(a) < AddressValue(b)
    ensures a == b <==> AddressValue(a) == AddressValue(b)
  {
    if a == [] {
      LexIrreflexive(a, ByteRank);
    } else {
      var n := |a| - 1;
      ByteOrder(a[..n], b[..n]);
      LexLastBreaksTie(a[..n], b[..n], a[n], b[n], ByteRank);
      assert a == a[..n] + [a[n]] && b == b[..n] + [b[n]];
    }
  }

  /** Comparing expansions, comparing octets and comparing numbers are one and the same. */
  lemma OrdersAgree(a: seq<byte>, b: seq<byte>)
    requires |a| == |b|
    ensures TextLess(Expand(a), Expand(b)) <==> AddressValue(a) < AddressValue(b)
    ensures LexLess(a, b, ByteRank) <==> AddressValue(a) < AddressValue(b)
  {
    ExpandIsBits(a);
    ExpandIsBits(b);
    BitsOrder(AddressValue(a), AddressValue(b), 8 * |a|);
    ByteOrder(a, b);
  }

  // ------------------------------------------------- the neighbor comparator

  /** net.ParseCIDR is not part of this model: any partial function to valid networks. */
  type Parser = p: string -> Option<Network> | forall s :: p(s).Some? ==> Valid(p(s).value)
    witness (_ => None)

  function CidrKey(parse: Parser, cidr: string): string {
    match parse(cidr) case None => cidr case Some(n) => Key(n)
  }

  /** cidr2prefix: text that is not a network is its own key. */
  method Cidr2Prefix(parse: Parser, cidr: string) returns (s: string)
    ensures s == CidrKey(parse, cidr)
  {
    var n := parse(cidr);
    if n.None? {
      return cidr;
    }
    s := BuildKey(n.value);
  }

  predicate IsV4Text(addr: string) {
    ':' !in addr
  }

  function HostKey(parse: Parser, addr: string): string {
    CidrKey(parse, addr + (if IsV4Text(addr) then "/32" else "/128"))
  }

  /** The order of showNeighbors: IPv4 first, then by key. */
  predicate NeighborLess(parse: Parser, p: string, q: string) {
    if IsV4Text(p) != IsV4Text(q) then IsV4Text(p)
    else TextLess(HostKey(parse, p), HostKey(parse, q))
  }

  /** What sort.Slice needs of it: a strict weak order on all strings, parsable or not. */
  lemma NeighborLessIsStrictWeakOrder(parse: Parser, p: string, q: string, r: string)
    ensures ':' !in p && ':' in q ==> NeighborLess(parse, p, q) && !NeighborLess(parse, q, p)
    ensures !NeighborLess(parse, p, p)
    ensures NeighborLess(parse, p, q) && NeighborLess(parse, q, r) ==> NeighborLess(parse, p, r)
    ensures NeighborLess(parse, p, r) ==> NeighborLess(parse, p, q) || NeighborLess(parse, q, r)
  {
    var a, b, c := HostKey(parse, p), HostKey(parse, q), HostKey(parse, r);
    LexIrreflexive(a, CharRank);
    if TextLess(a, b) && TextLess(b, c) {
      LexTransitive(a, b, c, CharRank);
    }
    LexTotal(a, b, CharRank);
    if TextLess(a, c) && TextLess(b, a) {
      LexTransitive(b, a, c, CharRank);
    }
  }

  lemma WholeKey(ip: seq<byte>)
    requires |ip| == 4 || |ip| == 16
    ensures Key(Network(ip, 8 * |ip|)) == Expand(ip)
  {
  }

  /** IPv4 neighbors, whose texts have no colon, are listed in numeric order, which is the RIB's order too. */
  lemma V4NeighborOrderIsNumeric(parse: Parser, p: string, q: string, a: seq<byte>, b: seq<byte>)
    requires ':' !in p && ':' !in q && |a| == |b| == 4
    requires parse(p + "/32") == Some(Network(a, 32)) && parse(q + "/32") == Some(Network(b, 32))
    ensures NeighborLess(parse, p, q) <==> AddressValue(a) < AddressValue(b)
    ensures NeighborLess(parse, p, q) <==> LexLess(a, b, ByteRank)
  {
    OrdersAgree(a, b);
    WholeKey(a);
    WholeKey(b);
  }

  /** So are IPv6 neighbors, whose texts have one. */
  lemma V6NeighborOrderIsNumeric(parse: Parser, p: string, q: string, a: seq<byte>, b: seq<byte>)
    requires ':' in p && ':' in q && |a| == |b| == 16
    requires parse(p + "/128") == Some(Network(a, 128)) && parse(q + "/128") == Some(Network(b, 128))
    ensures NeighborLess(parse, p, q) <==> AddressValue(a) < AddressValue(b)
    ensures NeighborLess(parse, p, q) <==> LexLess(a, b, ByteRank)
  {
    OrdersAgree(a, b);
    WholeKey(a);
    WholeKey(b);
  }

  /** Names that are no addresses are ordered by their texts. */
  lemma OtherNeighborOrder(parse: Parser, p: string, q: string)
    requires ':' !in p && ':' !in q && parse(p + "/32") == None && parse(q + "/32") == None
    ensures NeighborLess(parse, p, q) <==> LexLess(p + "/32", q + "/32", CharRank)
  {
  }
}
