/**
 The MRT wire format as pkg/packet/mrt reads and writes it: the common header
 (section 2 of RFC 6396), the framing of a dump into records, and the
 PEER_INDEX_TABLE body (section 4.3.1 of RFC 6396).
 */
module MrtWire {
  import opened Bytes

  const COMMON_HEADER_LEN := 12

  const TABLE_DUMP_V2 := 13
  const BGP4MP := 16
  const BGP4MP_ET := 17
  const ISIS_ET := 33
  const OSPFV3_ET := 49

  // ---------------------------------------------------------------- header

  datatype Header = Header(timestamp: nat, typ: nat, subType: nat, len: nat, micros: nat)

  predicate HasExtendedTimestamp(typ: nat) {
    typ == BGP4MP_ET || typ == ISIS_ET || typ == OSPFV3_ET
  }

  predicate ValidHeader(h: Header) {
    && h.timestamp < 0x1_0000_0000 && h.typ < 0x1_0000 && h.subType < 0x1_0000
    && h.len < 0x1_0000_0000 && h.micros < 0x1_0000_0000
    && (!HasExtendedTimestamp(h.typ) ==> h.micros == 0)
  }

  function ParseHeader(data: seq<byte>): (r: Option<Header>)
    ensures r.Some? ==> ValidHeader(r.value)
  {
    if |data| < COMMON_HEADER_LEN then None
    else
      var h := Header(Uint32(data), Uint16(data[4..]), Uint16(data[6..]), Uint32(data[8..]), 0);
      if !HasExtendedTimestamp(h.typ) then Some(h)
      else if |data| < 16 then None
      else Some(h.(micros := Uint32(data[12..])))
  }

  function SerializeHeader(h: Header): (d: seq<byte>)
    requires ValidHeader(h)
    ensures |d| == if HasExtendedTimestamp(h.typ) then 16 else COMMON_HEADER_LEN
  {
    PutUint32(h.timestamp) + PutUint16(h.typ) + PutUint16(h.subType) + PutUint32(h.len)
    + (if HasExtendedTimestamp(h.typ) then PutUint32(h.micros) else [])
  }

  /** Where the fields of a header lie, for any contents. */
  lemma HeaderLayout(a: seq<byte>, b: seq<byte>, c: seq<byte>, d: seq<byte>, e: seq<byte>)
    requires |a| == |d| == 4 && |b| == |c| == 2
    ensures var all := a + b + c + d + e;
            && all == a + all[4..] && all[4..] == b + all[6..] && all[6..] == c + all[8..]
            && all[8..] == d + e && all[12..] == e
  {
  }

  /** A serialized header parses back to itself, whatever bytes follow. */
  lemma HeaderRoundTrip(h: Header, rest: seq<byte>)
    requires ValidHeader(h)
    ensures ParseHeader(SerializeHeader(h) + rest) == Some(h)
  {
    var a, b, c, d := PutUint32(h.timestamp), PutUint16(h.typ), PutUint16(h.subType), PutUint32(h.len);
    var e := if HasExtendedTimestamp(h.typ) then PutUint32(h.micros) else [];
    var all := a + b + c + d + (e + rest);
    Associative(a + b + c + d, e, rest);
    HeaderLayout(a, b, c, d, e + rest);
    Uint32OfPut(h.timestamp, all[4..]);
    Uint16OfPut(h.typ, all[6..]);
    Uint16OfPut(h.subType, all[8..]);
    Uint32OfPut(h.len, e + rest);
    if HasExtendedTimestamp(h.typ) {
      Uint32OfPut(h.micros, rest);
    }
  }

  /** A header in octets, big-endian; the types 17, 33 and 49 have microseconds behind it. */
  lemma HeaderOctets(d: seq<byte>)
    ensures ParseHeader(d).Some?
            <==> |d| >= 12 && (d[4] as int * 256 + d[5] in {17, 33, 49} ==> |d| >= 16)
    ensures ParseHeader(d).Some? ==>
              var h := ParseHeader(d).value;
              && h.timestamp == d[0] as int * 16777216 + d[1] as int * 65536 + d[2] as int * 256 + d[3]
              && h.typ == d[4] as int * 256 + d[5] && h.subType == d[6] as int * 256 + d[7]
              && h.len == d[8] as int * 16777216 + d[9] as int * 65536 + d[10] as int * 256 + d[11]
              && h.micros == if h.typ in {17, 33, 49}
                             then d[12] as int * 16777216 + d[13] as int * 65536 + d[14] as int * 256 + d[15] else 0
  {
  }

  /** Nothing is lost: a parsed header serializes to the bytes it was read from. */
  lemma HeaderBytes(data: seq<byte>)
    requires ParseHeader(data).Some?
    ensures |SerializeHeader(ParseHeader(data).value)| <= |data|
    ensures SerializeHeader(ParseHeader(data).value) == data[..|SerializeHeader(ParseHeader(data).value)|]
  {
    var h := ParseHeader(data).value;
    PutOfUint32(data);
    PutOfUint16(data[4..]);
    PutOfUint16(data[6..]);
    PutOfUint32(data[8..]);
    if HasExtendedTimestamp(h.typ) {
      PutOfUint32(data[12..]);
    }
  }

  // --------------------------------------------------------------- framing

  /** One record: its header and the bytes of its body. */
  datatype Record = Record(header: Header, body: seq<byte>)

  datatype ReadResult = AtEnd | Broken | Got(record: Record, rest: seq<byte>)

  /**
   What the producer gets from its reader: a header of exactly 12 bytes, then
   `len` bytes of body. Only an empty input is a normal end. A short read and a
   header that does not parse end the process.
   */
  function ReadRecord(input: seq<byte>): (r: ReadResult)
    ensures r.Got? ==> |r.rest| + COMMON_HEADER_LEN <= |input|
  {
    if input == [] then AtEnd
    else if |input| < COMMON_HEADER_LEN then Broken
    else match ParseHeader(input[..COMMON_HEADER_LEN])
      case None => Broken
      case Some(h) =>
        var data := input[COMMON_HEADER_LEN..];
        if |data| < h.len then Broken
        else Got(Record(h, data[..h.len]), data[h.len..])
  }

  datatype Framing = Framing(records: seq<Record>, clean: bool)

  /** All records of an input, and whether it ends on a record boundary. */
  function Frame(input: seq<byte>): (f: Framing)
    decreases |input|
  {
    match ReadRecord(input)
    case AtEnd => Framing([], true)
    case Broken => Framing([], false)
    case Got(record, rest) =>
      var f := Frame(rest);
      Framing([record] + f.records, f.clean)
  }

  /** A record as a writer produces it: the body has the announced length. */
  predicate WellFormed(r: Record) {
    ValidHeader(r.header) && r.header.len == |r.body|
  }

  /** A record that the reader can frame, too. */
  predicate Readable(r: Record) {
    WellFormed(r) && !IsExtended(r)
  }

  predicate IsExtended(r: Record) {
    HasExtendedTimestamp(r.header.typ)
  }

  predicate AllWellFormed(rs: seq<Record>) {
    forall i | 0 <= i < |rs| :: WellFormed(rs[i])
  }

  predicate AllReadable(rs: seq<Record>) {
    forall i | 0 <= i < |rs| :: Readable(rs[i])
  }

  function SerializeRecords(rs: seq<Record>): seq<byte>
    requires AllWellFormed(rs)
  {
    if rs == [] then [] else SerializeHeader(rs[0].header) + rs[0].body + SerializeRecords(rs[1..])
  }

  lemma ReadSerialized(r: Record, rest: seq<byte>)
    requires Readable(r)
    ensures ReadRecord(SerializeHeader(r.header) + r.body + rest) == Got(r, rest)
  {
    var hd := SerializeHeader(r.header);
    var input := hd + r.body + rest;
    assert input[..COMMON_HEADER_LEN] == hd == hd + [];
    HeaderRoundTrip(r.header, []);
    assert input[COMMON_HEADER_LEN..] == r.body + rest;
  }

  lemma ReadIsExact(input: seq<byte>)
    requires ReadRecord(input).Got?
    ensures var Got(r, rest) := ReadRecord(input);
            Readable(r) && input == SerializeHeader(r.header) + r.body + rest
  {
    HeaderBytes(input[..COMMON_HEADER_LEN]);
    var Got(r, rest) := ReadRecord(input);
    var data := input[COMMON_HEADER_LEN..];
    assert SerializeHeader(r.header) == input[..COMMON_HEADER_LEN];
    assert data == r.body + rest;
    assert input == input[..COMMON_HEADER_LEN] + data;
  }

  lemma FrameOfOneMore(r: Record, rest: seq<byte>)
    requires Readable(r)
    ensures Frame(SerializeHeader(r.header) + r.body + rest) == Framing([r] + Frame(rest).records, Frame(rest).clean)
  {
    ReadSerialized(r, rest);
  }

  /** A header with an extended timestamp never gets past the 12-byte read. */
  lemma ReadExtended(h: Header, rest: seq<byte>)
    requires ValidHeader(h) && HasExtendedTimestamp(h.typ)
    ensures ReadRecord(SerializeHeader(h) + rest) == Broken
  {
    var d := SerializeHeader(h) + rest;
    var first := d[..COMMON_HEADER_LEN];
    HeaderRoundTrip(h, rest);
    assert first[4..][..2] == d[4..][..2];
    assert Uint16(first[4..]) == Uint16(d[4..]);
  }

  function FirstExtended(rs: seq<Record>): (x: nat)
    ensures x <= |rs|
    ensures x < |rs| ==> IsExtended(rs[x])
    ensures forall i | 0 <= i < x :: !IsExtended(rs[i])
  {
    if rs == [] || IsExtended(rs[0]) then 0 else FirstExtended(rs[1..]) + 1
  }

  lemma FrameOfExtended(r: Record, rest: seq<byte>)
    requires WellFormed(r) && IsExtended(r)
    ensures Frame(SerializeHeader(r.header) + r.body + rest) == Framing([], false)
  {
    ReadExtended(r.header, r.body + rest);
    Associative(SerializeHeader(r.header), r.body, rest);
  }

  lemma UpToExtended(rs: seq<Record>)
    requires rs != [] && !IsExtended(rs[0])
    ensures FirstExtended(rs) == FirstExtended(rs[1..]) + 1
    ensures rs[..FirstExtended(rs)] == [rs[0]] + rs[1..][..FirstExtended(rs[1..])]
  {
  }

  /**
   Framing undoes concatenation, up to the first record with an extended timestamp: no record
   before it is lost, split, merged or reordered, and the end is clean exactly if there is none.
   */
  lemma {:induction false} FrameOfSerialized(rs: seq<Record>)
    requires AllWellFormed(rs)
    ensures Frame(SerializeRecords(rs)) == Framing(rs[..FirstExtended(rs)], FirstExtended(rs) == |rs|)
  {
    if rs != [] {
      var tail := SerializeRecords(rs[1..]);
      if IsExtended(rs[0]) {
        FrameOfExtended(rs[0], tail);
      } else {
        FrameOfSerialized(rs[1..]);
        FrameOfOneMore(rs[0], tail);
        UpToExtended(rs);
      }
    }
  }

  /**
   The converse, for every input: the records found are readable, their bytes are a
   prefix of the input, and the input ends cleanly exactly when they are all of it.
   */
  lemma {:induction false} FrameIsExact(input: seq<byte>)
    ensures AllReadable(Frame(input).records)
    ensures SerializeRecords(Frame(input).records) <= input
    ensures Frame(input).clean <==> SerializeRecords(Frame(input).records) == input
    decreases |input|
  {
    match ReadRecord(input)
    case AtEnd =>
    case Broken =>
    case Got(r, rest) =>
      FrameIsExact(rest);
      ReadIsExact(input);
      var f := Frame(input).records;
      assert f[1..] == Frame(rest).records;
      var head := SerializeHeader(r.header) + r.body;
      assert SerializeRecords(f) == head + SerializeRecords(f[1..]);
      assert input[|head|..] == rest;
  }

  // ------------------------------------------------------------ peer table

  datatype Peer = Peer(typ: byte, bgpId: seq<byte>, address: seq<byte>, asn: nat)

  predicate IsV6(typ: byte) { typ % 2 == 1 }

  predicate IsAs4(typ: byte) { typ / 2 % 2 == 1 }

  /** The shape that a peer entry's type octet announces. */
  predicate ValidPeer(p: Peer) {
    && |p.bgpId| == 4
    && |p.address| == (if IsV6(p.typ) then 16 else 4)
    && p.asn < (if IsAs4(p.typ) then 0x1_0000_0000 else 0x1_0000)
  }

  function DecodePeer(data: seq<byte>): (r: Option<(Peer, seq<byte>)>)
    ensures r.Some? ==> ValidPeer(r.value.0)
  {
    if |data| < 5 then None
    else
      var typ := data[0];
      var addrEnd := 5 + if IsV6(typ) then 16 else 4;
      var end := addrEnd + if IsAs4(typ) then 4 else 2;
      if |data| < end then None
      else
        var asn := if IsAs4(typ) then Uint32(data[addrEnd..]) else Uint16(data[addrEnd..]);
        Some((Peer(typ, data[1..5], data[5..addrEnd], asn), data[end..]))
  }

  function SerializePeer(p: Peer): seq<byte>
    requires ValidPeer(p)
  {
    [p.typ] + p.bgpId + p.address + SerializeAsn(p)
  }

  function SerializeAsn(p: Peer): seq<byte>
    requires ValidPeer(p)
  {
    if IsAs4(p.typ) then PutUint32(p.asn) else PutUint16(p.asn)
  }

  /** Where the fields of a peer entry lie, for any contents. */
  lemma PeerLayout(typ: byte, id: seq<byte>, address: seq<byte>, asn: seq<byte>, rest: seq<byte>)
    requires |id| == 4
    ensures var d := [typ] + id + address + asn + rest;
            var addrEnd := 5 + |address|;
            && d[1..5] == id && d[5..addrEnd] == address
            && d[addrEnd..] == asn + rest && d[addrEnd + |asn|..] == rest
  {
  }

  lemma DecodePeerOfSerialized(p: Peer, rest: seq<byte>)
    requires ValidPeer(p)
    ensures DecodePeer(SerializePeer(p) + rest) == Some((p, rest))
  {
    PeerLayout(p.typ, p.bgpId, p.address, SerializeAsn(p), rest);
    if IsAs4(p.typ) {
      Uint32OfPut(p.asn, rest);
    } else {
      Uint16OfPut(p.asn, rest);
    }
  }

  /**
   A peer entry in octets: bit 0 of the type announces a 16-octet address, bit 1 a 4-octet AS,
   which is big-endian.
   */
  lemma PeerOctets(typ: byte, id: seq<byte>, address: seq<byte>, asn: seq<byte>, rest: seq<byte>)
    requires |id| == 4 && |address| == (if typ % 2 == 1 then 16 else 4)
    requires |asn| == if typ / 2 % 2 == 1 then 4 else 2
    ensures DecodePeer([typ] + id + address + asn + rest)
            == Some((Peer(typ, id, address, BigEndian(asn)), rest))
  {
    PeerLayout(typ, id, address, asn, rest);
    AsnOctets(asn, rest);
  }

  lemma AsnOctets(asn: seq<byte>, rest: seq<byte>)
    ensures |asn| == 4 ==> Uint32(asn + rest) == BigEndian(asn)
    ensures |asn| == 2 ==> Uint16(asn + rest) == BigEndian(asn)
  {
    if |asn| == 4 {
      assert asn[..3][..2] == asn[..2] && asn[..2][..1] == asn[..1] && asn[..1][..0] == [];
      assert BigEndian(asn[..1]) == asn[0] as int && BigEndian(asn[..2]) == asn[0] as int * 256 + asn[1];
      assert (asn + rest)[2..][0] == asn[2] && (asn + rest)[2..][1] == asn[3];
    } else if |asn| == 2 {
      assert asn[..1][..0] == [];
      assert BigEndian(asn[..1]) == asn[0] as int;
    }
  }

  /** The last octet counts once, the one before it 256 times, and so on. */
  function BigEndian(d: seq<byte>): nat {
    if d == [] then 0 else BigEndian(d[..|d| - 1]) * 256 + d[|d| - 1]
  }

  lemma SplitPeer(d: seq<byte>, addrEnd: nat, end: nat)
    requires 5 <= addrEnd <= end <= |d|
    ensures d == [d[0]] + d[1..5] + d[5..addrEnd] + d[addrEnd..end] + d[end..]
  {
  }

  lemma DecodePeerIsExact(data: seq<byte>)
    requires DecodePeer(data).Some?
    ensures data == SerializePeer(DecodePeer(data).value.0) + DecodePeer(data).value.1
  {
    var p := DecodePeer(data).value.0;
    var addrEnd := 5 + |p.address|;
    if IsAs4(p.typ) {
      PutOfUint32(data[addrEnd..]);
      SplitPeer(data, addrEnd, addrEnd + 4);
    } else {
      PutOfUint16(data[addrEnd..]);
      SplitPeer(data, addrEnd, addrEnd + 2);
    }
  }

  predicate AllValid(ps: seq<Peer>) {
    forall i | 0 <= i < |ps| :: ValidPeer(ps[i])
  }

  function DecodePeers(n: nat, data: seq<byte>): (r: Option<(seq<Peer>, seq<byte>)>)
    ensures r.Some? ==> |r.value.0| == n && AllValid(r.value.0)
  {
    if n == 0 then Some(([], data))
    else match DecodePeer(data)
      case None => None
      case Some((p, d)) =>
        match DecodePeers(n - 1, d)
        case None => None
        case Some((ps, rest)) => Some(([p] + ps, rest))
  }

  function SerializePeers(ps: seq<Peer>): seq<byte>
    requires AllValid(ps)
  {
    if ps == [] then [] else SerializePeer(ps[0]) + SerializePeers(ps[1..])
  }

  lemma {:induction false} DecodePeersOfSerialized(ps: seq<Peer>, rest: seq<byte>)
    requires AllValid(ps)
    ensures DecodePeers(|ps|, SerializePeers(ps) + rest) == Some((ps, rest))
  {
    if ps == [] {
      assert SerializePeers(ps) + rest == rest;
    } else {
      var tail := SerializePeers(ps[1..]) + rest;
      DecodePeersOfSerialized(ps[1..], rest);
      DecodePeerOfSerialized(ps[0], tail);
      Associative(SerializePeer(ps[0]), SerializePeers(ps[1..]), rest);
      DecodePeersCons(|ps|, SerializePeer(ps[0]) + tail, ps[0], tail, ps[1..], rest);
      assert ps == [ps[0]] + ps[1..];
    }
  }

  lemma DecodePeersCons(n: nat, data: seq<byte>, p: Peer, d: seq<byte>, ps: seq<Peer>, rest: seq<byte>)
    requires n > 0 && DecodePeer(data) == Some((p, d)) && DecodePeers(n - 1, d) == Some((ps, rest))
    ensures DecodePeers(n, data) == Some(([p] + ps, rest))
  {
  }

  lemma Associative(a: seq<byte>, b: seq<byte>, c: seq<byte>)
    ensures a + b + c == a + (b + c)
  {
  }

  lemma {:induction false} DecodePeersIsExact(n: nat, data: seq<byte>)
    requires DecodePeers(n, data).Some?
    ensures data == SerializePeers(DecodePeers(n, data).value.0) + DecodePeers(n, data).value.1
  {
    if n > 0 {
      var (p, d) := DecodePeer(data).value;
      var (ps, rest) := DecodePeers(n - 1, d).value;
      DecodePeersIsExact(n - 1, d);
      DecodePeerIsExact(data);
      assert ([p] + ps)[1..] == ps;
      assert data == SerializePeer(p) + (SerializePeers(ps) + rest);
    }
  }

  datatype PeerTable = PeerTable(collector: seq<byte>, view: seq<byte>, peers: seq<Peer>)

  predicate ValidPeerTable(t: PeerTable) {
    && |t.collector| == 4 && |t.view| < 0x1_0000 && |t.peers| < 0x1_0000
    && AllValid(t.peers)
  }

  function SerializePeerTable(t: PeerTable): seq<byte>
    requires ValidPeerTable(t)
  {
    t.collector + PutUint16(|t.view|) + t.view + PutUint16(|t.peers|) + SerializePeers(t.peers)
  }

  /** The table that a PEER_INDEX_TABLE body announces; bytes after it are ignored. */
  function ReadPeerTable(data: seq<byte>): (r: Option<PeerTable>)
    ensures r.Some? ==> ValidPeerTable(r.value)
  {
    if |data| < 6 then None
    else
      var viewEnd := 6 + Uint16(data[4..]);
      if |data| < viewEnd + 2 then None
      else match DecodePeers(Uint16(data[viewEnd..]), data[viewEnd + 2..])
        case None => None
        case Some((ps, _)) => Some(PeerTable(data[..4], data[6..viewEnd], ps))
  }

  /** The peer loop: entries are decoded one by one from what is left of the body. */
  method DecodePeerList(n: nat, data: seq<byte>) returns (r: Option<(seq<Peer>, seq<byte>)>)
    ensures r == DecodePeers(n, data)
  {
    var peers: seq<Peer> := [];
    var d := data;
    var i := 0;
    PrependNothing(DecodePeers(n, data));
    while i < n
      invariant 0 <= i <= n
      invariant DecodePeers(n, data) == Prepend(peers, DecodePeers(n - i, d))
    {
      var next := DecodePeer(d);
      if next.None? {
        return None;
      }
      PrependPrepend(peers, next.value.0, DecodePeers(n - i - 1, next.value.1));
      peers := peers + [next.value.0];
      d := next.value.1;
      i := i + 1;
    }
    assert peers + [] == peers;
    r := Some((peers, d));
  }

  ghost function Prepend(ps: seq<Peer>, r: Option<(seq<Peer>, seq<byte>)>): Option<(seq<Peer>, seq<byte>)> {
    if r.None? then None else Some((ps + r.value.0, r.value.1))
  }

  lemma PrependNothing(r: Option<(seq<Peer>, seq<byte>)>)
    ensures Prepend([], r) == r
  {
    if r.Some? {
      assert [] + r.value.0 == r.value.0;
    }
  }

  lemma PrependPrepend(ps: seq<Peer>, p: Peer, r: Option<(seq<Peer>, seq<byte>)>)
    ensures Prepend(ps, Prepend([p], r)) == Prepend(ps + [p], r)
  {
    if r.Some? {
      assert ps + ([p] + r.value.0) == ps + [p] + r.value.0;
    }
  }

  /** parsePeerIndexTable */
  method ParsePeerIndexTable(data: seq<byte>) returns (r: Option<PeerTable>)
    ensures r == ReadPeerTable(data)
  {
    if |data| < 6 {
      return None;
    }
    var viewEnd := 6 + Uint16(data[4..]);
    if |data| < viewEnd {
      return None;
    }
    var d := data[viewEnd..];
    if |d| < 2 {
      return None;
    }
    assert d[2..] == data[viewEnd + 2..];
    var peers := DecodePeerList(Uint16(d), d[2..]);
    r := if peers.None? then None else Some(PeerTable(data[..4], data[6..viewEnd], peers.value.0));
  }

  /**
   Exactly what a body means: it reads as the table t if and only if it is t's
   serialization followed by anything at all.
   */
  lemma PeerTableIff(data: seq<byte>, t: PeerTable)
    ensures ReadPeerTable(data) == Some(t)
            <==> ValidPeerTable(t) && SerializePeerTable(t) <= data
  {
    if ReadPeerTable(data) == Some(t) {
      PeerTableIsExact(data, t);
    }
    if ValidPeerTable(t) && SerializePeerTable(t) <= data {
      PeerTableOfSerialized(t, data[|SerializePeerTable(t)|..]);
      assert data == SerializePeerTable(t) + data[|SerializePeerTable(t)|..];
    }
  }

  /** Where the fields of a table body lie, for any contents. */
  lemma TableLayout(collector: seq<byte>, len: seq<byte>, view: seq<byte>, count: seq<byte>, tail: seq<byte>)
    requires |collector| == 4 && |len| == 2 && |count| == 2
    ensures var d := collector + len + view + count + tail;
            && d[..4] == collector && d[4..] == len + d[6..] && d[6..6 + |view|] == view
            && d[6 + |view|..] == count + tail && d[6 + |view| + 2..] == tail
  {
  }

  lemma PeerTableOfSerialized(t: PeerTable, rest: seq<byte>)
    requires ValidPeerTable(t)
    ensures ReadPeerTable(SerializePeerTable(t) + rest) == Some(t)
  {
    var len, count, tail := PutUint16(|t.view|), PutUint16(|t.peers|), SerializePeers(t.peers) + rest;
    var data := t.collector + len + t.view + count + tail;
    assert SerializePeerTable(t) + rest == data by {
      Associative(t.collector + len + t.view + count, SerializePeers(t.peers), rest);
    }
    TableLayout(t.collector, len, t.view, count, tail);
    Uint16OfPut(|t.view|, data[6..]);
    Uint16OfPut(|t.peers|, tail);
    DecodePeersOfSerialized(t.peers, rest);
  }

  lemma PeerTableIsExact(data: seq<byte>, t: PeerTable)
    requires ReadPeerTable(data) == Some(t)
    ensures SerializePeerTable(t) <= data
  {
    var viewEnd := 6 + Uint16(data[4..]);
    var tail := data[viewEnd + 2..];
    var rest := DecodePeers(Uint16(data[viewEnd..]), tail).value.1;
    var len, count := PutUint16(|t.view|), PutUint16(|t.peers|);
    assert len == data[4..6] by { PutOfUint16(data[4..]); }
    assert count == data[viewEnd..viewEnd + 2] by { PutOfUint16(data[viewEnd..]); }
    DecodePeersIsExact(Uint16(data[viewEnd..]), tail);
    SplitAt(data, viewEnd);
    Associative(t.collector + len + t.view + count, SerializePeers(t.peers), rest);
  }

  lemma SplitAt(d: seq<byte>, viewEnd: nat)
    requires 6 <= viewEnd && viewEnd + 2 <= |d|
    ensures d == d[..4] + d[4..6] + d[6..viewEnd] + d[viewEnd..viewEnd + 2] + d[viewEnd + 2..]
  {
  }

  /** A body with one peer, in octets: the lengths of the view name and of the list are big-endian. */
  lemma OnePeerTable(collector: seq<byte>, hi: byte, lo: byte, view: seq<byte>, entry: seq<byte>, p: Peer)
    requires |collector| == 4 && |view| == hi as int * 256 + lo && DecodePeer(entry) == Some((p, []))
    ensures ReadPeerTable(collector + [hi, lo] + view + [0, 1] + entry) == Some(PeerTable(collector, view, [p]))
  {
    TableLayout(collector, [hi, lo], view, [0, 1], entry);
    DecodePeersCons(1, entry, p, [], [], []);
    assert [p] + [] == [p];
  }

  /** A body: collector 192.0.2.1, no view name, and one peer 10.0.0.1 with ID 1.1.1.1 and 4-octet AS 65001. */
  lemma TableOctets()
    ensures ReadPeerTable([192, 0, 2, 1] + [0, 0] + [] + [0, 1] + [2, 1, 1, 1, 1, 10, 0, 0, 1, 0, 0, 253, 233])
            == Some(PeerTable([192, 0, 2, 1], [], [Peer(2, [1, 1, 1, 1], [10, 0, 0, 1], 65001)]))
  {
    EntryOctets();
    OnePeerTable([192, 0, 2, 1], 0, 0, [], [2, 1, 1, 1, 1, 10, 0, 0, 1, 0, 0, 253, 233],
                 Peer(2, [1, 1, 1, 1], [10, 0, 0, 1], 65001));
  }

  lemma EntryOctets()
    ensures DecodePeer([2, 1, 1, 1, 1, 10, 0, 0, 1, 0, 0, 253, 233])
            == Some((Peer(2, [1, 1, 1, 1], [10, 0, 0, 1], 65001), []))
  {
    PeerOctets(2, [1, 1, 1, 1], [10, 0, 0, 1], [0, 0, 253, 233], []);
    assert [2] + [1, 1, 1, 1] + [10, 0, 0, 1] + [0, 0, 253, 233] + []
        == [2, 1, 1, 1, 1, 10, 0, 0, 1, 0, 0, 253, 233];
  }
}
