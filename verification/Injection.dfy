/**
 What `gobgp mrt inject` makes of a dump, as one sequential process: which records
 count, which peer table is in force, which paths a record yields, and which of
 the resulting batches fall into the skip/count window.
 */
module Injection {
  import opened Bytes
  import opened Int64
  import opened MrtWire
  import opened NextHops

  // ----------------------------------------------------------------- options

  datatype Opts = Opts(
    count: int64, skip: int64, queueSize: int, best: bool, skipV4: bool, skipV6: bool,
    nextHop: Option<Addr>, peerAsn: nat)

  // ---------------------------------------------------------------- records

  datatype RibEntry = RibEntry(peerIndex: nat, originated: nat, attrs: seq<Attr>)

  datatype Rib = Rib(family: Family, prefix: Nlri, entries: seq<RibEntry>)

  /**
   Code outside this model: the decoders of RIB, GEO_PEER_TABLE and BGP4MP bodies
   (given the subtype where it matters), and whether a path can be marshalled.
   */
  datatype Env = Env(
    rib: (nat, seq<byte>) -> Option<Rib>,
    geo: seq<byte> -> bool,
    bgp4mp: (nat, seq<byte>) -> bool,
    marshals: (Nlri, seq<Attr>) -> bool)

  datatype Body = PeersBody(table: PeerTable) | RibBody(rib: Rib) | GeoBody | Bgp4mpBody

  const PEER_INDEX_TABLE := 1
  const RIB_IPV4_UNICAST := 2
  const RIB_IPV6_UNICAST := 4
  const GEO_PEER_TABLE := 7
  const RIB_IPV4_UNICAST_ADDPATH := 8
  const RIB_IPV6_UNICAST_ADDPATH := 10
  const RIB_GENERIC_ADDPATH := 12

  function ParseBody(env: Env, r: Record): (b: Option<Body>)
    ensures b.Some? && r.header.typ == TABLE_DUMP_V2 ==>
              match r.header.subType
              case 1 => b.value.PeersBody?
              case 7 => b.value.GeoBody?
              case _ => b.value.RibBody?
  {
    var sub := r.header.subType;
    if r.header.typ == TABLE_DUMP_V2 then
      if sub == PEER_INDEX_TABLE then
        var t := ReadPeerTable(r.body);
        if t.None? then None else Some(PeersBody(t.value))
      else if sub == GEO_PEER_TABLE then
        if env.geo(r.body) then Some(GeoBody) else None
      else if RIB_IPV4_UNICAST <= sub <= RIB_GENERIC_ADDPATH then
        var rib := env.rib(sub, r.body);
        if rib.None? then None else Some(RibBody(rib.value))
      else None
    else if r.header.typ == BGP4MP then
      if (sub <= 1 || 4 <= sub <= 11) && env.bgp4mp(sub, r.body) then Some(Bgp4mpBody) else None
    else None
  }

  /** Exactly which bodies parse; a peer table must begin with a serialized one. */
  lemma ParsesIff(env: Env, r: Record)
    ensures var typ, sub := r.header.typ, r.header.subType;
            ParseBody(env, r).Some? <==>
              || (typ == 13 && sub == 1
                  && exists t: PeerTable :: ValidPeerTable(t) && SerializePeerTable(t) <= r.body)
              || (typ == 13 && sub == 7 && env.geo(r.body))
              || (typ == 13 && sub in {2, 3, 4, 5, 6, 8, 9, 10, 11, 12} && env.rib(sub, r.body).Some?)
              || (typ == 16 && sub in {0, 1, 4, 5, 6, 7, 8, 9, 10, 11} && env.bgp4mp(sub, r.body))
  {
    var read := ReadPeerTable(r.body);
    if read.Some? {
      PeerTableIff(r.body, read.value);
    }
    forall t: PeerTable | ValidPeerTable(t) && SerializePeerTable(t) <= r.body
      ensures read.Some?
    {
      PeerTableIff(r.body, t);
    }
  }

  // -------------------------------------------------- one RIB record's paths

  datatype Path = Path(
    family: Family, nlri: Nlri, attrs: seq<Attr>, age: nat, sourceAsn: nat, sourceId: seq<byte>)

  type Batch = seq<Path>

  datatype Error =
    | BrokenInput | UnsupportedSubType | NoPeerIndexTable | InvalidPeerIndex | NotARib | NilPath

  datatype Result<+T> = Ok(value: T) | Err(error: Error)

  predicate Keeps(opts: Opts, peer: Peer) {
    opts.peerAsn == 0 || peer.asn == opts.peerAsn
  }

  function AttrsOf(opts: Opts, v4: bool, rib: Rib, e: RibEntry): seq<Attr> {
    Rewrite(v4, e.attrs, rib.family, rib.prefix, opts.nextHop)
  }

  predicate Marshals(env: Env, opts: Opts, v4: bool, rib: Rib, e: RibEntry) {
    env.marshals(rib.prefix, AttrsOf(opts, v4, rib, e))
  }

  function PathOf(opts: Opts, v4: bool, rib: Rib, e: RibEntry, peer: Peer): Path {
    Path(rib.family, rib.prefix, AttrsOf(opts, v4, rib, e), e.originated, peer.asn, peer.bgpId)
  }

  /** The paths of the first n entries of a record. */
  function PathsOf(env: Env, opts: Opts, v4: bool, peers: seq<Peer>, rib: Rib, n: nat): Result<Batch>
    requires n <= |rib.entries|
  {
    if n == 0 then Ok([])
    else
      var before := PathsOf(env, opts, v4, peers, rib, n - 1);
      var e := rib.entries[n - 1];
      if before.Err? then before
      else if |peers| <= e.peerIndex then Err(InvalidPeerIndex)
      else if !Keeps(opts, peers[e.peerIndex]) then before
      else if !Marshals(env, opts, v4, rib, e) then Err(NilPath)
      else Ok(before.value + [PathOf(opts, v4, rib, e, peers[e.peerIndex])])
  }

  function BatchOf(env: Env, opts: Opts, v4: bool, peers: seq<Peer>, rib: Rib): Result<Batch> {
    var all := PathsOf(env, opts, v4, peers, rib, |rib.entries|);
    if all.Ok? && opts.best && |all.value| > 0 then Ok(all.value[..1]) else all
  }

  /** An entry in memory: injection overwrites its attribute slice. */
  class Entry {
    const peerIndex: nat
    const originated: nat
    const attrs: array<Attr>

    constructor (peerIndex: nat, originated: nat, attrs: array<Attr>)
      ensures this.peerIndex == peerIndex && this.originated == originated && this.attrs == attrs
    {
      this.peerIndex := peerIndex;
      this.originated := originated;
      this.attrs := attrs;
    }

    ghost function Contents(): RibEntry
      reads attrs
    {
      RibEntry(peerIndex, originated, attrs[..])
    }
  }

  /** The decoder gives every entry a slice of its own; `slices` are all of them. */
  ghost predicate Separate(es: seq<Entry>, slices: set<array<Attr>>) {
    && (forall i | 0 <= i < |es| :: es[i].attrs in slices)
    && (forall i, j | 0 <= i < j < |es| :: es[i].attrs != es[j].attrs)
  }

  ghost predicate Hold(es: seq<Entry>, slices: set<array<Attr>>, entries: seq<RibEntry>)
    requires Separate(es, slices)
    reads slices
  {
    |es| == |entries| && forall i | 0 <= i < |es| :: es[i].Contents() == entries[i]
  }

  /** The attributes that a path gets; for IPv4 they are the entry's own, overwritten. */
  method RewriteEntry(opts: Opts, v4: bool, family: Family, prefix: Nlri, e: Entry) returns (attrs: seq<Attr>)
    modifies e.attrs
    ensures attrs == Rewrite(v4, old(e.attrs[..]), family, prefix, opts.nextHop)
    ensures e.attrs[..] == if v4 then attrs else old(e.attrs[..])
  {
    if v4 {
      OverrideInPlace(e.attrs, opts.nextHop);
      attrs := e.attrs[..];
    } else {
      attrs := RebuildLoop(e.attrs[..], family, prefix, opts.nextHop);
    }
  }

  /** The loop gets to rewriting entry i in place: nothing failed before it, and its peer passes the filter. */
  predicate Overwritten(env: Env, opts: Opts, v4: bool, peers: seq<Peer>, rib: Rib, i: nat)
    requires i < |rib.entries|
  {
    && v4 && PathsOf(env, opts, v4, peers, rib, i).Ok?
    && rib.entries[i].peerIndex < |peers| && Keeps(opts, peers[rib.entries[i].peerIndex])
  }

  /** An entry after the loop. */
  function EntryAfter(env: Env, opts: Opts, v4: bool, peers: seq<Peer>, rib: Rib, i: nat): RibEntry
    requires i < |rib.entries|
  {
    var e := rib.entries[i];
    if Overwritten(env, opts, v4, peers, rib, i) then e.(attrs := AttrsOf(opts, v4, rib, e)) else e
  }

  /** One turn of the entry loop, at entry i of `rib`. */
  method TakeEntry(env: Env, opts: Opts, v4: bool, peers: seq<Peer>, family: Family, prefix: Nlri, e: Entry,
                   paths: Batch, ghost rib: Rib, ghost i: nat) returns (r: Result<Batch>)
    requires i < |rib.entries| && e.Contents() == rib.entries[i] && rib.family == family && rib.prefix == prefix
    requires PathsOf(env, opts, v4, peers, rib, i) == Ok(paths)
    modifies e.attrs
    ensures r == PathsOf(env, opts, v4, peers, rib, i + 1)
    ensures e.Contents() == EntryAfter(env, opts, v4, peers, rib, i)
  {
    if |peers| <= e.peerIndex {
      return Err(InvalidPeerIndex);
    }
    if !Keeps(opts, peers[e.peerIndex]) {
      return Ok(paths);
    }
    var attrs := RewriteEntry(opts, v4, family, prefix, e);
    if !env.marshals(prefix, attrs) {
      return Err(NilPath);
    }
    var peer := peers[e.peerIndex];
    r := Ok(paths + [Path(family, prefix, attrs, e.originated, peer.asn, peer.bgpId)]);
  }

  /** The first n entries after the loop. */
  function EntriesAfter(env: Env, opts: Opts, v4: bool, peers: seq<Peer>, rib: Rib, n: nat): (es: seq<RibEntry>)
    requires n <= |rib.entries|
    ensures |es| == n
  {
    if n == 0 then []
    else EntriesAfter(env, opts, v4, peers, rib, n - 1) + [EntryAfter(env, opts, v4, peers, rib, n - 1)]
  }

  /** The entries when the loop has come to entry i. */
  ghost function Midway(env: Env, opts: Opts, v4: bool, peers: seq<Peer>, rib: Rib, i: nat): (es: seq<RibEntry>)
    requires i <= |rib.entries|
    ensures |es| == |rib.entries|
  {
    EntriesAfter(env, opts, v4, peers, rib, i) + rib.entries[i..]
  }

  lemma MidwayEnds(env: Env, opts: Opts, v4: bool, peers: seq<Peer>, rib: Rib)
    ensures Midway(env, opts, v4, peers, rib, 0) == rib.entries
    ensures Midway(env, opts, v4, peers, rib, |rib.entries|) == EntriesAfter(env, opts, v4, peers, rib, |rib.entries|)
  {
  }

  lemma MidwayStep(env: Env, opts: Opts, v4: bool, peers: seq<Peer>, rib: Rib, i: nat)
    requires i < |rib.entries|
    ensures var now := Midway(env, opts, v4, peers, rib, i);
            && now[i] == rib.entries[i]
            && now[i := EntryAfter(env, opts, v4, peers, rib, i)] == Midway(env, opts, v4, peers, rib, i + 1)
  {
  }

  /** That turn leaves the other entries' slices alone. */
  method TakeEntryAt(env: Env, opts: Opts, v4: bool, peers: seq<Peer>, family: Family, prefix: Nlri, es: seq<Entry>,
                     i: nat, paths: Batch, ghost slices: set<array<Attr>>, ghost rib: Rib) returns (r: Result<Batch>)
    requires Separate(es, slices) && i < |es| == |rib.entries| && rib.family == family && rib.prefix == prefix
    requires Hold(es, slices, Midway(env, opts, v4, peers, rib, i))
    requires PathsOf(env, opts, v4, peers, rib, i) == Ok(paths)
    modifies es[i].attrs
    ensures r == PathsOf(env, opts, v4, peers, rib, i + 1)
    ensures Hold(es, slices, Midway(env, opts, v4, peers, rib, i + 1))
  {
    ghost var now := Midway(env, opts, v4, peers, rib, i);
    MidwayStep(env, opts, v4, peers, rib, i);
    r := TakeEntry(env, opts, v4, peers, family, prefix, es[i], paths, rib, i);
    assert Hold(es, slices, now[i := EntryAfter(env, opts, v4, peers, rib, i)]);
  }

  /** The entry loop; it has treated n entries when it ends, or stops at the first error. */
  method TakeEntries(env: Env, opts: Opts, v4: bool, peers: seq<Peer>, family: Family, prefix: Nlri, es: seq<Entry>,
                     ghost slices: set<array<Attr>>, ghost rib: Rib) returns (r: Result<Batch>, n: nat)
    requires Separate(es, slices) && |es| == |rib.entries| && rib.family == family && rib.prefix == prefix
    requires Hold(es, slices, Midway(env, opts, v4, peers, rib, 0))
    modifies slices
    ensures n <= |es| && r == PathsOf(env, opts, v4, peers, rib, n) && (r.Err? || n == |es|)
    ensures Hold(es, slices, Midway(env, opts, v4, peers, rib, n))
  {
    r, n := Ok([]), 0;
    while n < |es|
      invariant n <= |es| && r == PathsOf(env, opts, v4, peers, rib, n) && r.Ok?
      invariant Hold(es, slices, Midway(env, opts, v4, peers, rib, n))
    {
      r := TakeEntryAt(env, opts, v4, peers, family, prefix, es, n, r.value, slices, rib);
      n := n + 1;
      if r.Err? {
        return;
      }
    }
  }

  /** The whole treatment of a record: the entry loop, then only-best. */
  method BuildBatch(env: Env, opts: Opts, v4: bool, peers: seq<Peer>, family: Family, prefix: Nlri, es: seq<Entry>,
                    ghost slices: set<array<Attr>>, ghost rib: Rib) returns (r: Result<Batch>)
    requires Separate(es, slices) && Hold(es, slices, rib.entries) && rib.family == family && rib.prefix == prefix
    modifies slices
    ensures r == BatchOf(env, opts, v4, peers, rib)
    ensures Hold(es, slices, EntriesAfter(env, opts, v4, peers, rib, |es|))
  {
    var n;
    MidwayEnds(env, opts, v4, peers, rib);
    r, n := TakeEntries(env, opts, v4, peers, family, prefix, es, slices, rib);
    if r.Err? {
      RestIsUntouched(env, opts, v4, peers, rib, n);
    }
    if r.Ok? && opts.best && |r.value| > 0 {
      assert r.value[..1] == [r.value[0]];
      r := Ok([r.value[0]]);
    }
  }

  lemma {:induction false} RestIsUntouched(env: Env, opts: Opts, v4: bool, peers: seq<Peer>, rib: Rib, i: nat)
    requires i <= |rib.entries| && PathsOf(env, opts, v4, peers, rib, i).Err?
    ensures PathsOf(env, opts, v4, peers, rib, |rib.entries|) == PathsOf(env, opts, v4, peers, rib, i)
    ensures EntriesAfter(env, opts, v4, peers, rib, |rib.entries|) == Midway(env, opts, v4, peers, rib, i)
    decreases |rib.entries| - i
  {
    if i < |rib.entries| {
      MidwayStep(env, opts, v4, peers, rib, i);
      RestIsUntouched(env, opts, v4, peers, rib, i + 1);
    }
  }

  // ------------------------------------------------ attribution and filtering

  /** The first n entries all name a peer of the table. */
  predicate IndicesInRange(peers: seq<Peer>, entries: seq<RibEntry>, n: nat)
    requires n <= |entries|
  {
    forall i | 0 <= i < n :: entries[i].peerIndex < |peers|
  }

  /** Positions, among the first n entries, of those whose peer passes the AS filter. */
  function Survivors(opts: Opts, peers: seq<Peer>, entries: seq<RibEntry>, n: nat): (s: seq<nat>)
    requires n <= |entries| && IndicesInRange(peers, entries, n)
    ensures forall k | 0 <= k < |s| :: s[k] < n
  {
    if n == 0 then []
    else
      var s := Survivors(opts, peers, entries, n - 1);
      if Keeps(opts, peers[entries[n - 1].peerIndex]) then s + [n - 1] else s
  }

  /** They are all of those entries, each once, in entry order. */
  lemma {:induction false} SurvivorsAreExact(opts: Opts, peers: seq<Peer>, entries: seq<RibEntry>, n: nat)
    requires n <= |entries| && IndicesInRange(peers, entries, n)
    ensures var s := Survivors(opts, peers, entries, n);
            && (forall j, k | 0 <= j < k < |s| :: s[j] < s[k])
            && (forall i: nat | i < n ::
                  i in s <==> opts.peerAsn == 0 || peers[entries[i].peerIndex].asn == opts.peerAsn)
  {
    if n > 0 {
      SurvivorsAreExact(opts, peers, entries, n - 1);
    }
  }

  predicate AllMarshal(env: Env, opts: Opts, v4: bool, rib: Rib, s: seq<nat>)
    requires forall k | 0 <= k < |s| :: s[k] < |rib.entries|
  {
    forall k | 0 <= k < |s| :: Marshals(env, opts, v4, rib, rib.entries[s[k]])
  }

  lemma AllMarshalStep(env: Env, opts: Opts, v4: bool, rib: Rib, s: seq<nat>, i: nat)
    requires (forall k | 0 <= k < |s| :: s[k] < |rib.entries|) && i < |rib.entries|
    ensures AllMarshal(env, opts, v4, rib, s + [i])
            <==> AllMarshal(env, opts, v4, rib, s) && Marshals(env, opts, v4, rib, rib.entries[i])
  {
    var t := s + [i];
    assert forall k | 0 <= k < |s| :: t[k] == s[k];
    assert t[|s|] == i;
  }

  /** An injectable record: every entry names a peer, and every survivor marshals. */
  predicate Injectable(env: Env, opts: Opts, v4: bool, peers: seq<Peer>, rib: Rib, n: nat)
    requires n <= |rib.entries|
  {
    && IndicesInRange(peers, rib.entries, n)
    && AllMarshal(env, opts, v4, rib, Survivors(opts, peers, rib.entries, n))
  }

  lemma InjectableStep(env: Env, opts: Opts, v4: bool, peers: seq<Peer>, rib: Rib, n: nat)
    requires n < |rib.entries|
    ensures var e := rib.entries[n];
            Injectable(env, opts, v4, peers, rib, n + 1)
            <==> Injectable(env, opts, v4, peers, rib, n) && e.peerIndex < |peers|
                 && (Keeps(opts, peers[e.peerIndex]) ==> Marshals(env, opts, v4, rib, e))
  {
    if IndicesInRange(peers, rib.entries, n) {
      AllMarshalStep(env, opts, v4, rib, Survivors(opts, peers, rib.entries, n), n);
    }
  }

  lemma {:induction false} OkIff(env: Env, opts: Opts, v4: bool, peers: seq<Peer>, rib: Rib, n: nat)
    requires n <= |rib.entries|
    ensures PathsOf(env, opts, v4, peers, rib, n).Ok? <==> Injectable(env, opts, v4, peers, rib, n)
  {
    if n > 0 {
      OkIff(env, opts, v4, peers, rib, n - 1);
      InjectableStep(env, opts, v4, peers, rib, n - 1);
    }
  }

  lemma {:induction false} PathsOfSurvivors(env: Env, opts: Opts, v4: bool, peers: seq<Peer>, rib: Rib, n: nat)
    requires n <= |rib.entries| && Injectable(env, opts, v4, peers, rib, n)
    ensures PathsOf(env, opts, v4, peers, rib, n).Ok?
    ensures var ps := PathsOf(env, opts, v4, peers, rib, n).value;
            var s := Survivors(opts, peers, rib.entries, n);
            && |ps| == |s|
            && forall k | 0 <= k < |s| ::
                 ps[k] == PathOf(opts, v4, rib, rib.entries[s[k]], peers[rib.entries[s[k]].peerIndex])
  {
    OkIff(env, opts, v4, peers, rib, n);
    if n > 0 {
      OkIff(env, opts, v4, peers, rib, n - 1);
      PathsOfSurvivors(env, opts, v4, peers, rib, n - 1);
    }
  }

  /** Entry i names a peer and, unless another AS is asked for, its rewritten attributes marshal. */
  predicate Fine(env: Env, opts: Opts, v4: bool, peers: seq<Peer>, rib: Rib, i: nat)
    requires i < |rib.entries|
  {
    var e := rib.entries[i];
    && e.peerIndex < |peers|
    && (opts.peerAsn == 0 || peers[e.peerIndex].asn == opts.peerAsn ==>
          env.marshals(rib.prefix, Rewrite(v4, e.attrs, rib.family, rib.prefix, opts.nextHop)))
  }

  predicate AllFine(env: Env, opts: Opts, v4: bool, peers: seq<Peer>, rib: Rib, n: nat)
    requires n <= |rib.entries|
  {
    forall i: nat | i < n :: Fine(env, opts, v4, peers, rib, i)
  }

  lemma {:induction false} InjectableIff(env: Env, opts: Opts, v4: bool, peers: seq<Peer>, rib: Rib, n: nat)
    requires n <= |rib.entries|
    ensures Injectable(env, opts, v4, peers, rib, n) <==> AllFine(env, opts, v4, peers, rib, n)
  {
    if n > 0 {
      InjectableIff(env, opts, v4, peers, rib, n - 1);
      InjectableStep(env, opts, v4, peers, rib, n - 1);
      assert AllFine(env, opts, v4, peers, rib, n)
        <==> AllFine(env, opts, v4, peers, rib, n - 1) && Fine(env, opts, v4, peers, rib, n - 1);
    }
  }

  /** The first entry that is not fine decides the error: its peer index, or else its path. */
  lemma {:induction false} FirstError(env: Env, opts: Opts, v4: bool, peers: seq<Peer>, rib: Rib, n: nat)
      returns (i: nat)
    requires n <= |rib.entries| && PathsOf(env, opts, v4, peers, rib, n).Err?
    ensures i < n && AllFine(env, opts, v4, peers, rib, i) && !Fine(env, opts, v4, peers, rib, i)
    ensures PathsOf(env, opts, v4, peers, rib, n)
            == Err(if rib.entries[i].peerIndex < |peers| then NilPath else InvalidPeerIndex)
  {
    i := n - 1;
    if PathsOf(env, opts, v4, peers, rib, n - 1).Err? {
      i := FirstError(env, opts, v4, peers, rib, n - 1);
    } else {
      OkIff(env, opts, v4, peers, rib, n - 1);
      InjectableIff(env, opts, v4, peers, rib, n - 1);
    }
  }

  /**
   A record yields a batch exactly when every entry names a peer of the table in force
   and every surviving entry marshals. The batch then holds one path per survivor, in
   entry order, attributed to that entry's peer; with `best`, only the first of them.
   */
  lemma Attribution(env: Env, opts: Opts, v4: bool, peers: seq<Peer>, rib: Rib)
    ensures BatchOf(env, opts, v4, peers, rib).Ok? ==> Injectable(env, opts, v4, peers, rib, |rib.entries|)
    ensures var r := BatchOf(env, opts, v4, peers, rib);
            && (r.Ok? <==> AllFine(env, opts, v4, peers, rib, |rib.entries|))
            && (r.Ok? ==> var s := Survivors(opts, peers, rib.entries, |rib.entries|);
                          && |r.value| == (if opts.best && |s| > 1 then 1 else |s|)
                          && forall k | 0 <= k < |r.value| ::
                               && var path, e := r.value[k], rib.entries[s[k]];
                               && path.sourceAsn == peers[e.peerIndex].asn
                               && path.sourceId == peers[e.peerIndex].bgpId
                               && (opts.peerAsn != 0 ==> path.sourceAsn == opts.peerAsn)
                               && path.attrs == Rewrite(v4, e.attrs, rib.family, rib.prefix, opts.nextHop)
                               && path.nlri == rib.prefix && path.family == rib.family && path.age == e.originated)
  {
    OkIff(env, opts, v4, peers, rib, |rib.entries|);
    InjectableIff(env, opts, v4, peers, rib, |rib.entries|);
    if IndicesInRange(peers, rib.entries, |rib.entries|) {
      SurvivorsAreExact(opts, peers, rib.entries, |rib.entries|);
    }
    if Injectable(env, opts, v4, peers, rib, |rib.entries|) {
      PathsOfSurvivors(env, opts, v4, peers, rib, |rib.entries|);
    }
  }

  /** Without a peer AS and only-best, nothing is left out: path k is that of entry k, for every entry. */
  lemma EveryEntryIsInjected(env: Env, opts: Opts, v4: bool, peers: seq<Peer>, rib: Rib)
    requires opts.peerAsn == 0 && !opts.best && BatchOf(env, opts, v4, peers, rib).Ok?
    ensures var batch := BatchOf(env, opts, v4, peers, rib).value;
            && |batch| == |rib.entries|
            && forall k | 0 <= k < |batch| ::
                 && var e := rib.entries[k];
                 && e.peerIndex < |peers|
                 && batch[k] == Path(rib.family, rib.prefix, Rewrite(v4, e.attrs, rib.family, rib.prefix, opts.nextHop),
                                     e.originated, peers[e.peerIndex].asn, peers[e.peerIndex].bgpId)
  {
    Attribution(env, opts, v4, peers, rib);
    AllSurvive(opts, peers, rib.entries, |rib.entries|);
  }

  lemma {:induction false} AllSurvive(opts: Opts, peers: seq<Peer>, entries: seq<RibEntry>, n: nat)
    requires opts.peerAsn == 0 && n <= |entries| && IndicesInRange(peers, entries, n)
    ensures |Survivors(opts, peers, entries, n)| == n
    ensures forall k: nat | k < n :: Survivors(opts, peers, entries, n)[k] == k
  {
    if n > 0 {
      AllSurvive(opts, peers, entries, n - 1);
    }
  }

  /**
   The client prints that only-best has no effect together with a peer AS. It has one,
   with or without a peer AS, exactly when more than one entry survives the filter.
   */
  lemma OnlyBestChangesIff(env: Env, opts: Opts, v4: bool, peers: seq<Peer>, rib: Rib)
    requires !opts.best && Injectable(env, opts, v4, peers, rib, |rib.entries|)
    ensures BatchOf(env, opts.(best := true), v4, peers, rib) != BatchOf(env, opts, v4, peers, rib)
            <==> |Survivors(opts, peers, rib.entries, |rib.entries|)| > 1
  {
    PathsOfSurvivors(env, opts, v4, peers, rib, |rib.entries|);
    BestIsOnlyATrim(env, opts, v4, peers, rib, |rib.entries|);
    var ps := PathsOf(env, opts, v4, peers, rib, |rib.entries|).value;
    assert |ps| == 1 ==> ps[..1] == ps;
    assert |ps| > 1 ==> |ps[..1]| != |ps|;
  }

  /** Two routes of the one peer AS that is asked for: only-best drops the second. */
  lemma OnlyBestTrimsWithPeerAsn(opts: Opts)
    requires !opts.best && opts.peerAsn == 65001
    ensures var env := Env((_, _) => None, _ => true, (_, _) => true, (_, _) => true);
            var peers := [Peer(2, [1, 1, 1, 1], [10, 0, 0, 1], 65001)];
            var rib := Rib(IPv4Unicast, [24, 10, 0, 0], [RibEntry(0, 0, []), RibEntry(0, 1, [])]);
            var all, best := BatchOf(env, opts, true, peers, rib), BatchOf(env, opts.(best := true), true, peers, rib);
            all.Ok? && |all.value| == 2 && best == Ok(all.value[..1])
  {
    var env := Env((_, _) => None, _ => true, (_, _) => true, (_, _) => true);
    var peers := [Peer(2, [1, 1, 1, 1], [10, 0, 0, 1], 65001)];
    var rib := Rib(IPv4Unicast, [24, 10, 0, 0], [RibEntry(0, 0, []), RibEntry(0, 1, [])]);
    assert PathsOf(env, opts, true, peers, rib, 1).Ok? && |PathsOf(env, opts, true, peers, rib, 1).value| == 1;
    BestIsOnlyATrim(env, opts, true, peers, rib, 2);
  }

  lemma {:induction false} BestIsOnlyATrim(env: Env, opts: Opts, v4: bool, peers: seq<Peer>, rib: Rib, n: nat)
    requires n <= |rib.entries|
    ensures PathsOf(env, opts.(best := true), v4, peers, rib, n) == PathsOf(env, opts, v4, peers, rib, n)
  {
    if n > 0 {
      BestIsOnlyATrim(env, opts, v4, peers, rib, n - 1);
    }
  }

  // ------------------------------------------------------- one record's role

  datatype Verdict = Ignored | NewTable(peers: seq<Peer>) | Counted(batch: Batch) | Fatal(error: Error)

  function Judge(env: Env, opts: Opts, peers: Option<seq<Peer>>, r: Record): Verdict {
    var body := ParseBody(env, r);
    if body.None? || r.header.typ != TABLE_DUMP_V2 then Ignored
    else match r.header.subType
      case 1 => NewTable(body.value.table.peers)
      case 7 => Fatal(if peers.None? then NoPeerIndexTable else NotARib)
      case sub =>
        var v4 := sub == RIB_IPV4_UNICAST || sub == RIB_IPV4_UNICAST_ADDPATH;
        var v6 := sub == RIB_IPV6_UNICAST || sub == RIB_IPV6_UNICAST_ADDPATH;
        if !v4 && !v6 then Fatal(UnsupportedSubType)
        else if (v4 && opts.skipV4) || (v6 && opts.skipV6) then Ignored
        else if peers.None? then Fatal(NoPeerIndexTable)
        else
          var b := BatchOf(env, opts, v4, peers.value, body.value.rib);
          if b.Ok? then Counted(b.value) else Fatal(b.error)
  }

  /** The record asks for its routes to be injected: a unicast RIB of a family that is not skipped. */
  predicate Wanted(opts: Opts, r: Record) {
    && r.header.typ == TABLE_DUMP_V2
    && ((r.header.subType in {2, 8} && !opts.skipV4) || (r.header.subType in {4, 10} && !opts.skipV6))
  }

  /**
   Exactly which records count, which replace the peer table and which are fatal. All others
   (unparsable ones, other MRT types, skipped families) leave index and table alone; a record
   whose entries are all filtered out does count.
   */
  lemma RolesIff(env: Env, opts: Opts, peers: Option<seq<Peer>>, r: Record)
    ensures var v, rib := Judge(env, opts, peers, r), env.rib(r.header.subType, r.body);
            var typ, sub := r.header.typ, r.header.subType;
            var wanted := typ == 13 && ((sub in {2, 8} && !opts.skipV4) || (sub in {4, 10} && !opts.skipV6));
            var usable := wanted && rib.Some? && peers.Some?
                          && AllFine(env, opts, sub in {2, 8}, peers.value, rib.value, |rib.value.entries|);
            && (Wanted(opts, r) <==> wanted)
            && (v.Counted? <==> usable)
            && (v.NewTable? <==> typ == 13 && sub == 1 && ReadPeerTable(r.body).Some?)
            && (v.Fatal? <==> typ == 13
                              && ((sub == 7 && env.geo(r.body))
                                  || (sub in {3, 5, 6, 9, 11, 12} && rib.Some?)
                                  || (wanted && rib.Some? && !usable)))
  {
    if Wanted(opts, r) && env.rib(r.header.subType, r.body).Some? && peers.Some? {
      var rib := env.rib(r.header.subType, r.body).value;
      Attribution(env, opts, r.header.subType in {2, 8}, peers.value, rib);
    }
  }

  /** With which error, if not that of an entry. */
  lemma FatalErrors(env: Env, opts: Opts, peers: Option<seq<Peer>>, r: Record)
    requires Judge(env, opts, peers, r).Fatal?
    ensures var e, sub := Judge(env, opts, peers, r).error, r.header.subType;
            && (sub !in {2, 4, 7, 8, 10} ==> e == UnsupportedSubType)
            && (sub in {2, 4, 7, 8, 10} && peers.None? ==> e == NoPeerIndexTable)
            && (sub == 7 && peers.Some? ==> e == NotARib)
            && (sub in {2, 4, 8, 10} && peers.Some? ==> e in {InvalidPeerIndex, NilPath})
  {
    var rib, v4 := env.rib(r.header.subType, r.body), r.header.subType in {2, 8};
    if rib.Some? && peers.Some? && BatchOf(env, opts, v4, peers.value, rib.value).Err? {
      var i := FirstError(env, opts, v4, peers.value, rib.value, |rib.value.entries|);
    }
  }

  /** A record sets the peer table to ps exactly when its body begins with a serialized table of those peers. */
  lemma NewTableIff(env: Env, opts: Opts, peers: Option<seq<Peer>>, r: Record, ps: seq<Peer>)
    requires r.header.typ == 13 && r.header.subType == 1
    ensures Judge(env, opts, peers, r) == NewTable(ps)
            <==> exists t: PeerTable :: ValidPeerTable(t) && SerializePeerTable(t) <= r.body && t.peers == ps
  {
    var read := ReadPeerTable(r.body);
    if read.Some? {
      PeerTableIff(r.body, read.value);
    }
    forall t: PeerTable | ValidPeerTable(t) && SerializePeerTable(t) <= r.body
      ensures read == Some(t)
    {
      PeerTableIff(r.body, t);
    }
  }

  // -------------------------------------------------- the sequential process

  datatype End = Clean | Faulted(error: Error)

  datatype Outcome = Outcome(batches: seq<Batch>, end: End)

  /** `idx == RecordCount+RecordSkip`, with the sum wrapping as int64 does. */
  function StopIndex(opts: Opts): int64 {
    Wrap64(opts.count + opts.skip)
  }

  /** Everything the producer hands over from here on, and how it ends. */
  function Inject(env: Env, opts: Opts, peers: Option<seq<Peer>>, idx: int64, input: seq<byte>): Outcome
    decreases |input|, 0
  {
    match ReadRecord(input)
    case AtEnd => Outcome([], Clean)
    case Broken => Outcome([], Faulted(BrokenInput))
    case Got(r, rest) =>
      match Judge(env, opts, peers, r)
      case Ignored => Inject(env, opts, peers, idx, rest)
      case NewTable(ps) => Inject(env, opts, Some(ps), idx, rest)
      case Fatal(e) => Outcome([], Faulted(e))
      case Counted(b) =>
        var later := AfterCounted(env, opts, peers, idx, rest);
        Outcome(Offered(opts, idx, b) + later.batches, later.end)
  }

  function Offered(opts: Opts, idx: int64, b: Batch): seq<Batch> {
    if idx >= opts.skip then [b] else []
  }

  function AfterCounted(env: Env, opts: Opts, peers: Option<seq<Peer>>, idx: int64, rest: seq<byte>): Outcome
    decreases |rest|, 1
  {
    if Wrap64(idx + 1) == StopIndex(opts) then Outcome([], Clean)
    else Inject(env, opts, peers, Wrap64(idx + 1), rest)
  }
}
