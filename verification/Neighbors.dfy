/**
 `modNeighbor`: what a neighbor add, del or update command makes of its arguments.
 The code indexes into the parsed groups; that every index is in range rests on the
 arity table and on the check for one address or one interface.
 */
module Neighbors {
  import opened Bytes
  import opened Text
  import opened Lists
  import opened Arguments

  datatype Command = CmdAdd | CmdDel | CmdUpdate

  function KeyTable(cmd: Command): Keys {
    if cmd.CmdDel? then map["interface" := Single]
    else map[
      "interface" := Single, "as" := Single, "local-as" := Single, "family" := Single, "vrf" := Single,
      "route-reflector-client" := Single, "route-server-client" := Flag, "allow-own-as" := Single,
      "remove-private-as" := Single, "replace-peer-as" := Flag, "ebgp-multihop-ttl" := Single,
      "peer-group" := Single, "tcp-ao-keychain" := Single, "tcp-ao-send-id" := Single]
  }

  datatype RemovePrivate = None_ | All | Replace

  datatype TcpAo = TcpAo(keychain: string, sendId: nat)

  datatype Peer = Peer(
    address: string, interface_: string, stateAddress: string,
    peerAsn: nat, localAsn: nat, families: seq<nat>, vrf: string,
    reflectorClient: bool, clusterId: string, serverClient: bool,
    allowOwnAsn: nat, removePrivate: RemovePrivate, replacePeerAsn: bool,
    multihopTtl: Option<nat>, group: string, tcpAo: Option<TcpAo>)

  const NEW_PEER := Peer("", "", "", 0, 0, [], "", false, "", false, 0, None_, false, None, "", None)

  /** Code outside this model: family names, name resolution, interfaces, and the daemon's peers. */
  datatype Env = Env(
    family: string -> Option<nat>,
    resolves: string -> bool,
    linkLocal: string -> Option<string>,
    existing: string -> Option<Peer>)

  const MAX_UINT8 := 0xFF
  const MAX_UINT32 := 0xFFFF_FFFF

  // ------------------------------------------------- what the update promises

  function Given(m: Groups, k: string): Option<string> {
    if k in m && |m[k]| > 0 then Some(m[k][0]) else None
  }

  function NumberOr(m: Groups, k: string, max: nat, default: nat): Option<nat> {
    match Given(m, k) case None => Some(default) case Some(w) => ParseUint(w, max)
  }

  function TextOr(m: Groups, k: string, default: string): string {
    match Given(m, k) case None => default case Some(w) => w
  }

  function FamiliesOr(env: Env, m: Groups, default: seq<nat>): Option<seq<nat>> {
    match Given(m, "family") case None => Some(default) case Some(w) => Traverse(env.family, Split(w, ','))
  }

  function HasKeychain(peer: Peer): bool {
    peer.tcpAo.Some? && peer.tcpAo.value.keychain != ""
  }

  function RemovePrivateOr(m: Groups, default: RemovePrivate): Option<RemovePrivate> {
    match Given(m, "remove-private-as")
    case None => Some(default)
    case Some(w) => if w == "all" then Some(All) else if w == "replace" then Some(Replace) else None
  }

  predicate RoutingAcceptable(env: Env, m: Groups) {
    && NumberOr(m, "as", MAX_UINT32, 0).Some?
    && NumberOr(m, "local-as", MAX_UINT32, 0).Some?
    && FamiliesOr(env, m, []).Some?
  }

  /** A send ID needs a keychain, given now or configured before. */
  predicate TcpAoAcceptable(m: Groups, peer: Peer) {
    && NumberOr(m, "tcp-ao-send-id", MAX_UINT8, 0).Some?
    && (Given(m, "tcp-ao-send-id").Some? ==> Given(m, "tcp-ao-keychain").Some? || HasKeychain(peer))
  }

  predicate SessionAcceptable(m: Groups, peer: Peer) {
    && NumberOr(m, "allow-own-as", MAX_UINT8, 0).Some?
    && RemovePrivateOr(m, None_).Some?
    && NumberOr(m, "ebgp-multihop-ttl", MAX_UINT32, 0).Some?
    && TcpAoAcceptable(m, peer)
  }

  predicate RoutingFollows(env: Env, m: Groups, peer: Peer, q: Peer) {
    && Some(q.peerAsn) == NumberOr(m, "as", MAX_UINT32, peer.peerAsn)
    && Some(q.localAsn) == NumberOr(m, "local-as", MAX_UINT32, peer.localAsn)
    && Some(q.families) == FamiliesOr(env, m, peer.families)
    && q.vrf == TextOr(m, "vrf", peer.vrf)
    && q.reflectorClient == (peer.reflectorClient || "route-reflector-client" in m)
    && q.clusterId == TextOr(m, "route-reflector-client", peer.clusterId)
    && q.serverClient == (peer.serverClient || "route-server-client" in m)
  }

  predicate TcpAoFollows(m: Groups, peer: Peer, ao: Option<TcpAo>) {
    if Given(m, "tcp-ao-keychain").None? && Given(m, "tcp-ao-send-id").None? then ao == peer.tcpAo
    else
      var before := if peer.tcpAo.Some? then peer.tcpAo.value else TcpAo("", 0);
      && ao.Some?
      && ao.value.keychain == TextOr(m, "tcp-ao-keychain", before.keychain)
      && Some(ao.value.sendId) == NumberOr(m, "tcp-ao-send-id", MAX_UINT8, before.sendId)
  }

  predicate SessionFollows(m: Groups, peer: Peer, q: Peer) {
    && Some(q.allowOwnAsn) == NumberOr(m, "allow-own-as", MAX_UINT8, peer.allowOwnAsn)
    && Some(q.removePrivate) == RemovePrivateOr(m, peer.removePrivate)
    && q.replacePeerAsn == (peer.replacePeerAsn || "replace-peer-as" in m)
    && q.multihopTtl == (if Given(m, "ebgp-multihop-ttl").None? then peer.multihopTtl
                         else NumberOr(m, "ebgp-multihop-ttl", MAX_UINT32, 0))
    && q.group == TextOr(m, "peer-group", peer.group)
    && TcpAoFollows(m, peer, q.tcpAo)
  }

  predicate SameRouting(p: Peer, q: Peer) {
    && q.address == p.address && q.interface_ == p.interface_ && q.stateAddress == p.stateAddress
    && q.peerAsn == p.peerAsn && q.localAsn == p.localAsn && q.families == p.families && q.vrf == p.vrf
    && q.reflectorClient == p.reflectorClient && q.clusterId == p.clusterId && q.serverClient == p.serverClient
  }

  predicate SameSession(p: Peer, q: Peer) {
    && q.address == p.address && q.interface_ == p.interface_ && q.stateAddress == p.stateAddress
    && q.allowOwnAsn == p.allowOwnAsn && q.removePrivate == p.removePrivate
    && q.replacePeerAsn == p.replacePeerAsn && q.multihopTtl == p.multihopTtl && q.group == p.group
    && q.tcpAo == p.tcpAo
  }

  /** Every number is one, every family is known, and a send ID comes with a keychain. */
  predicate Acceptable(env: Env, m: Groups, peer: Peer) {
    RoutingAcceptable(env, m) && SessionAcceptable(m, peer)
  }

  /** Each setting that is given is taken over; every other one stays. */
  predicate Follows(env: Env, m: Groups, peer: Peer, q: Peer) {
    && q.address == peer.address && q.interface_ == peer.interface_ && q.stateAddress == peer.stateAddress
    && RoutingFollows(env, m, peer, q) && SessionFollows(m, peer, q)
  }

  // ------------------------------------------------------ the update closure

  /** A key of arity one: absent, or with exactly one word. */
  predicate One(m: Groups, k: string) {
    k in m ==> |m[k]| == 1
  }

  predicate Ones(m: Groups, ks: set<string>) {
    forall k | k in ks :: One(m, k)
  }

  const ROUTING_KEYS := {"as", "local-as", "family", "vrf", "route-reflector-client"}
  const SESSION_KEYS :=
    {"allow-own-as", "remove-private-as", "ebgp-multihop-ttl", "peer-group", "tcp-ao-keychain", "tcp-ao-send-id"}

  lemma FitsOnes(m: Groups, keys: Keys, ks: set<string>)
    requires AllFit(m, keys) && "" !in keys && forall k | k in ks :: k in keys && keys[k] == Single
    ensures Ones(m, ks)
  {
  }

  lemma RoutingOnes(m: Groups)
    requires AllFit(m, KeyTable(CmdUpdate))
    ensures Ones(m, ROUTING_KEYS)
  {
    FitsOnes(m, KeyTable(CmdUpdate), ROUTING_KEYS);
  }

  lemma SessionOnes(m: Groups)
    requires AllFit(m, KeyTable(CmdUpdate))
    ensures Ones(m, SESSION_KEYS)
  {
    FitsOnes(m, KeyTable(CmdUpdate), SESSION_KEYS);
  }

  /** `if len(m[k]) > 0`, then the first word as a number. */
  method ReadNumber(m: Groups, k: string, max: nat, default: nat) returns (r: Option<nat>)
    requires One(m, k)
    ensures r == NumberOr(m, k, max, default)
  {
    r := if |Words(m, k)| > 0 then ParseUint(m[k][0], max) else Some(default);
  }

  /** `if len(m[k]) == 1`, then that word. */
  method ReadText(m: Groups, k: string, default: string) returns (r: string)
    requires One(m, k)
    ensures r == TextOr(m, k, default)
  {
    r := if |Words(m, k)| == 1 then m[k][0] else default;
  }

  method ReadFamilies(env: Env, m: Groups, default: seq<nat>) returns (r: Option<seq<nat>>)
    requires One(m, "family")
    ensures r == FamiliesOr(env, m, default)
  {
    if |Words(m, "family")| == 1 {
      r := ParseAll(Split(m["family"][0], ','), env.family);
    } else {
      r := Some(default);
    }
  }

  /** `if option, ok := m[k]; ok`, then option[0]: in range only because of the arity check. */
  method ReadRemovePrivate(m: Groups, default: RemovePrivate) returns (r: Option<RemovePrivate>)
    requires One(m, "remove-private-as")
    ensures r == RemovePrivateOr(m, default)
  {
    if "remove-private-as" !in m {
      return Some(default);
    }
    var w := m["remove-private-as"][0];
    r := if w == "all" then Some(All) else if w == "replace" then Some(Replace) else None;
  }

  method ReadAllowOwnAs(m: Groups, default: nat) returns (r: Option<nat>)
    requires One(m, "allow-own-as")
    ensures r == NumberOr(m, "allow-own-as", MAX_UINT8, default)
  {
    r := if "allow-own-as" in m then ParseUint(m["allow-own-as"][0], MAX_UINT8) else Some(default);
  }

  method ReadTcpAo(m: Groups, peer: Peer) returns (r: Option<Option<TcpAo>>)
    requires One(m, "tcp-ao-keychain") && One(m, "tcp-ao-send-id")
    ensures r.Some? <==> TcpAoAcceptable(m, peer)
    ensures r.Some? ==> TcpAoFollows(m, peer, r.value)
  {
    if |Words(m, "tcp-ao-send-id")| == 1 && |Words(m, "tcp-ao-keychain")| == 0 && !HasKeychain(peer) {
      return None;
    }
    if |Words(m, "tcp-ao-keychain")| != 1 && |Words(m, "tcp-ao-send-id")| != 1 {
      return Some(peer.tcpAo);
    }
    var ao := if peer.tcpAo.None? then TcpAo("", 0) else peer.tcpAo.value;
    var keychain := ReadText(m, "tcp-ao-keychain", ao.keychain);
    var id := ReadNumber(m, "tcp-ao-send-id", MAX_UINT8, ao.sendId);
    r := if id.None? then None else Some(Some(TcpAo(keychain, id.value)));
  }

  method UpdateRouting(env: Env, m: Groups, peer: Peer) returns (r: Option<Peer>)
    requires Ones(m, ROUTING_KEYS)
    ensures r.Some? <==> RoutingAcceptable(env, m)
    ensures r.Some? ==> RoutingFollows(env, m, peer, r.value) && SameSession(peer, r.value)
  {
    var asn := ReadNumber(m, "as", MAX_UINT32, peer.peerAsn);
    if asn.None? { return None; }
    var localAsn := ReadNumber(m, "local-as", MAX_UINT32, peer.localAsn);
    if localAsn.None? { return None; }
    var families := ReadFamilies(env, m, peer.families);
    if families.None? { return None; }
    var vrf := ReadText(m, "vrf", peer.vrf);
    var clusterId := ReadText(m, "route-reflector-client", peer.clusterId);
    r := Some(peer.(
      peerAsn := asn.value, localAsn := localAsn.value, families := families.value, vrf := vrf,
      reflectorClient := peer.reflectorClient || "route-reflector-client" in m, clusterId := clusterId,
      serverClient := peer.serverClient || "route-server-client" in m));
  }

  method UpdateSession(m: Groups, peer: Peer) returns (r: Option<Peer>)
    requires Ones(m, SESSION_KEYS)
    ensures r.Some? <==> SessionAcceptable(m, peer)
    ensures r.Some? ==> SessionFollows(m, peer, r.value) && SameRouting(peer, r.value)
  {
    var allowOwn := ReadAllowOwnAs(m, peer.allowOwnAsn);
    if allowOwn.None? { return None; }
    var removePrivate := ReadRemovePrivate(m, peer.removePrivate);
    if removePrivate.None? { return None; }
    var ttl := ReadNumber(m, "ebgp-multihop-ttl", MAX_UINT32, 0);
    if ttl.None? { return None; }
    var group := ReadText(m, "peer-group", peer.group);
    var ao := ReadTcpAo(m, peer);
    if ao.None? { return None; }
    r := Some(peer.(
      allowOwnAsn := allowOwn.value, removePrivate := removePrivate.value,
      replacePeerAsn := peer.replacePeerAsn || "replace-peer-as" in m,
      multihopTtl := if |Words(m, "ebgp-multihop-ttl")| == 1 then ttl else peer.multihopTtl,
      group := group, tcpAo := ao.value));
  }

  method UpdateNeighborConfig(env: Env, m: Groups, peer: Peer) returns (r: Option<Peer>)
    requires AllFit(m, KeyTable(CmdUpdate))
    ensures r.Some? <==> Acceptable(env, m, peer)
    ensures r.Some? ==> Follows(env, m, peer, r.value)
  {
    RoutingOnes(m);
    SessionOnes(m);
    var q := UpdateRouting(env, m, peer);
    if q.None? { return None; }
    r := UpdateSession(m, q.value);
  }

  // ------------------------------------------------------------- modNeighbor

  datatype Outcome = Usage | Failed | Request(peer: Peer)

  /** The words are grouped as the arity table wants, and name one address or one interface. */
  predicate WellFormed(cmd: Command, args: seq<string>) {
    var m := ScanOf(args, KeyTable(cmd)).groups;
    AllFit(m, KeyTable(cmd)) && (|Words(m, "")| == 1 || |Words(m, "interface")| == 1)
  }

  /** The neighbor a well-formed command is about: the interface wins over an address. */
  function Named(env: Env, m: Groups): Option<string>
    requires |Words(m, "")| == 1 || |Words(m, "interface")| == 1
  {
    if |Words(m, "interface")| > 0 then env.linkLocal(m["interface"][0])
    else if env.resolves(m[""][0]) then Some(m[""][0])
    else None
  }

  function Base(env: Env, cmd: Command, m: Groups, addr: string): Option<Peer> {
    if cmd.CmdUpdate? then env.existing(addr)
    else if |Words(m, "interface")| > 0 then Some(NEW_PEER.(interface_ := m["interface"][0], stateAddress := addr))
    else Some(NEW_PEER.(address := addr, stateAddress := addr))
  }

  /** What a well-formed command comes to, in terms of its groups. */
  predicate Settles(env: Env, cmd: Command, m: Groups, r: Outcome)
    requires |Words(m, "")| == 1 || |Words(m, "interface")| == 1
  {
    var addr := Named(env, m);
    if addr.None? || Base(env, cmd, m, addr.value).None? then r == Failed
    else
      var base := Base(env, cmd, m, addr.value).value;
      if cmd.CmdDel? then r == Request(base)
      else
        && (r.Request? <==> Acceptable(env, m, base)) && (r.Failed? <==> !Acceptable(env, m, base))
        && (r.Request? ==> Follows(env, m, base, r.peer))
  }

  method ModNeighbor(env: Env, cmd: Command, args: seq<string>) returns (r: Outcome)
    ensures r.Usage? <==> !WellFormed(cmd, args)
    ensures WellFormed(cmd, args) ==> Settles(env, cmd, ScanOf(args, KeyTable(cmd)).groups, r)
  {
    var m, blamed := ExtractReserved(args, KeyTable(cmd));
    if blamed.Some? || (|Words(m, "")| != 1 && |Words(m, "interface")| != 1) {
      return Usage;
    }
    var unnumbered := |Words(m, "interface")| > 0;
    if !unnumbered && !env.resolves(m[""][0]) {
      return Failed;
    }
    var addr := if unnumbered then env.linkLocal(m["interface"][0]) else Some(m[""][0]);
    if addr.None? {
      return Failed;
    }
    var base := Base(env, cmd, m, addr.value);
    if base.None? {
      return Failed;
    }
    if cmd.CmdDel? {
      return Request(base.value);
    }
    var q := UpdateNeighborConfig(env, m, base.value);
    r := if q.None? then Failed else Request(q.value);
  }

  // -------------------------------------------------------------- properties

  /** Which keys there are. */
  lemma KeysAre(cmd: Command)
    ensures KeyTable(cmd).Keys ==
            if cmd.CmdDel? then {"interface"}
            else {"interface", "as", "local-as", "family", "vrf", "route-reflector-client", "route-server-client",
                  "allow-own-as", "remove-private-as", "replace-peer-as", "ebgp-multihop-ttl", "peer-group",
                  "tcp-ao-keychain", "tcp-ao-send-id"}
  {
  }

  /** All of them take one word, but two take none. */
  lemma AritiesAre(cmd: Command)
    ensures forall k | k in KeyTable(cmd) ::
              KeyTable(cmd)[k] == if k in {"route-server-client", "replace-peer-as"} then Flag else Single
    ensures "" !in KeyTable(cmd)
  {
  }

  lemma AllFitIff(args: seq<string>, keys: Keys, flags: set<string>)
    requires "" !in keys && forall k | k in keys :: keys[k] == if k in flags then Flag else Single
    ensures var m := ScanOf(args, keys).groups;
            AllFit(m, keys) <==> forall k | k in m && k != "" :: |m[k]| == if k in flags then 0 else 1
  {
    var m := ScanOf(args, keys).groups;
    forall k | k in m && k != ""
      ensures k in keys
    {
      GroupMeaning(args, keys, k);
    }
  }

  /** Exactly which commands are not refused with the usage text. */
  lemma WellFormedIff(cmd: Command, args: seq<string>)
    ensures var m := ScanOf(args, KeyTable(cmd)).groups;
            WellFormed(cmd, args) <==>
              && (forall k | k in m && k != "" ::
                    |m[k]| == if k in {"route-server-client", "replace-peer-as"} then 0 else 1)
              && (("" in m && |m[""]| == 1) || ("interface" in m && |m["interface"]| == 1))
  {
    AritiesAre(cmd);
    AllFitIff(args, KeyTable(cmd), {"route-server-client", "replace-peer-as"});
  }

  /** How a peer begins that is not configured yet. */
  predicate IsBlank(p: Peer) {
    && p.peerAsn == 0 && p.localAsn == 0 && p.families == [] && p.vrf == ""
    && !p.reflectorClient && p.clusterId == "" && !p.serverClient
    && p.allowOwnAsn == 0 && p.removePrivate == None_ && !p.replacePeerAsn
    && p.multihopTtl == None && p.group == "" && p.tcpAo == None
  }

  /** One plain word, or one interface. */
  predicate NamesOne(m: Groups) {
    One(m, "interface") && (("" in m && |m[""]| == 1) || "interface" in m)
  }

  /** The neighbor is found: the interface has a link-local neighbor or, without one, the plain word resolves. */
  predicate IsFound(env: Env, m: Groups)
    requires NamesOne(m)
  {
    if "interface" in m then env.linkLocal(m["interface"][0]).Some? else env.resolves(m[""][0])
  }

  /** The peer is called by its one plain word or, if an interface is given, by that alone. */
  predicate IsCalled(env: Env, m: Groups, p: Peer)
    requires NamesOne(m)
  {
    if "interface" in m then
      p.address == "" && p.interface_ == m["interface"][0] && Some(p.stateAddress) == env.linkLocal(m["interface"][0])
    else
      p.address == m[""][0] && p.interface_ == "" && p.stateAddress == m[""][0]
  }

  /** A deletion asks for the peer by its name and has nothing else in it. It fails only if none is found. */
  lemma DelRequest(env: Env, m: Groups, r: Outcome)
    requires NamesOne(m) && Settles(env, CmdDel, m, r)
    ensures if IsFound(env, m) then r.Request? && IsCalled(env, m, r.peer) && IsBlank(r.peer) else r.Failed?
  {
  }

  /** An addition has the name, and follows the settings from a blank peer on. */
  lemma AddRequest(env: Env, m: Groups, r: Outcome) returns (blank: Peer)
    requires NamesOne(m) && Settles(env, CmdAdd, m, r)
    ensures IsBlank(blank)
    ensures r.Failed? <==> !IsFound(env, m) || !Acceptable(env, m, blank)
    ensures r.Request? ==> IsCalled(env, m, r.peer) && Follows(env, m, blank, r.peer)
  {
    var addr := Named(env, m);
    blank := if addr.Some? then Base(env, CmdAdd, m, addr.value).value else NEW_PEER;
  }

  /** An update follows the settings from the daemon's peer on, found by address or link-local address. */
  lemma UpdateRequest(env: Env, m: Groups, r: Outcome)
    requires NamesOne(m) && Settles(env, CmdUpdate, m, r)
    ensures if !IsFound(env, m) then r.Failed?
            else
              var addr := if "interface" in m then env.linkLocal(m["interface"][0]).value else m[""][0];
              var peer := env.existing(addr);
              && (r.Failed? <==> peer.None? || !Acceptable(env, m, peer.value))
              && (r.Request? ==> peer.Some? && Follows(env, m, peer.value, r.peer))
  {
  }

  /** The groups of a well-formed command name one neighbor. */
  lemma WellFormedNamesOne(cmd: Command, args: seq<string>)
    requires WellFormed(cmd, args)
    ensures NamesOne(ScanOf(args, KeyTable(cmd)).groups)
  {
    WellFormedIff(cmd, args);
  }

  // -------------------------------------------------- what the settings mean

  predicate IsNumber(w: string, max: nat) {
    w != "" && IsDigits(w) && Value(w) <= max
  }

  predicate Has(m: Groups, k: string, w: string) {
    k in m && m[k] == [w]
  }

  predicate IsNumberIfGiven(m: Groups, k: string, max: nat) {
    k in m && |m[k]| == 1 ==> IsNumber(m[k][0], max)
  }

  lemma NumberOrIff(m: Groups, k: string, max: nat, default: nat)
    requires One(m, k)
    ensures NumberOr(m, k, max, default).Some? <==> IsNumberIfGiven(m, k, max)
    ensures k !in m ==> NumberOr(m, k, max, default) == Some(default)
    ensures k in m && IsNumber(m[k][0], max) ==> NumberOr(m, k, max, default) == Some(Value(m[k][0]))
  {
  }

  /** Each of the comma-separated names is that of a family. */
  predicate KnownFamilies(env: Env, w: string) {
    forall i | 0 <= i < |Split(w, ',')| :: env.family(Split(w, ',')[i]).Some?
  }

  lemma FamiliesOrIff(env: Env, m: Groups, default: seq<nat>)
    requires One(m, "family")
    ensures FamiliesOr(env, m, default).Some? <==> ("family" in m ==> KnownFamilies(env, m["family"][0]))
  {
    if "family" in m {
      TraverseIff(env.family, Split(m["family"][0], ','));
    }
  }

  /** Exactly which settings are acceptable. */
  lemma RoutingAcceptableIff(env: Env, m: Groups)
    requires Ones(m, ROUTING_KEYS)
    ensures RoutingAcceptable(env, m) <==>
            && IsNumberIfGiven(m, "as", 4294967295) && IsNumberIfGiven(m, "local-as", 4294967295)
            && ("family" in m ==> KnownFamilies(env, m["family"][0]))
  {
    assert One(m, "as") && One(m, "local-as") && One(m, "family");
    NumberOrIff(m, "as", MAX_UINT32, 0);
    NumberOrIff(m, "local-as", MAX_UINT32, 0);
    FamiliesOrIff(env, m, []);
  }

  lemma SessionAcceptableIff(m: Groups, peer: Peer)
    requires Ones(m, SESSION_KEYS)
    ensures SessionAcceptable(m, peer) <==>
            && IsNumberIfGiven(m, "allow-own-as", 255) && IsNumberIfGiven(m, "tcp-ao-send-id", 255)
            && IsNumberIfGiven(m, "ebgp-multihop-ttl", 4294967295)
            && ("remove-private-as" in m ==> m["remove-private-as"][0] in {"all", "replace"})
            && ("tcp-ao-send-id" in m ==>
                  "tcp-ao-keychain" in m || (peer.tcpAo.Some? && peer.tcpAo.value.keychain != ""))
  {
    assert One(m, "allow-own-as") && One(m, "tcp-ao-send-id") && One(m, "ebgp-multihop-ttl");
    assert One(m, "remove-private-as") && One(m, "tcp-ao-keychain");
    NumberOrIff(m, "allow-own-as", MAX_UINT8, 0);
    NumberOrIff(m, "tcp-ao-send-id", MAX_UINT8, 0);
    NumberOrIff(m, "ebgp-multihop-ttl", MAX_UINT32, 0);
  }

  /** Where each routing setting ends up. */
  lemma RoutingLands(env: Env, m: Groups, peer: Peer, q: Peer, w: string)
    requires RoutingAcceptable(env, m) && RoutingFollows(env, m, peer, q)
    ensures Has(m, "as", w) ==> IsDigits(w) && q.peerAsn == Value(w)
    ensures "as" !in m ==> q.peerAsn == peer.peerAsn
    ensures Has(m, "local-as", w) ==> IsDigits(w) && q.localAsn == Value(w)
    ensures "local-as" !in m ==> q.localAsn == peer.localAsn
    ensures Has(m, "family", w) ==>
              && |q.families| == |Split(w, ',')|
              && forall i | 0 <= i < |q.families| :: env.family(Split(w, ',')[i]) == Some(q.families[i])
    ensures "family" !in m ==> q.families == peer.families
    ensures Has(m, "vrf", w) ==> q.vrf == w
    ensures "vrf" !in m ==> q.vrf == peer.vrf
    ensures Has(m, "route-reflector-client", w) ==> q.reflectorClient && q.clusterId == w
    ensures "route-reflector-client" !in m ==>
              q.reflectorClient == peer.reflectorClient && q.clusterId == peer.clusterId
    ensures q.serverClient == (if "route-server-client" in m then true else peer.serverClient)
  {
    TraverseIff(env.family, Split(w, ','));
  }

  /** Where each session setting ends up. */
  lemma SessionLands(m: Groups, peer: Peer, q: Peer, w: string)
    requires SessionAcceptable(m, peer) && SessionFollows(m, peer, q)
    ensures Has(m, "allow-own-as", w) ==> IsDigits(w) && q.allowOwnAsn == Value(w)
    ensures "allow-own-as" !in m ==> q.allowOwnAsn == peer.allowOwnAsn
    ensures Has(m, "remove-private-as", w) ==> q.removePrivate == (if w == "all" then All else Replace)
    ensures "remove-private-as" !in m ==> q.removePrivate == peer.removePrivate
    ensures q.replacePeerAsn == (if "replace-peer-as" in m then true else peer.replacePeerAsn)
    ensures Has(m, "ebgp-multihop-ttl", w) ==> IsDigits(w) && q.multihopTtl == Some(Value(w))
    ensures "ebgp-multihop-ttl" !in m ==> q.multihopTtl == peer.multihopTtl
    ensures Has(m, "peer-group", w) ==> q.group == w
    ensures "peer-group" !in m ==> q.group == peer.group
    ensures Has(m, "tcp-ao-keychain", w) ==> q.tcpAo.Some? && q.tcpAo.value.keychain == w
    ensures Has(m, "tcp-ao-send-id", w) ==> q.tcpAo.Some? && IsDigits(w) && q.tcpAo.value.sendId == Value(w)
    ensures Has(m, "tcp-ao-keychain", w) && "tcp-ao-send-id" !in m ==>
              q.tcpAo.value.sendId == if peer.tcpAo.Some? then peer.tcpAo.value.sendId else 0
    ensures Has(m, "tcp-ao-send-id", w) && "tcp-ao-keychain" !in m ==>
              peer.tcpAo.Some? && q.tcpAo.value.keychain == peer.tcpAo.value.keychain
    ensures "tcp-ao-keychain" !in m && "tcp-ao-send-id" !in m ==> q.tcpAo == peer.tcpAo
  {
  }

  /** A setting counts by the words after its last mention, and a single-word key has just one there. */
  lemma LastMentionWins(cmd: Command, args: seq<string>, k: string)
    requires WellFormed(cmd, args) && k in KeyTable(cmd) && KeyTable(cmd)[k] == Single && k in args
    ensures var i := LastIndex(args, k);
            && i + 1 < |args|
            && args[i + 1] !in KeyTable(cmd)
            && (i + 2 == |args| || args[i + 2] in KeyTable(cmd))
            && Given(ScanOf(args, KeyTable(cmd)).groups, k) == Some(args[i + 1])
  {
    SingleWord(args, KeyTable(cmd), k);
  }

  /** A command line that ends in a single-word key is refused. */
  lemma TrailingKeyIsRefused(cmd: Command, init: seq<string>, k: string)
    requires k in KeyTable(cmd) && KeyTable(cmd)[k] == Single
    ensures !WellFormed(cmd, init + [k])
  {
    var args := init + [k];
    assert args[|init|] == k;
    if WellFormed(cmd, args) {
      LastMentionWins(cmd, args, k);
    }
  }

  /** Everything fits, except perhaps the group of k; and a neighbor is named. */
  predicate FitsButFor(cmd: Command, args: seq<string>, k: string) {
    var m, keys := ScanOf(args, KeyTable(cmd)).groups, KeyTable(cmd);
    && (forall q | q in m && q in keys && q != "" && q != k :: Fits(keys[q], m[q]))
    && (|Words(m, "")| == 1 || |Words(m, "interface")| == 1)
  }

  /** A one-word key that is mentioned decides: the command is accepted exactly if it got its one word. */
  lemma SingleKeyDecides(cmd: Command, args: seq<string>, k: string)
    requires k != "" && k in KeyTable(cmd) && KeyTable(cmd)[k] == Single && k in args && FitsButFor(cmd, args, k)
    ensures k in ScanOf(args, KeyTable(cmd)).groups
    ensures WellFormed(cmd, args) <==> |ScanOf(args, KeyTable(cmd)).groups[k]| == 1
  {
    GroupMeaning(args, KeyTable(cmd), k);
  }

  const CLUSTER_KEY := "route-reflector-client"

  /**
   The usage text shows the cluster ID of route-reflector-client as optional, and the update
   closure provides for that; but a command that is right in all else is accepted exactly with one.
   */
  lemma ClusterIdIsNotOptional(cmd: Command, args: seq<string>)
    requires !cmd.CmdDel? && CLUSTER_KEY in args && FitsButFor(cmd, args, CLUSTER_KEY)
    ensures CLUSTER_KEY in ScanOf(args, KeyTable(cmd)).groups
    ensures WellFormed(cmd, args) <==> |ScanOf(args, KeyTable(cmd)).groups[CLUSTER_KEY]| == 1
  {
    SingleKeyDecides(cmd, args, CLUSTER_KEY);
  }

  /** `neighbor add 10.0.0.1 as 65000 route-reflector-client` is refused, for the missing cluster ID alone. */
  lemma BareReflectorClientIsRefused(cmd: Command)
    requires !cmd.CmdDel?
    ensures var args := ["10.0.0.1", "as", "65000", CLUSTER_KEY];
            !WellFormed(cmd, args) && FitsButFor(cmd, args, CLUSTER_KEY)
  {
    var lead, groups := ["10.0.0.1"], [Group("as", ["65000"]), Group(CLUSTER_KEY, [])];
    var keys, args := KeyTable(cmd), ["10.0.0.1", "as", "65000", CLUSTER_KEY];
    ExampleIsRenderable(cmd);
    assert groups[..1] == [Group("as", ["65000"])] && groups[..1][..0] == [];
    assert Render(lead, groups[..1]) == ["10.0.0.1", "as", "65000"];
    assert Render(lead, groups) == args;
    GroupsOfRender(lead, groups, keys);
    AsMapIsExact(lead, groups, keys);
    TrailingKeyIsRefused(cmd, args[..3], CLUSTER_KEY);
    assert args[..3] + [CLUSTER_KEY] == args;
  }

  lemma ExampleIsRenderable(cmd: Command)
    requires !cmd.CmdDel?
    ensures Renderable(["10.0.0.1"], [Group("as", ["65000"]), Group(CLUSTER_KEY, [])], KeyTable(cmd))
  {
    assert |"10.0.0.1"| == 8 && |"65000"| == 5;
    assert "10.0.0.1"[0] == '1' && "65000"[0] == '6';
  }
}
