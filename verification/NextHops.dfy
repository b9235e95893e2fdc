/**
 Path attributes, the next hop a path is shown with, and the two next hop
 rewrites of MRT injection: in place for IPv4, by rebuilding MP_REACH_NLRI
 otherwise (section 4.3.4 of RFC 6396 abbreviates that attribute in a dump).
 */
module NextHops {
  import opened Bytes

  // ------------------------------------------------------------- addresses

  /** netip.Addr: `Invalid` is the zero Addr. */
  datatype Addr = Invalid | V4(bits: nat) | V6(bits: nat)

  predicate IsUnspecified(a: Addr) {
    a == V4(0) || a == V6(0)
  }

  const TWO_TO_THE_32 := 0x1_0000_0000
  const TWO_TO_THE_118 := 0x40_0000_0000_0000_0000_0000_0000_0000

  /** 169.254.0.0/16, fe80::/10, and the former written as an IPv4-mapped address. */
  predicate IsLinkLocalUnicast(a: Addr) {
    match a
    case Invalid => false
    case V4(b) => b / 0x1_0000 == 0xA9FE
    case V6(b) =>
      if b / TWO_TO_THE_32 == 0xFFFF then b % TWO_TO_THE_32 / 0x1_0000 == 0xA9FE
      else b / TWO_TO_THE_118 == 0x3FA
  }

  // ------------------------------------------------------------ attributes

  const NEXT_HOP := 3
  const MP_REACH_NLRI := 14

  type OtherType = t: nat | t != NEXT_HOP && t != MP_REACH_NLRI

  datatype Family = IPv4Unicast | IPv6Unicast

  /** An NLRI as it stands in a record; injection only passes it on. */
  type Nlri = seq<byte>

  datatype Attr =
    | NextHop(value: Addr)
    | MpReach(family: Family, nlris: seq<Nlri>, nexthop: Addr, linkLocal: Addr)
    | Other(typ: OtherType, payload: seq<byte>)

  function TypeOf(a: Attr): nat {
    match a
    case NextHop(_) => NEXT_HOP
    case MpReach(_, _, _, _) => MP_REACH_NLRI
    case Other(t, _) => t
  }

  // ------------------------------------------------- the next hop on display

  predicate IsNextHop(a: Attr) {
    a.NextHop?
  }

  predicate BearsNextHop(a: Attr) {
    a.NextHop? || a.MpReach?
  }

  /** The address one next hop attribute is reached through. */
  function Reached(a: Attr): Addr
    requires BearsNextHop(a)
  {
    match a
    case NextHop(v) => v
    case MpReach(_, _, nh, ll) => if IsUnspecified(nh) && IsLinkLocalUnicast(ll) then ll else nh
  }

  /** Position of the first attribute of one kind, or the length if there is none. */
  function First(attrs: seq<Attr>, kind: Attr -> bool): (i: nat)
    ensures i <= |attrs|
    ensures i < |attrs| ==> kind(attrs[i])
    ensures forall j | 0 <= j < i :: !kind(attrs[j])
  {
    if attrs == [] then 0
    else if kind(attrs[0]) then 0
    else First(attrs[1..], kind) + 1
  }

  /** getNextHopFromPathAttributes: the first attribute that bears a next hop decides. */
  function ShownNextHop(attrs: seq<Attr>): Addr {
    var i := First(attrs, BearsNextHop);
    if i < |attrs| then Reached(attrs[i]) else Invalid
  }

  method GetNextHop(attrs: seq<Attr>) returns (r: Addr)
    ensures r == ShownNextHop(attrs)
  {
    for i := 0 to |attrs|
      invariant forall j | 0 <= j < i :: !BearsNextHop(attrs[j])
    {
      match attrs[i]
      case NextHop(v) =>
        FirstIsUnique(attrs, BearsNextHop, i);
        return v;
      case MpReach(_, _, nh, ll) =>
        FirstIsUnique(attrs, BearsNextHop, i);
        if IsUnspecified(nh) && IsLinkLocalUnicast(ll) {
          return ll;
        }
        return nh;
      case Other(_, _) =>
    }
    return Invalid;
  }

  lemma FirstIsUnique(attrs: seq<Attr>, kind: Attr -> bool, i: nat)
    requires i < |attrs| && kind(attrs[i]) && forall j | 0 <= j < i :: !kind(attrs[j])
    ensures First(attrs, kind) == i
  {
  }

  /** 169.254.0.0 to 169.254.255.255, plain or mapped to IPv6, and fe80:: up to but not including fec0::. */
  lemma LinkLocalIff(b: nat)
    ensures IsLinkLocalUnicast(V4(b)) <==> 0xA9FE_0000 <= b < 0xA9FF_0000
    ensures IsLinkLocalUnicast(V6(b)) <==>
              || 0xFFFF_A9FE_0000 <= b < 0xFFFF_A9FF_0000
              || 0xFE80_0000_0000_0000_0000_0000_0000_0000 <= b < 0xFEC0_0000_0000_0000_0000_0000_0000_0000
  {
  }

  /** The first NEXT_HOP or MP_REACH_NLRI is shown; the latter by its link-local address only beside :: or 0.0.0.0. */
  lemma ShownIs(attrs: seq<Attr>, i: nat)
    requires i < |attrs| && TypeOf(attrs[i]) in {3, 14} && forall j | 0 <= j < i :: TypeOf(attrs[j]) !in {3, 14}
    ensures attrs[i].NextHop? ==> ShownNextHop(attrs) == attrs[i].value
    ensures attrs[i].MpReach? ==>
              ShownNextHop(attrs) ==
              if attrs[i].nexthop in {V4(0), V6(0)} && IsLinkLocalUnicast(attrs[i].linkLocal)
              then attrs[i].linkLocal else attrs[i].nexthop
  {
    FirstIsUnique(attrs, BearsNextHop, i);
  }

  // -------------------------------------------------------- the two rewrites

  /** IPv4: with an override, only the first NEXT_HOP gets it. */
  function OverrideFirst(attrs: seq<Attr>, override: Option<Addr>): seq<Attr> {
    var i := First(attrs, IsNextHop);
    if override.Some? && i < |attrs| then attrs[i := NextHop(override.value)] else attrs
  }

  /** The loop of the IPv4 branch, on the entry's own attribute slice. */
  method OverrideInPlace(a: array<Attr>, override: Option<Addr>)
    modifies a
    ensures a[..] == OverrideFirst(old(a[..]), override)
  {
    if override.Some? {
      ghost var before := a[..];
      var i := 0;
      while i < a.Length
        invariant 0 <= i <= a.Length && a[..] == before
        invariant forall j | 0 <= j < i :: !before[j].NextHop?
      {
        if a[i].NextHop? {
          FirstIsUnique(before, IsNextHop, i);
          a[i] := NextHop(override.value);
          return;
        }
        i := i + 1;
      }
    }
  }

  /** Every other family: MP_REACH_NLRI is built anew around the record's prefix. */
  function RebuildOne(a: Attr, family: Family, nlri: Nlri, override: Option<Addr>): Attr {
    if a.MpReach? then MpReach(family, [nlri], if override.Some? then override.value else a.nexthop, Invalid) else a
  }

  function Rebuild(attrs: seq<Attr>, family: Family, nlri: Nlri, override: Option<Addr>): (r: seq<Attr>)
    ensures |r| == |attrs|
  {
    seq(|attrs|, i requires 0 <= i < |attrs| => RebuildOne(attrs[i], family, nlri, override))
  }

  method RebuildLoop(attrs: seq<Attr>, family: Family, nlri: Nlri, override: Option<Addr>) returns (r: seq<Attr>)
    ensures r == Rebuild(attrs, family, nlri, override)
  {
    r := [];
    ghost var all := Rebuild(attrs, family, nlri, override);
    for i := 0 to |attrs|
      invariant r == all[..i]
    {
      assert all[..i + 1] == all[..i] + [all[i]];
      var attr := attrs[i];
      if TypeOf(attr) != MP_REACH_NLRI {
        r := r + [attr];
      } else {
        var nexthop := attr.nexthop;
        if override.Some? {
          nexthop := override.value;
        }
        r := r + [MpReach(family, [nlri], nexthop, Invalid)];
      }
    }
  }

  function Rewrite(v4: bool, attrs: seq<Attr>, family: Family, nlri: Nlri, override: Option<Addr>): seq<Attr> {
    if v4 then OverrideFirst(attrs, override) else Rebuild(attrs, family, nlri, override)
  }

  // ------------------------------------------------------------- properties

  predicate IsFirstNextHop(attrs: seq<Attr>, i: nat)
    requires i < |attrs|
  {
    attrs[i].NextHop? && forall j | 0 <= j < i :: !attrs[j].NextHop?
  }

  /** Number, order and types of attributes stay; each family's rewrite touches only its own attributes. */
  lemma RewriteIsExact(v4: bool, attrs: seq<Attr>, family: Family, nlri: Nlri, override: Option<Addr>)
    ensures var r := Rewrite(v4, attrs, family, nlri, override);
            && |r| == |attrs|
            && forall i | 0 <= i < |attrs| ::
                 && TypeOf(r[i]) == TypeOf(attrs[i])
                 && (if v4 then
                       r[i] == if override.Some? && IsFirstNextHop(attrs, i) then NextHop(override.value) else attrs[i]
                     else if attrs[i].MpReach? then
                       r[i].nlris == [nlri] && r[i].family == family && r[i].linkLocal == Invalid
                       && r[i].nexthop == (if override.Some? then override.value else attrs[i].nexthop)
                     else r[i] == attrs[i])
  {
    var f := First(attrs, IsNextHop);
    forall i | 0 <= i < |attrs|
      ensures IsFirstNextHop(attrs, i) <==> i == f
    {
      if IsFirstNextHop(attrs, i) {
        FirstIsUnique(attrs, IsNextHop, i);
      }
    }
  }

  lemma RewriteIsIdempotent(v4: bool, attrs: seq<Attr>, family: Family, nlri: Nlri, override: Option<Addr>)
    ensures var r := Rewrite(v4, attrs, family, nlri, override);
            Rewrite(v4, r, family, nlri, override) == r
  {
    var r := Rewrite(v4, attrs, family, nlri, override);
    var i := First(attrs, IsNextHop);
    if v4 && override.Some? && i < |attrs| {
      FirstIsUnique(r, IsNextHop, i);
    }
  }

  /** A rewrite never moves the attribute that decides the next hop on display. */
  lemma DecidingAttributeStays(v4: bool, attrs: seq<Attr>, family: Family, nlri: Nlri, override: Option<Addr>)
    ensures First(Rewrite(v4, attrs, family, nlri, override), BearsNextHop) == First(attrs, BearsNextHop)
  {
    var r := Rewrite(v4, attrs, family, nlri, override);
    RewriteIsExact(v4, attrs, family, nlri, override);
    assert forall i | 0 <= i < |attrs| :: BearsNextHop(r[i]) == BearsNextHop(attrs[i]);
    var i := First(attrs, BearsNextHop);
    if i < |attrs| {
      FirstIsUnique(r, BearsNextHop, i);
    }
  }

  /**
   When does an override reach the display? Exactly when the deciding attribute is of
   the type that the record's family rewrites, or already leads to the override.
   */
  lemma OverrideShownIff(v4: bool, attrs: seq<Attr>, family: Family, nlri: Nlri, addr: Addr)
    requires addr != Invalid
    ensures var i := First(attrs, BearsNextHop);
            ShownNextHop(Rewrite(v4, attrs, family, nlri, Some(addr))) == addr
            <==> i < |attrs| && ((if v4 then attrs[i].NextHop? else attrs[i].MpReach?) || Reached(attrs[i]) == addr)
  {
    DecidingAttributeStays(v4, attrs, family, nlri, Some(addr));
    var i := First(attrs, BearsNextHop);
    if v4 && i < |attrs| && attrs[i].NextHop? {
      FirstIsUnique(attrs, IsNextHop, i);
    }
  }

  /**
   Without an override the display is kept, except that rebuilding forgets a link-local
   next hop: the route is then shown through the unspecified address.
   */
  lemma UnchangedDisplayIff(v4: bool, attrs: seq<Attr>, family: Family, nlri: Nlri)
    ensures var i := First(attrs, BearsNextHop);
            ShownNextHop(Rewrite(v4, attrs, family, nlri, None)) == ShownNextHop(attrs)
            <==> v4 || i == |attrs| || !attrs[i].MpReach?
                 || !IsUnspecified(attrs[i].nexthop) || !IsLinkLocalUnicast(attrs[i].linkLocal)
  {
    DecidingAttributeStays(v4, attrs, family, nlri, None);
  }

  /** fe80::1 next to the unspecified address is shown before rebuilding, and lost by it. */
  lemma LinkLocalNextHopIsLost()
    ensures var attrs := [MpReach(IPv6Unicast, [[]], V6(0), V6(0x3FA * TWO_TO_THE_118 + 1))];
            && ShownNextHop(attrs) == V6(0x3FA * TWO_TO_THE_118 + 1)
            && ShownNextHop(Rewrite(false, attrs, IPv6Unicast, [], None)) == V6(0)
  {
    var attrs := [MpReach(IPv6Unicast, [[]], V6(0), V6(0x3FA * TWO_TO_THE_118 + 1))];
    FirstIsUnique(attrs, BearsNextHop, 0);
    DecidingAttributeStays(false, attrs, IPv6Unicast, [], None);
  }
}
