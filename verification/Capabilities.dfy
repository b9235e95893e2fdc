/**
 The capability list of `showNeighbor`: local and remote capabilities merged by key,
 sorted by code, and printed with who supports them (section 4 of RFC 5492; the
 multiprotocol capability is section 8 of RFC 4760).
 */
module Capabilities {
  import opened Bytes

  const MULTIPROTOCOL := 1

  type OtherCode = c: nat | c != MULTIPROTOCOL

  /** A multiprotocol capability is told apart by its family, any other one by its code alone. */
  datatype Cap = Multiprotocol(family: nat) | Other(other: OtherCode, payload: seq<byte>) {
    function Code(): nat {
      if Multiprotocol? then MULTIPROTOCOL else other
    }
  }

  datatype Key = Key(code: nat, family: nat)

  function KeyOf(c: Cap): Key {
    if c.Multiprotocol? then Key(MULTIPROTOCOL, c.family) else Key(c.other, 0)
  }

  function Keys(caps: seq<Cap>): set<Key> {
    set c | c in caps :: KeyOf(c)
  }

  /** Two multiprotocol capabilities are the same by their families, two others by their codes. */
  lemma SameKeyIff(c: Cap, d: Cap)
    ensures KeyOf(c) == KeyOf(d) <==>
            || (c.Multiprotocol? && d.Multiprotocol? && c.family == d.family)
            || (c.Other? && d.Other? && c.other == d.other)
  {
  }

  /** Position i holds the first capability of the list with that key. */
  predicate IsFirstOf(l: seq<Cap>, key: Key, i: int) {
    0 <= i < |l| && KeyOf(l[i]) == key && forall j | 0 <= j < i :: KeyOf(l[j]) != key
  }

  /** The lookup closure: the first capability of the list with the same key. */
  method Lookup(val: Cap, l: seq<Cap>) returns (r: Option<Cap>)
    ensures r.Some? <==> KeyOf(val) in Keys(l)
    ensures r.Some? ==> exists i :: IsFirstOf(l, KeyOf(val), i) && l[i] == r.value
  {
    for i := 0 to |l|
      invariant forall j | 0 <= j < i :: KeyOf(l[j]) != KeyOf(val)
    {
      var v := l[i];
      assert v in l && (KeyOf(v) == KeyOf(val) ==> KeyOf(val) in Keys(l) && IsFirstOf(l, KeyOf(val), i));
      if v.Code() == val.Code() {
        if v.Code() == MULTIPROTOCOL {
          if v.family == val.family {
            return Some(v);
          }
          continue;
        }
        return Some(v);
      }
    }
    return None;
  }

  // ------------------------------------------------------------------- merge

  /** The remote list, with every capability whose key came before left out. */
  function Added(local: seq<Cap>, remote: seq<Cap>): seq<Cap> {
    if remote == [] then []
    else
      var n := |remote| - 1;
      var before := Added(local, remote[..n]);
      if KeyOf(remote[n]) in Keys(local + before) then before else before + [remote[n]]
  }

  method Merge(local: seq<Cap>, remote: seq<Cap>) returns (caps: seq<Cap>)
    ensures caps == local + Added(local, remote)
  {
    caps := local;
    assert local + [] == local;
    for i := 0 to |remote|
      invariant caps == local + Added(local, remote[..i])
    {
      assert remote[..i + 1][..i] == remote[..i];
      var known := Lookup(remote[i], caps);
      if known.None? {
        caps := caps + [remote[i]];
      }
    }
    assert remote[..|remote|] == remote;
  }

  /** What is added: one capability, and a remote one, for every key that is only remote. */
  lemma {:induction false} AddedIsExact(local: seq<Cap>, remote: seq<Cap>)
    ensures var added := Added(local, remote);
            && (forall c | c in added :: c in remote)
            && Keys(added) == Keys(remote) - Keys(local)
            && (forall i, j | 0 <= i < j < |added| :: KeyOf(added[i]) != KeyOf(added[j]))
  {
    if remote != [] {
      var n := |remote| - 1;
      var before := Added(local, remote[..n]);
      AddedIsExact(local, remote[..n]);
      assert remote == remote[..n] + [remote[n]];
      KeysOfConcat(remote[..n], [remote[n]]);
      KeysOfConcat(local, before);
      KeysOfConcat(before, [remote[n]]);
      KeysOfOne(remote[n]);
      if KeyOf(remote[n]) !in Keys(before) {
        assert forall i | 0 <= i < |before| :: before[i] in before && KeyOf(before[i]) in Keys(before);
      }
    }
  }

  /** Of several remote capabilities with one key, the first is the one added. */
  lemma {:induction false} AddedIsFirst(local: seq<Cap>, remote: seq<Cap>, c: Cap) returns (p: nat)
    requires c in Added(local, remote)
    ensures p < |remote| && remote[p] == c && forall q | 0 <= q < p :: KeyOf(remote[q]) != KeyOf(c)
  {
    p := |remote| - 1;
    var before := Added(local, remote[..p]);
    if c in before {
      p := AddedIsFirst(local, remote[..p], c);
    } else {
      AddedIsExact(local, remote[..p]);
      KeysOfConcat(local, before);
      forall q | 0 <= q < p
        ensures KeyOf(remote[q]) != KeyOf(c)
      {
        assert remote[..p][q] in remote[..p];
        assert KeyOf(remote[q]) in Keys(remote[..p]);
      }
    }
  }

  lemma KeysOfConcat(a: seq<Cap>, b: seq<Cap>)
    ensures Keys(a + b) == Keys(a) + Keys(b)
  {
    forall k | k in Keys(a) + Keys(b)
      ensures k in Keys(a + b)
    {
      var c :| (c in a || c in b) && KeyOf(c) == k;
      assert c in a + b;
    }
  }

  lemma KeysOfOne(c: Cap)
    ensures Keys([c]) == {KeyOf(c)}
  {
  }

  // ------------------------------------------------------------------ listing

  /** sort.Slice by code: some permutation in code order; equal codes may come in any order. */
  predicate SortedOutcome(caps: seq<Cap>, sorted: seq<Cap>) {
    && multiset(sorted) == multiset(caps)
    && forall i, j | 0 <= i < j < |sorted| :: sorted[i].Code() <= sorted[j].Code()
  }

  datatype Support = Support(advertised: bool, received: bool)

  datatype Line = Header | Entry(cap: Cap, support: Support)

  function EntryOf(c: Cap, local: seq<Cap>, remote: seq<Cap>): Line {
    Entry(c, Support(KeyOf(c) in Keys(local), KeyOf(c) in Keys(remote)))
  }

  function Entries(caps: seq<Cap>, local: seq<Cap>, remote: seq<Cap>): (ls: seq<Line>)
    ensures |ls| == |caps|
  {
    seq(|caps|, i requires 0 <= i < |caps| => EntryOf(caps[i], local, remote))
  }

  /** Position of the first multiprotocol capability, or the length. */
  function FirstMp(caps: seq<Cap>): (i: nat)
    ensures i <= |caps|
    ensures i < |caps| ==> caps[i].Multiprotocol?
    ensures forall j | 0 <= j < i :: !caps[j].Multiprotocol?
  {
    if caps == [] || caps[0].Multiprotocol? then 0 else FirstMp(caps[1..]) + 1
  }

  /** One line per capability, and one header in front of the first multiprotocol one. */
  function Listing(caps: seq<Cap>, local: seq<Cap>, remote: seq<Cap>): seq<Line> {
    var i, entries := FirstMp(caps), Entries(caps, local, remote);
    if i == |caps| then entries else entries[..i] + [Header] + entries[i..]
  }

  /** The lines of the first i capabilities. */
  ghost function Partial(entries: seq<Line>, mp: nat, i: nat): seq<Line>
    requires mp <= |entries| && i <= |entries|
  {
    if i <= mp then entries[..i] else entries[..mp] + [Header] + entries[mp..i]
  }

  lemma PartialStep(entries: seq<Line>, mp: nat, i: nat)
    requires mp <= |entries| && i < |entries|
    ensures Partial(entries, mp, i + 1) ==
            (if i == mp then Partial(entries, mp, i) + [Header] else Partial(entries, mp, i)) + [entries[i]]
  {
  }

  method Print(caps: seq<Cap>, local: seq<Cap>, remote: seq<Cap>) returns (lines: seq<Line>)
    ensures lines == Listing(caps, local, remote)
  {
    lines := [];
    var firstMp := true;
    ghost var mp, entries := FirstMp(caps), Entries(caps, local, remote);
    for i := 0 to |caps|
      invariant firstMp <==> i <= mp
      invariant lines == Partial(entries, mp, i)
    {
      var c := caps[i];
      var l := Lookup(c, local);
      var r := Lookup(c, remote);
      if c.Code() == MULTIPROTOCOL && firstMp {
        lines := lines + [Header];
        firstMp := false;
      }
      lines := lines + [Entry(c, Support(l.Some?, r.Some?))];
      PartialStep(entries, mp, i);
    }
    assert entries[..|caps|] == entries && entries[mp..|caps|] == entries[mp..];
  }

  /** The capabilities of the entry lines, in order. */
  function CapsOf(lines: seq<Line>): seq<Cap> {
    if lines == [] then []
    else
      var n := |lines| - 1;
      CapsOf(lines[..n]) + if lines[n].Entry? then [lines[n].cap] else []
  }

  lemma {:induction false} CapsOfConcat(a: seq<Line>, b: seq<Line>)
    ensures CapsOf(a + b) == CapsOf(a) + CapsOf(b)
  {
    if b == [] {
      assert a + b == a;
    } else {
      var n := |b| - 1;
      CapsOfConcat(a, b[..n]);
      assert (a + b)[..|a| + n] == a + b[..n];
    }
  }

  lemma {:induction false} CapsOfEntries(caps: seq<Cap>, local: seq<Cap>, remote: seq<Cap>)
    ensures CapsOf(Entries(caps, local, remote)) == caps
  {
    if caps != [] {
      var n := |caps| - 1;
      CapsOfEntries(caps[..n], local, remote);
      assert Entries(caps, local, remote)[..n] == Entries(caps[..n], local, remote);
      assert caps == caps[..n] + [caps[n]];
    }
  }

  /** Called advertised exactly if its key is in the local list, and received exactly if it is in the remote one. */
  predicate LabelIsExact(l: Line, local: seq<Cap>, remote: seq<Cap>) {
    l.Entry? ==>
      && (l.support.advertised <==> KeyOf(l.cap) in Keys(local))
      && (l.support.received <==> KeyOf(l.cap) in Keys(remote))
  }

  lemma WithHeader(lines: seq<Line>, i: nat, k: nat)
    requires i <= |lines| && k <= |lines|
    ensures (lines[..i] + [Header] + lines[i..])[k]
            == if k < i then lines[k] else if k == i then Header else lines[k - 1]
  {
  }

  lemma CapsWithHeader(a: seq<Line>, b: seq<Line>)
    ensures CapsOf(a + [Header] + b) == CapsOf(a + b)
  {
    CapsOfConcat(a, b);
    CapsOfConcat(a + [Header], b);
    CapsOfHeader(a);
  }

  lemma CapsOfHeader(lines: seq<Line>)
    ensures CapsOf(lines + [Header]) == CapsOf(lines)
  {
    assert (lines + [Header])[..|lines|] == lines;
  }

  /** The lines name the given capabilities in order. */
  lemma LinesNameCaps(caps: seq<Cap>, local: seq<Cap>, remote: seq<Cap>)
    ensures CapsOf(Listing(caps, local, remote)) == caps
  {
    CapsOfEntries(caps, local, remote);
    var i, entries := FirstMp(caps), Entries(caps, local, remote);
    CapsWithHeader(entries[..i], entries[i..]);
    assert entries[..i] + entries[i..] == entries;
  }

  /** Every line is labelled by exactly the sides that have its capability, which is one of the given ones. */
  lemma LabelsAreExact(caps: seq<Cap>, local: seq<Cap>, remote: seq<Cap>, k: nat)
    requires k < |Listing(caps, local, remote)|
    ensures LabelIsExact(Listing(caps, local, remote)[k], local, remote)
    ensures Listing(caps, local, remote)[k].Entry? ==> Listing(caps, local, remote)[k].cap in caps
  {
    if FirstMp(caps) < |caps| {
      WithHeader(Entries(caps, local, remote), FirstMp(caps), k);
    }
  }

  /** A capability that only the local side has is called advertised, and one of the remote side received. */
  lemma OneSided(code: OtherCode)
    ensures Listing([Other(code, [])], [Other(code, [])], []) == [Entry(Other(code, []), Support(true, false))]
    ensures Listing([Other(code, [])], [], [Other(code, [])]) == [Entry(Other(code, []), Support(false, true))]
  {
    KeysOfOne(Other(code, []));
  }

  lemma SortedKeys(local: seq<Cap>, remote: seq<Cap>, sorted: seq<Cap>)
    requires SortedOutcome(local + Added(local, remote), sorted)
    ensures Keys(sorted) == Keys(local) + Keys(remote)
    ensures forall c | c in sorted :: KeyOf(c) in Keys(local) || KeyOf(c) in Keys(remote)
  {
    AddedIsExact(local, remote);
    KeysOfConcat(local, Added(local, remote));
    SameKeys(local + Added(local, remote), sorted);
    assert forall c | c in sorted :: KeyOf(c) in Keys(sorted);
  }

  lemma SortedLabel(local: seq<Cap>, remote: seq<Cap>, sorted: seq<Cap>, k: nat)
    requires SortedOutcome(local + Added(local, remote), sorted) && k < |Listing(sorted, local, remote)|
    ensures var l := Listing(sorted, local, remote)[k];
            LabelIsExact(l, local, remote) && (l.Entry? ==> l.support.advertised || l.support.received)
  {
    LabelsAreExact(sorted, local, remote, k);
    SortedKeys(local, remote, sorted);
  }

  /**
   The whole listing, whatever order the sort leaves equal codes in: its lines show the sorted
   capabilities, each labelled by exactly the sides that have its key, and never by none.
   */
  lemma ListingIsLabelled(local: seq<Cap>, remote: seq<Cap>, sorted: seq<Cap>)
    requires SortedOutcome(local + Added(local, remote), sorted)
    ensures CapsOf(Listing(sorted, local, remote)) == sorted
    ensures forall k | 0 <= k < |Listing(sorted, local, remote)| ::
              && var l := Listing(sorted, local, remote)[k];
              && LabelIsExact(l, local, remote) && (l.Entry? ==> l.support.advertised || l.support.received)
  {
    LinesNameCaps(sorted, local, remote);
    forall k | 0 <= k < |Listing(sorted, local, remote)|
      ensures var l := Listing(sorted, local, remote)[k];
              LabelIsExact(l, local, remote) && (l.Entry? ==> l.support.advertised || l.support.received)
    {
      SortedLabel(local, remote, sorted, k);
    }
  }

  /**
   It holds all local capabilities and one for every remote-only key; and the multiprotocol
   ones, those with code 1, are one block under one header.
   */
  lemma ListingIsFaithful(local: seq<Cap>, remote: seq<Cap>, sorted: seq<Cap>) returns (lo: nat, hi: nat)
    requires SortedOutcome(local + Added(local, remote), sorted)
    ensures multiset(sorted) == multiset(local) + multiset(Added(local, remote))
    ensures Keys(sorted) == Keys(local) + Keys(remote)
    ensures MpBlock(sorted, lo, hi)
    ensures Listing(sorted, local, remote) ==
            Entries(sorted[..lo], local, remote)
            + (if lo < hi then [Header] else []) + Entries(sorted[lo..hi], local, remote)
            + Entries(sorted[hi..], local, remote)
  {
    SortedKeys(local, remote, sorted);
    lo, hi := BlockListing(local + Added(local, remote), sorted, local, remote);
  }

  /** Exactly the capabilities from lo up to hi are multiprotocol. */
  predicate MpBlock(caps: seq<Cap>, lo: nat, hi: nat) {
    && lo <= hi <= |caps|
    && forall i | 0 <= i < |caps| :: caps[i].Code() == 1 <==> lo <= i < hi
  }

  lemma SameKeys(a: seq<Cap>, b: seq<Cap>)
    requires multiset(a) == multiset(b)
    ensures Keys(a) == Keys(b)
  {
    assert forall c :: c in a <==> c in multiset(a);
    assert forall c :: c in b <==> c in multiset(b);
  }

  lemma SortedHasMpBlock(caps: seq<Cap>, sorted: seq<Cap>) returns (lo: nat, hi: nat)
    requires SortedOutcome(caps, sorted)
    ensures MpBlock(sorted, lo, hi) && lo == FirstMp(sorted)
  {
    lo := FirstMp(sorted);
    hi := lo;
    while hi < |sorted| && sorted[hi].Multiprotocol?
      invariant lo <= hi <= |sorted|
      invariant forall i | lo <= i < hi :: sorted[i].Multiprotocol?
    {
      hi := hi + 1;
    }
    assert forall i | hi < i < |sorted| :: sorted[hi].Code() <= sorted[i].Code();
    assert hi < |sorted| && lo < hi ==> sorted[lo].Code() <= sorted[hi].Code();
  }

  lemma BlockListing(caps: seq<Cap>, sorted: seq<Cap>, local: seq<Cap>, remote: seq<Cap>)
    returns (lo: nat, hi: nat)
    requires SortedOutcome(caps, sorted)
    ensures MpBlock(sorted, lo, hi)
    ensures Listing(sorted, local, remote) ==
            Entries(sorted[..lo], local, remote)
            + (if lo < hi then [Header] else []) + Entries(sorted[lo..hi], local, remote)
            + Entries(sorted[hi..], local, remote)
  {
    lo, hi := SortedHasMpBlock(caps, sorted);
    var entries := Entries(sorted, local, remote);
    EntriesOfSlice(sorted, 0, lo, local, remote);
    EntriesOfSlice(sorted, lo, hi, local, remote);
    EntriesOfSlice(sorted, hi, |sorted|, local, remote);
    assert sorted[hi..] == sorted[hi..|sorted|] && sorted[..lo] == sorted[0..lo];
    ThreeParts(entries, lo, hi);
  }

  lemma EntriesOfSlice(caps: seq<Cap>, i: nat, j: nat, local: seq<Cap>, remote: seq<Cap>)
    requires i <= j <= |caps|
    ensures Entries(caps[i..j], local, remote) == Entries(caps, local, remote)[i..j]
  {
  }

  lemma ThreeParts(ls: seq<Line>, lo: nat, hi: nat)
    requires lo <= hi <= |ls|
    ensures ls == ls[0..lo] + ls[lo..hi] + ls[hi..|ls|]
    ensures ls[..lo] + [Header] + ls[lo..] == ls[0..lo] + [Header] + ls[lo..hi] + ls[hi..|ls|]
  {
    assert ls[lo..] == ls[lo..hi] + ls[hi..|ls|];
  }
}
