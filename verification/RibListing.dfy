/**
 `showNeighborRib`: the prefix behind a VRF destination's route distinguisher, the order
 of the listing, and the split into accepted and rejected paths.
 */
module RibListing {
  import opened Bytes
  import opened Text
  import opened Ordering
  import opened Prefixes

  datatype Path = Path(id: nat, filtered: bool)

  class Destination {
    const prefix: string
    var paths: seq<Path>

    constructor (prefix: string, paths: seq<Path>)
      ensures this.prefix == prefix && this.paths == paths
    {
      this.prefix := prefix;
      this.paths := paths;
    }
  }

  // -------------------------------------------------------------- VRF prefix

  function PrefixText(vrf: bool, text: string): string {
    if vrf then
      var s := SplitN(text, ':', 3);
      s[|s| - 1]
    else text
  }

  /** Of "a:b:p" the prefix is p, colons of an IPv6 prefix included. */
  lemma VrfPrefix(a: string, b: string, p: string)
    requires ':' !in a && ':' !in b
    ensures PrefixText(true, a + ":" + b + ":" + p) == p
  {
    var tail := b + ":" + p;
    var text := a + ":" + tail;
    assert text == a + ":" + b + ":" + p;
    IndexOfJoined(a, ':', tail);
    IndexOfJoined(b, ':', p);
    assert text[|a| + 1..] == tail && tail[|b| + 1..] == p;
    assert SplitN(p, ':', 1) == [p];
    assert SplitN(tail, ':', 2) == [tail[..|b|]] + [p];
  }

  // ------------------------------------------------------------ sorted table

  datatype Entry = Entry(ip: seq<byte>, dst: Destination)

  function IpOf(parse: Parser, vrf: bool, d: Destination): Option<seq<byte>> {
    var n := parse(PrefixText(vrf, d.prefix));
    if n.None? then None else Some(n.value.ip)
  }

  /** The list that is sorted. A prefix that does not parse is a nil dereference. */
  method Collect(parse: Parser, vrf: bool, rib: seq<Destination>) returns (l: Option<seq<Entry>>)
    ensures l.Some? <==> forall i | 0 <= i < |rib| :: IpOf(parse, vrf, rib[i]).Some?
    ensures l.Some? ==> Dsts(l.value) == rib
                        && forall i | 0 <= i < |rib| :: Some(l.value[i].ip) == IpOf(parse, vrf, rib[i])
  {
    var entries: seq<Entry> := [];
    for i := 0 to |rib|
      invariant |entries| == i && Dsts(entries) == rib[..i]
      invariant forall j | 0 <= j < i :: Some(entries[j].ip) == IpOf(parse, vrf, rib[j])
    {
      var ip := IpOf(parse, vrf, rib[i]);
      if ip.None? {
        return None;
      }
      entries := entries + [Entry(ip.value, rib[i])];
      assert rib[..i + 1] == rib[..i] + [rib[i]];
    }
    assert rib[..|rib|] == rib;
    l := Some(entries);
  }

  function Dsts(es: seq<Entry>): (ds: seq<Destination>)
    ensures |ds| == |es|
  {
    seq(|es|, i requires 0 <= i < |es| => es[i].dst)
  }

  /** sort.Slice with bytes.Compare: some permutation in which nothing precedes a smaller address. */
  predicate SortedOutcome(l: seq<Entry>, out: seq<Entry>) {
    && multiset(out) == multiset(l)
    && forall i, j | 0 <= i < j < |out| :: !LexLess(out[j].ip, out[i].ip, ByteRank)
  }

  /** Nothing is lost or invented by the sort, and each family comes in numeric order. */
  lemma ListingIsPermutation(l: seq<Entry>, out: seq<Entry>)
    requires SortedOutcome(l, out)
    ensures multiset(Dsts(out)) == multiset(Dsts(l))
    ensures forall i, j | 0 <= i < j < |out| && |out[i].ip| == |out[j].ip| ::
              AddressValue(out[i].ip) <= AddressValue(out[j].ip)
  {
    DstsPermute(l, out);
    forall i, j | 0 <= i < j < |out| && |out[i].ip| == |out[j].ip|
      ensures AddressValue(out[i].ip) <= AddressValue(out[j].ip)
    {
      ByteOrder(out[j].ip, out[i].ip);
    }
  }

  lemma {:induction false} DstsPermute(a: seq<Entry>, b: seq<Entry>)
    requires multiset(a) == multiset(b)
    ensures multiset(Dsts(a)) == multiset(Dsts(b))
    decreases |a|
  {
    if a == [] {
      assert |multiset(b)| == 0;
    } else {
      var n := |a| - 1;
      assert a[n] in multiset(a);
      var k :| 0 <= k < |b| && b[k] == a[n];
      var init, before, after := a[..n], b[..k], b[k + 1..];
      assert a == init + [a[n]] && b == before + [a[n]] + after;
      SameWithout(init, before, a[n], after);
      DstsPermute(init, before + after);
      DstsWith(init, before, a[n], after);
    }
  }

  lemma TakeOut<T>(before: seq<T>, x: T, after: seq<T>)
    ensures multiset(before + [x] + after) == multiset(before + after) + multiset{x}
  {
  }

  lemma SameWithout(init: seq<Entry>, before: seq<Entry>, x: Entry, after: seq<Entry>)
    requires multiset(init + [x]) == multiset(before + [x] + after)
    ensures multiset(init) == multiset(before + after)
  {
    TakeOut(before, x, after);
    assert multiset(init) == multiset(init + [x]) - multiset{x};
    assert multiset(before + after) == multiset(before + [x] + after) - multiset{x};
  }

  lemma DstsWith(init: seq<Entry>, before: seq<Entry>, x: Entry, after: seq<Entry>)
    requires multiset(Dsts(init)) == multiset(Dsts(before + after))
    ensures multiset(Dsts(init + [x])) == multiset(Dsts(before + [x] + after))
  {
    DstsConcat(init, [x]);
    DstsConcat(before, after);
    DstsConcat(before + [x], after);
    DstsConcat(before, [x]);
    assert Dsts([x]) == [x.dst];
    TakeOut(Dsts(before), x.dst, Dsts(after));
  }

  lemma DstsConcat(a: seq<Entry>, b: seq<Entry>)
    ensures Dsts(a + b) == Dsts(a) + Dsts(b)
  {
  }

  // ------------------------------------------------- accepted and rejected

  function Shown(paths: seq<Path>, showFiltered: bool): seq<Path> {
    if paths == [] then []
    else
      var n := |paths| - 1;
      Shown(paths[..n], showFiltered) + (if paths[n].filtered == showFiltered then [paths[n]] else [])
  }

  method FilterPaths(paths: seq<Path>, showFiltered: bool) returns (l: seq<Path>)
    ensures l == Shown(paths, showFiltered)
  {
    l := [];
    for i := 0 to |paths|
      invariant l == Shown(paths[..i], showFiltered)
    {
      assert paths[..i + 1][..i] == paths[..i];
      if paths[i].filtered == showFiltered {
        l := l + [paths[i]];
      }
    }
    assert paths[..|paths|] == paths;
  }

  /** d.Paths is replaced in every listed destination; listing one twice makes no difference. */
  method FilterDestinations(dsts: seq<Destination>, showFiltered: bool)
    modifies dsts
    ensures forall d | d in dsts :: d.paths == Shown(old(d.paths), showFiltered)
  {
    for i := 0 to |dsts|
      invariant forall d | d in dsts ::
                  d.paths == if d in dsts[..i] then Shown(old(d.paths), showFiltered) else old(d.paths)
    {
      ShownIsIdempotent(old(dsts[i].paths), showFiltered);
      var l := FilterPaths(dsts[i].paths, showFiltered);
      dsts[i].paths := l;
      assert dsts[..i + 1] == dsts[..i] + [dsts[i]];
    }
    assert dsts[..|dsts|] == dsts;
  }

  lemma {:induction false} ShownAreOfOneKind(paths: seq<Path>, showFiltered: bool, i: nat)
    requires i < |Shown(paths, showFiltered)|
    ensures Shown(paths, showFiltered)[i].filtered == showFiltered
  {
    var n := |paths| - 1;
    if i < |Shown(paths[..n], showFiltered)| {
      ShownAreOfOneKind(paths[..n], showFiltered, i);
    }
  }

  lemma {:induction false} AllOfOneKindAreShown(paths: seq<Path>, showFiltered: bool)
    requires forall i | 0 <= i < |paths| :: paths[i].filtered == showFiltered
    ensures Shown(paths, showFiltered) == paths
  {
    if paths != [] {
      var n := |paths| - 1;
      AllOfOneKindAreShown(paths[..n], showFiltered);
      assert paths == paths[..n] + [paths[n]];
    }
  }

  lemma ShownIsIdempotent(paths: seq<Path>, showFiltered: bool)
    ensures Shown(Shown(paths, showFiltered), showFiltered) == Shown(paths, showFiltered)
  {
    forall i | 0 <= i < |Shown(paths, showFiltered)|
      ensures Shown(paths, showFiltered)[i].filtered == showFiltered
    {
      ShownAreOfOneKind(paths, showFiltered, i);
    }
    AllOfOneKindAreShown(Shown(paths, showFiltered), showFiltered);
  }

  /** Put two lists together again, taking from the first where the pattern says so. */
  function Weave(pattern: seq<bool>, a: seq<Path>, b: seq<Path>): seq<Path> {
    if pattern == [] then []
    else
      var init := pattern[..|pattern| - 1];
      if pattern[|pattern| - 1] then
        if a == [] then [] else Weave(init, a[..|a| - 1], b) + [a[|a| - 1]]
      else
        if b == [] then [] else Weave(init, a, b[..|b| - 1]) + [b[|b| - 1]]
  }

  function Pattern(paths: seq<Path>): (p: seq<bool>)
    ensures |p| == |paths|
  {
    seq(|paths|, i requires 0 <= i < |paths| => paths[i].filtered)
  }

  lemma WeaveOneMore(pattern: seq<bool>, a: seq<Path>, b: seq<Path>, p: Path)
    ensures Weave(pattern + [true], a + [p], b) == Weave(pattern, a, b) + [p]
    ensures Weave(pattern + [false], a, b + [p]) == Weave(pattern, a, b) + [p]
  {
  }

  /** Accepted and rejected are complementary and keep the order: together they are the paths again. */
  lemma {:induction false} AcceptedAndRejected(paths: seq<Path>)
    ensures Weave(Pattern(paths), Shown(paths, true), Shown(paths, false)) == paths
    ensures |Shown(paths, true)| + |Shown(paths, false)| == |paths|
  {
    if paths != [] {
      var n := |paths| - 1;
      var init, p := paths[..n], paths[n];
      var rejected, accepted := Shown(init, true), Shown(init, false);
      AcceptedAndRejected(init);
      assert Pattern(paths) == Pattern(init) + [p.filtered];
      assert paths == init + [p];
      WeaveOneMore(Pattern(init), rejected, accepted, p);
      assert rejected + [] == rejected && accepted + [] == accepted;
    }
  }

  /** The address of a destination is that of its own prefix or, in a VRF, of what follows the distinguisher. */
  lemma AddressOf(parse: Parser, d: Destination, a: string, b: string, p: string, n: Network)
    requires parse(p) == Some(n)
    ensures d.prefix == p ==> IpOf(parse, false, d) == Some(n.ip)
    ensures ':' !in a && ':' !in b && d.prefix == a + ":" + b + ":" + p ==> IpOf(parse, true, d) == Some(n.ip)
  {
    if ':' !in a && ':' !in b {
      VrfPrefix(a, b, p);
    }
  }

  /** The rejected paths are those marked filtered. */
  lemma {:induction false} RejectedAreFiltered(paths: seq<Path>, p: Path)
    ensures p in Shown(paths, true) <==> p in paths && p.filtered
    ensures p in Shown(paths, false) <==> p in paths && !p.filtered
  {
    if paths != [] {
      var n := |paths| - 1;
      RejectedAreFiltered(paths[..n], p);
      assert paths == paths[..n] + [paths[n]];
    }
  }
}
