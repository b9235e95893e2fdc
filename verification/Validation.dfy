/** RPKI validation of one destination: `showValidationInfo` prints each origin AS once. */
module Validation {

  type Asn = nat

  datatype Attr = AsPath(segments: seq<seq<Asn>>) | Other

  /** The value of the last AS_PATH attribute; none is like an empty one. */
  function AsPathOf(attrs: seq<Attr>): seq<seq<Asn>> {
    if attrs == [] then []
    else if attrs[|attrs| - 1].AsPath? then attrs[|attrs| - 1].segments
    else AsPathOf(attrs[..|attrs| - 1])
  }

  /** It is the attribute after which no AS_PATH follows. */
  lemma {:induction false} AsPathIsLast(attrs: seq<Attr>, i: nat)
    requires i < |attrs| && attrs[i].AsPath? && forall j | i < j < |attrs| :: !attrs[j].AsPath?
    ensures AsPathOf(attrs) == attrs[i].segments
  {
    if i < |attrs| - 1 {
      AsPathIsLast(attrs[..|attrs| - 1], i);
    }
  }

  /**
   A path as the daemon sends it. The validation result is there only while the daemon has an
   RPKI server; the prefix is nil if it cannot be decoded.
   */
  datatype Path = Path(attrs: seq<Attr>, validated: bool, decoded: bool)

  /** A local path has no AS to show; an empty last segment has no last AS to index. */
  datatype Kind = Local | Malformed | From(origin: Asn)

  function KindOf(p: Path): Kind {
    var segments := AsPathOf(p.attrs);
    if segments == [] then Local
    else
      var last := segments[|segments| - 1];
      if last == [] then Malformed else From(last[|last| - 1])
  }

  /** The origin is the last AS of the last segment of the last AS_PATH; none at all is a local path. */
  lemma OriginIsLast(before: seq<Attr>, segments: seq<seq<Asn>>, seg: seq<Asn>, a: Asn, after: seq<Attr>, p: Path)
    requires forall i | 0 <= i < |after| :: !after[i].AsPath?
    requires p.attrs == before + [AsPath(segments + [seg + [a]])] + after
    ensures KindOf(p) == From(a)
  {
    var attrs := p.attrs;
    assert attrs[|before|] == AsPath(segments + [seg + [a]]);
    assert forall j | |before| < j < |attrs| :: attrs[j] == after[j - |before| - 1];
    AsPathIsLast(attrs, |before|);
  }

  lemma {:induction false} NoAsPathIsLocal(p: Path)
    requires forall i | 0 <= i < |p.attrs| :: !p.attrs[i].AsPath?
    ensures KindOf(p) == Local
    decreases |p.attrs|
  {
    if p.attrs != [] {
      NoAsPathIsLocal(p.(attrs := p.attrs[..|p.attrs| - 1]));
    }
  }

  /** A block reads the validation result and the prefix, neither of which may be nil. */
  predicate Printable(p: Path) {
    p.validated && p.decoded
  }

  /** The shownAs map, which the callers share. */
  class ShownAs {
    var asns: set<Asn>

    constructor ()
      ensures asns == {}
    {
      asns := {};
    }

    /** checkOriginAsWasNotShown, for a path with a last AS. */
    method CheckNotShown(origin: Asn) returns (isNew: bool)
      modifies this
      ensures isNew <==> origin !in old(asns)
      ensures asns == old(asns) + {origin}
    {
      if origin in asns {
        return false;
      }
      asns := asns + {origin};
      return true;
    }
  }

  /** How many paths come before the first one that is local or malformed. */
  function Listable(paths: seq<Path>): (n: nat)
    ensures n <= |paths|
    ensures n < |paths| ==> !KindOf(paths[n]).From?
    ensures forall i | 0 <= i < n :: KindOf(paths[i]).From?
  {
    if paths == [] || !KindOf(paths[0]).From? then 0 else Listable(paths[1..]) + 1
  }

  ghost predicate FirstOfItsOrigin(paths: seq<Path>, i: nat)
    requires i < |paths|
  {
    forall j | 0 <= j < i :: KindOf(paths[j]) != KindOf(paths[i])
  }

  ghost function Origins(paths: seq<Path>, n: nat): set<Asn>
    requires n <= |paths|
  {
    set i | 0 <= i < n && KindOf(paths[i]).From? :: KindOf(paths[i]).origin
  }

  /** The listing does not get past path i. A repeated origin is passed over before anything is read. */
  ghost predicate Stops(paths: seq<Path>, i: nat)
    requires i < |paths|
  {
    !KindOf(paths[i]).From? || (FirstOfItsOrigin(paths, i) && !Printable(paths[i]))
  }

  /** From path i on, the first one that the listing does not get past. */
  ghost function ReachedFrom(paths: seq<Path>, i: nat): (n: nat)
    requires i <= |paths|
    ensures i <= n <= |paths|
    ensures n < |paths| ==> Stops(paths, n)
    ensures forall k: nat | i <= k < n :: !Stops(paths, k)
    decreases |paths| - i
  {
    if i == |paths| || Stops(paths, i) then i else ReachedFrom(paths, i + 1)
  }

  ghost function Reached(paths: seq<Path>): (n: nat)
    ensures n <= |paths|
  {
    ReachedFrom(paths, 0)
  }

  predicate Increasing(blocks: seq<nat>) {
    forall j, k | 0 <= j < k < |blocks| :: blocks[j] < blocks[k]
  }

  lemma IncreasingAppend(blocks: seq<nat>, i: nat)
    requires Increasing(blocks) && forall k | 0 <= k < |blocks| :: blocks[k] < i
    ensures Increasing(blocks + [i])
  {
  }

  /** Which paths have a block printed, given that the listing gets past the first n. */
  ghost predicate BlocksAre(paths: seq<Path>, n: nat, blocks: seq<nat>) {
    && n <= |paths|
    && (forall k | 0 <= k < |blocks| :: blocks[k] < n && FirstOfItsOrigin(paths, blocks[k]))
    && Increasing(blocks)
    && (forall i: nat | i < n && FirstOfItsOrigin(paths, i) :: i in blocks)
  }

  /** The error is that of a local path; a crash is a nil pointer or an index out of range. */
  datatype End = Complete | LocalError | Crash

  /** Why the listing stops at a path that it does not get past. */
  function StopAt(p: Path): End {
    if KindOf(p).Local? && p.decoded then LocalError else Crash
  }

  function OriginOf(p: Path): set<Asn> {
    if KindOf(p).From? then {KindOf(p).origin} else {}
  }

  /** A path with an AS that is not in the map. */
  predicate IsNew(p: Path, asns: set<Asn>) {
    KindOf(p).From? && KindOf(p).origin !in asns
  }

  /** showValidationInfo: the origin is entered into the map before the validation result is read. */
  method ShowValidationInfo(p: Path, shown: ShownAs) returns (printed: bool, end: End)
    modifies shown
    ensures shown.asns == old(shown.asns) + OriginOf(p)
    ensures printed <==> IsNew(p, old(shown.asns)) && Printable(p)
    ensures end == if printed || (KindOf(p).From? && !IsNew(p, old(shown.asns))) then Complete else StopAt(p)
  {
    var kind := KindOf(p);
    if !kind.From? {
      return false, StopAt(p);
    }
    var isNew := shown.CheckNotShown(kind.origin);
    if !isNew {
      return false, Complete;
    }
    if !p.validated || !p.decoded {
      return false, Crash;
    }
    return true, Complete;
  }

  /**
   The loop over a destination's paths, with a new map. A block is printed for exactly the
   first path of each origin, in path order, as far as the listing gets; the map holds the
   origins seen, that of a path which then crashes included.
   */
  method ShowValidation(paths: seq<Path>) returns (blocks: seq<nat>, shownAs: set<Asn>, end: End)
    ensures BlocksAre(paths, Reached(paths), blocks)
    ensures var n := Reached(paths);
            if n == |paths| then end == Complete && shownAs == Origins(paths, n)
            else end == StopAt(paths[n]) && shownAs == Origins(paths, n + 1)
  {
    var shown := new ShownAs();
    blocks, end := [], Complete;
    for i := 0 to |paths|
      invariant i <= Reached(paths) && end == Complete
      invariant BlocksAre(paths, i, blocks) && shown.asns == Origins(paths, i)
    {
      OnePath(paths, i, blocks);
      var printed;
      printed, end := ShowValidationInfo(paths[i], shown);
      if end != Complete {
        return blocks, shown.asns, end;
      }
      blocks := blocks + if printed then [i] else [];
    }
    shownAs := shown.asns;
  }

  /** What one turn of the loop comes to. */
  lemma OnePath(paths: seq<Path>, i: nat, blocks: seq<nat>)
    requires i < |paths| && i <= Reached(paths) && BlocksAre(paths, i, blocks)
    ensures Origins(paths, i + 1) == Origins(paths, i) + OriginOf(paths[i])
    ensures var p, isNew := paths[i], IsNew(paths[i], Origins(paths, i));
            if !KindOf(p).From? || (isNew && !Printable(p)) then i == Reached(paths)
            else i + 1 <= Reached(paths) && BlocksAre(paths, i + 1, blocks + if isNew then [i] else [])
  {
    OriginsGrow(paths, i);
    SeenIff(paths, i);
    ReachedAt(paths, i);
    BlocksGrow(paths, i, blocks);
    assert blocks + [] == blocks;
  }

  lemma ReachedAt(paths: seq<Path>, i: nat)
    requires i < |paths| && i <= Reached(paths)
    ensures Stops(paths, i) <==> i == Reached(paths)
  {
  }

  lemma BlocksGrow(paths: seq<Path>, i: nat, blocks: seq<nat>)
    requires i < |paths| && BlocksAre(paths, i, blocks)
    ensures BlocksAre(paths, i + 1, if FirstOfItsOrigin(paths, i) then blocks + [i] else blocks)
  {
    if FirstOfItsOrigin(paths, i) {
      var all := blocks + [i];
      IncreasingAppend(blocks, i);
      assert all[|blocks|] == i;
      forall j: nat | j < i + 1 && FirstOfItsOrigin(paths, j)
        ensures j in all
      {
        if j < i {
          assert j in blocks;
        }
      }
    }
  }

  lemma OriginsGrow(paths: seq<Path>, i: nat)
    requires i < |paths|
    ensures Origins(paths, i + 1) == Origins(paths, i) + OriginOf(paths[i])
  {
  }

  lemma SeenIff(paths: seq<Path>, i: nat)
    requires i < |paths|
    ensures IsNew(paths[i], Origins(paths, i)) <==> KindOf(paths[i]).From? && FirstOfItsOrigin(paths, i)
  {
  }

  // -------------------------------------------------------------- properties

  lemma ReachedIsListable(paths: seq<Path>)
    ensures Reached(paths) <= Listable(paths)
  {
    if Reached(paths) > Listable(paths) {
      assert Stops(paths, Listable(paths));
    }
  }

  /**
   Exactly when only a local or malformed path, or the end, stops the listing: every path
   before it that is the first of its origin came with a validation result and a prefix.
   */
  lemma ListsAllIff(paths: seq<Path>)
    ensures Reached(paths) == Listable(paths)
            <==> forall i: nat | i < Listable(paths) && FirstOfItsOrigin(paths, i) ::
                   paths[i].validated && paths[i].decoded
  {
    var n := Reached(paths);
    ReachedIsListable(paths);
    if n == Listable(paths) {
      forall i: nat | i < n && FirstOfItsOrigin(paths, i)
        ensures paths[i].validated && paths[i].decoded
      {
        assert !Stops(paths, i);
      }
    }
  }

  /** An error is reported exactly for a local path whose prefix can be named; all else that stops is a crash. */
  lemma ErrorIff(paths: seq<Path>)
    requires Reached(paths) < |paths|
    ensures var p := paths[Reached(paths)];
            && StopAt(p) != Complete
            && (StopAt(p) == LocalError <==> AsPathOf(p.attrs) == [] && p.decoded)
  {
  }

  /** Without an RPKI server no path has a result: then no block is ever printed, for any paths. */
  lemma NothingWithoutRpki(paths: seq<Path>, blocks: seq<nat>)
    requires (forall p | p in paths :: !p.validated) && BlocksAre(paths, Reached(paths), blocks)
    ensures Reached(paths) == 0 && blocks == []
  {
    if paths != [] {
      assert paths[0] in paths && FirstOfItsOrigin(paths, 0);
      assert Stops(paths, 0);
    }
    SomeBlock(paths, Reached(paths), blocks);
  }

  lemma SomeBlock(paths: seq<Path>, n: nat, blocks: seq<nat>)
    requires BlocksAre(paths, n, blocks)
    ensures blocks != [] ==> blocks[0] < n
  {
  }

  /** The one path from AS 65001 is listable, but without a result its listing crashes at once. */
  lemma OnePathCrashes()
    ensures var paths := [Path([AsPath([[65001]])], false, true)];
            && Listable(paths) == 1 && Reached(paths) == 0 && StopAt(paths[0]) == Crash
            && Origins(paths, 1) == {65001}
  {
    var paths := [Path([AsPath([[65001]])], false, true)];
    assert KindOf(paths[0]) == From(65001) && FirstOfItsOrigin(paths, 0);
    assert Listable(paths[1..]) == 0;
    OriginsGrow(paths, 0);
  }

  /**
   No origin is printed twice. Every origin before the path that stops the listing has its
   block; and every one before the first local or malformed path exactly if that is what stops it.
   */
  lemma OneBlockPerOrigin(paths: seq<Path>, blocks: seq<nat>)
    requires BlocksAre(paths, Reached(paths), blocks)
    ensures forall j, k | 0 <= j < k < |blocks| :: KindOf(paths[blocks[j]]) != KindOf(paths[blocks[k]])
    ensures forall a | a in Origins(paths, Reached(paths)) :: HasBlock(paths, blocks, a)
    ensures (forall a | a in Origins(paths, Listable(paths)) :: HasBlock(paths, blocks, a))
            <==> Reached(paths) == Listable(paths)
  {
    var n := Reached(paths);
    forall a | a in Origins(paths, n)
      ensures HasBlock(paths, blocks, a)
    {
      var i :| 0 <= i < n && KindOf(paths[i]) == From(a);
      var f := FirstLike(paths, i);
      assert f in blocks;
    }
    ReachedIsListable(paths);
    if n < Listable(paths) {
      assert FirstOfItsOrigin(paths, n);
      assert KindOf(paths[n]).origin in Origins(paths, Listable(paths));
      assert !HasBlock(paths, blocks, KindOf(paths[n]).origin);
    }
  }

  ghost predicate HasBlock(paths: seq<Path>, blocks: seq<nat>, a: Asn) {
    exists k :: 0 <= k < |blocks| && blocks[k] < |paths| && KindOf(paths[blocks[k]]) == From(a)
  }

  lemma {:induction false} FirstLike(paths: seq<Path>, i: nat) returns (f: nat)
    requires i < |paths|
    ensures f <= i && KindOf(paths[f]) == KindOf(paths[i]) && FirstOfItsOrigin(paths, f)
  {
    if FirstOfItsOrigin(paths, i) {
      f := i;
    } else {
      var j :| 0 <= j < i && KindOf(paths[j]) == KindOf(paths[i]);
      f := FirstLike(paths, j);
    }
  }
}
