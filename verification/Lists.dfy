/** Parsing a list element by element, stopping at the first failure. */
module Lists {
  import opened Bytes

  function Traverse<A, B>(parse: A -> Option<B>, xs: seq<A>): (r: Option<seq<B>>) {
    if xs == [] then Some([])
    else
      var init, last := Traverse(parse, xs[..|xs| - 1]), parse(xs[|xs| - 1]);
      if init.Some? && last.Some? then Some(init.value + [last.value]) else None
  }

  /** All or nothing: a result exists exactly when every element parses, and then holds them in order. */
  lemma {:induction false} TraverseIff<A, B>(parse: A -> Option<B>, xs: seq<A>)
    ensures var r := Traverse(parse, xs);
            && (r.Some? <==> forall i | 0 <= i < |xs| :: parse(xs[i]).Some?)
            && (r.Some? ==> |r.value| == |xs| && forall i | 0 <= i < |xs| :: parse(xs[i]) == Some(r.value[i]))
  {
    if xs != [] {
      TraverseIff(parse, xs[..|xs| - 1]);
    }
  }

  lemma TraverseFails<A, B>(parse: A -> Option<B>, xs: seq<A>, i: nat)
    requires i < |xs| && parse(xs[i]).None?
    ensures Traverse(parse, xs) == None
  {
  }

  lemma TraverseIs<A, B>(parse: A -> Option<B>, xs: seq<A>, ys: seq<B>)
    requires |xs| == |ys| && forall i | 0 <= i < |xs| :: parse(xs[i]) == Some(ys[i])
    ensures Traverse(parse, xs) == Some(ys)
  {
    TraverseIff(parse, xs);
    var r := Traverse(parse, xs);
    assert r.Some?;
    assert forall i | 0 <= i < |xs| :: Some(r.value[i]) == parse(xs[i]);
    assert r.value == ys;
  }

  /** parseTcpAoKeys, and the family list of modNeighbor: append until an element fails. */
  method ParseAll<A, B>(xs: seq<A>, parse: A -> Option<B>) returns (r: Option<seq<B>>)
    ensures r == Traverse(parse, xs)
  {
    var ys: seq<B> := [];
    for i := 0 to |xs|
      invariant Traverse(parse, xs[..i]) == Some(ys)
    {
      var y := parse(xs[i]);
      if y.None? {
        TraverseFails(parse, xs, i);
        return None;
      }
      assert xs[..i + 1][..i] == xs[..i];
      ys := ys + [y.value];
    }
    assert xs[..|xs|] == xs;
    r := Some(ys);
  }
}
