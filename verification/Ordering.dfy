/** Lexicographic order, as Go compares strings and byte slices. */
module Ordering {

  /** a comes before b, elements being compared by rank. */
  predicate LexLess<T>(a: seq<T>, b: seq<T>, rank: T -> int) {
    if b == [] then false
    else if a == [] then true
    else rank(a[0]) < rank(b[0]) || (rank(a[0]) == rank(b[0]) && LexLess(a[1..], b[1..], rank))
  }

  ghost predicate Injective<T(!new)>(rank: T -> int) {
    forall x, y :: rank(x) == rank(y) ==> x == y
  }

  lemma {:induction false} LexIrreflexive<T>(a: seq<T>, rank: T -> int)
    ensures !LexLess(a, a, rank)
  {
    if a != [] {
      LexIrreflexive(a[1..], rank);
    }
  }

  lemma {:induction false} LexTransitive<T>(a: seq<T>, b: seq<T>, c: seq<T>, rank: T -> int)
    requires LexLess(a, b, rank) && LexLess(b, c, rank)
    ensures LexLess(a, c, rank)
    decreases |a|
  {
    if a != [] && rank(a[0]) == rank(b[0]) == rank(c[0]) {
      LexTransitive(a[1..], b[1..], c[1..], rank);
    }
  }

  lemma {:induction false} LexTotal<T(!new)>(a: seq<T>, b: seq<T>, rank: T -> int)
    requires Injective(rank)
    ensures a == b || LexLess(a, b, rank) || LexLess(b, a, rank)
    decreases |a|
  {
    if a != [] && b != [] && rank(a[0]) == rank(b[0]) {
      LexTotal(a[1..], b[1..], rank);
      assert a == [a[0]] + a[1..] && b == [b[0]] + b[1..];
    }
  }

  /** For sequences of one length, a last element only breaks a tie. */
  lemma {:induction false} LexLastBreaksTie<T(!new)>(a: seq<T>, b: seq<T>, x: T, y: T, rank: T -> int)
    requires |a| == |b| && Injective(rank)
    ensures LexLess(a + [x], b + [y], rank) <==> LexLess(a, b, rank) || (a == b && rank(x) < rank(y))
    decreases |a|
  {
    if a == [] {
      assert LexLess([x], [y], rank) <==> rank(x) < rank(y) by {
        assert [x][1..] == [] && [y][1..] == [];
      }
    } else {
      assert (a + [x])[1..] == a[1..] + [x] && (b + [y])[1..] == b[1..] + [y];
      assert a == [a[0]] + a[1..] && b == [b[0]] + b[1..];
      LexLastBreaksTie(a[1..], b[1..], x, y, rank);
    }
  }
}
