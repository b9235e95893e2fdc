/**
 `extractDefaultAction`: take the pair "default accept|reject" out of a list of policy
 names. The names left over are returned as a slice of the caller's own array, which
 is shifted in place.
 */
module PolicyArguments {

  datatype Action = Unspecified | Accept | Reject

  datatype Extraction =
    | Missing                              // "default" is the last word
    | Invalid                              // followed by something else than an action
    | Extracted(names: seq<string>, action: Action)

  function Lower(c: char): char {
    if 'A' <= c <= 'Z' then (c as int + 32) as char else c
  }

  /** strings.ToLower, as far as it can matter: no other letter lowers to one of accept or reject. */
  function ToLower(s: string): (t: string)
    ensures |t| == |s|
  {
    seq(|s|, i requires 0 <= i < |s| => Lower(s[i]))
  }

  function ActionOf(word: string): Action {
    if ToLower(word) == "accept" then Accept
    else if ToLower(word) == "reject" then Reject
    else Unspecified
  }

  function FirstDefault(args: seq<string>): (i: nat)
    ensures i <= |args|
    ensures i < |args| ==> args[i] == "default"
    ensures forall j | 0 <= j < i :: args[j] != "default"
  {
    if args == [] || args[0] == "default" then 0 else FirstDefault(args[1..]) + 1
  }

  function Extract(args: seq<string>): Extraction {
    var i := FirstDefault(args);
    if i == |args| then Extracted(args, Unspecified)
    else if i + 1 == |args| then Missing
    else if ActionOf(args[i + 1]) == Unspecified then Invalid
    else Extracted(args[..i] + args[i + 2..], ActionOf(args[i + 1]))
  }

  /** The array afterwards: everything behind the pair moves down two slots, the last two stay. */
  function Shifted(args: seq<string>): seq<string> {
    if Extract(args).Extracted? && FirstDefault(args) < |args|
    then Extract(args).names + args[|args| - 2..]
    else args
  }

  /** append(args[:idx], args[idx+2:]...), with the copy it amounts to written out. */
  method ExtractDefaultAction(a: array<string>) returns (r: Extraction)
    modifies a
    ensures r == Extract(old(a[..]))
    ensures a[..] == Shifted(old(a[..]))
    ensures r.Extracted? ==> a[..|r.names|] == r.names
  {
    ghost var args := a[..];
    var idx := 0;
    while idx < a.Length
      invariant 0 <= idx <= a.Length && a[..] == args
      invariant forall j | 0 <= j < idx :: args[j] != "default"
    {
      if a[idx] == "default" {
        assert FirstDefault(args) == idx;
        if a.Length < idx + 2 {
          return Missing;
        }
        var action := ActionOf(a[idx + 1]);
        if action == Unspecified {
          return Invalid;
        }
        MoveDown(a, idx);
        return Extracted(a[..a.Length - 2], action);
      }
      idx := idx + 1;
    }
    assert FirstDefault(args) == |args|;
    r := Extracted(a[..], Unspecified);
  }

  method MoveDown(a: array<string>, idx: nat)
    requires idx + 2 <= a.Length
    modifies a
    ensures a[..] == old(a[..idx]) + old(a[idx + 2..]) + old(a[a.Length - 2..])
  {
    var j := idx;
    while j + 2 < a.Length
      invariant idx <= j && j + 2 <= a.Length
      invariant forall k | 0 <= k < idx :: a[k] == old(a[k])
      invariant forall k | idx <= k < j :: a[k] == old(a[k + 2])
      invariant forall k | j <= k < a.Length :: a[k] == old(a[k])
    {
      a[j] := a[j + 2];
      j := j + 1;
    }
  }

  /** Wherever the pair stands among names, and however it is capitalised, it leaves exactly the names. */
  lemma ExtractOfInserted(names: seq<string>, i: nat, word: string)
    requires "default" !in names && i <= |names| && ActionOf(word) != Unspecified
    ensures Extract(names[..i] + ["default", word] + names[i..]) == Extracted(names, ActionOf(word))
  {
    var args := names[..i] + ["default", word] + names[i..];
    assert args[i] == "default" && args[i + 1] == word;
    assert forall j | 0 <= j < i :: args[j] == names[j];
    assert FirstDefault(args) == i;
    assert args[..i] + args[i + 2..] == names;
  }

  /** Nothing is lost: the pair put back at its place gives the arguments again. */
  lemma InsertedOfExtract(args: seq<string>)
    requires Extract(args).Extracted? && Extract(args).action != Unspecified
    ensures var i, names := FirstDefault(args), Extract(args).names;
            && i + 1 < |args| && i <= |names|
            && names[..i] + ["default", args[i + 1]] + names[i..] == args
            && (forall j | 0 <= j < i :: names[j] != "default")
  {
    var i, names := FirstDefault(args), Extract(args).names;
    WithoutPair(args, i);
    assert forall j | 0 <= j < i :: names[j] == args[j];
  }

  lemma WithoutPair(args: seq<string>, i: nat)
    requires i + 1 < |args|
    ensures var names := args[..i] + args[i + 2..];
            names[..i] + [args[i], args[i + 1]] + names[i..] == args
  {
    var names := args[..i] + args[i + 2..];
    assert names[..i] == args[..i] && names[i..] == args[i + 2..];
    assert args[i..] == [args[i], args[i + 1]] + args[i + 2..];
  }

  /** Spelled like `lower`, in any mixture of cases. */
  predicate Spells(word: string, lower: string, upper: string)
    requires |lower| == |upper|
  {
    |word| == |lower| && forall i | 0 <= i < |word| :: word[i] == lower[i] || word[i] == upper[i]
  }

  lemma SpellsIff(word: string, lower: string, upper: string)
    requires |lower| == |upper|
    requires forall i | 0 <= i < |lower| :: 'a' <= lower[i] <= 'z' && upper[i] as int == lower[i] as int - 32
    ensures ToLower(word) == lower <==> Spells(word, lower, upper)
  {
    if Spells(word, lower, upper) {
      assert ToLower(word) == lower;
    } else if |word| == |lower| {
      var i :| 0 <= i < |word| && word[i] != lower[i] && word[i] != upper[i];
      assert ToLower(word)[i] != lower[i];
    }
  }

  /** Which words are actions, and which action each of them is. */
  lemma ActionIff(word: string)
    ensures ActionOf(word) == Accept <==> Spells(word, "accept", "ACCEPT")
    ensures ActionOf(word) == Reject <==> Spells(word, "reject", "REJECT")
  {
    SpellsIff(word, "accept", "ACCEPT");
    SpellsIff(word, "reject", "REJECT");
  }
}
