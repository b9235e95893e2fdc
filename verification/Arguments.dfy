/**
 Keyword arguments: `extractReserved` groups a word list by its reserved words and
 checks how many words each of them takes, and `modNeighbor` reads the groups.
 */
module Arguments {
  import opened Bytes

  /** paramFlag, paramSingle, paramList: no word, one word, one or more. */
  datatype Arity = Flag | Single | List

  type Keys = map<string, Arity>
  type Groups = map<string, seq<string>>

  function Words(m: Groups, k: string): seq<string> {
    if k in m then m[k] else []
  }

  // ---------------------------------------------------------- the grouping

  datatype Scan = Scan(groups: Groups, key: string)

  /** One more argument: a reserved word opens an empty group, any other word joins the open one. */
  function Add(s: Scan, keys: Keys, a: string): Scan {
    if a in keys then Scan(s.groups[a := []], a)
    else Scan(s.groups[s.key := Words(s.groups, s.key) + [a]], s.key)
  }

  function ScanOf(args: seq<string>, keys: Keys): Scan {
    if args == [] then Scan(map[], "")
    else Add(ScanOf(args[..|args| - 1], keys), keys, args[|args| - 1])
  }

  lemma ScanAdds(args: seq<string>, keys: Keys, a: string)
    ensures ScanOf(args + [a], keys) == Add(ScanOf(args, keys), keys, a)
  {
  }

  // --------------------------------------------------- what the groups mean

  function LastIndex(args: seq<string>, k: string): (i: nat)
    requires k in args
    ensures i < |args| && args[i] == k
    ensures forall j | i < j < |args| :: args[j] != k
  {
    if args[|args| - 1] == k then |args| - 1 else LastIndex(args[..|args| - 1], k)
  }

  /** The unreserved words from position i up to the next reserved word. */
  function RunFrom(args: seq<string>, keys: Keys, i: nat): seq<string>
    requires i <= |args|
    decreases |args| - i
  {
    if i == |args| || args[i] in keys then [] else [args[i]] + RunFrom(args, keys, i + 1)
  }

  predicate Mentioned(args: seq<string>, keys: Keys, k: string) {
    k in keys && k in args
  }

  /** Where the run of k begins: after the last occurrence of a reserved word, or at the front. */
  function RunStart(args: seq<string>, keys: Keys, k: string): (i: nat)
    ensures i <= |args|
  {
    if Mentioned(args, keys, k) then LastIndex(args, k) + 1 else 0
  }

  predicate Owner(args: seq<string>, keys: Keys, k: string) {
    Mentioned(args, keys, k) || (k == "" && args != [] && args[0] !in keys)
  }

  /** The position after the last reserved word, or 0. */
  function OpenStart(args: seq<string>, keys: Keys): (i: nat)
    ensures i <= |args|
    ensures i > 0 ==> args[i - 1] in keys
    ensures forall j | i <= j < |args| :: args[j] !in keys
  {
    if args == [] then 0
    else if args[|args| - 1] in keys then |args|
    else OpenStart(args[..|args| - 1], keys)
  }

  lemma {:induction false} OpenKey(args: seq<string>, keys: Keys)
    ensures var i := OpenStart(args, keys);
            ScanOf(args, keys).key == if i == 0 then "" else args[i - 1]
  {
    if args != [] && args[|args| - 1] !in keys {
      OpenKey(args[..|args| - 1], keys);
    }
  }

  /** A run grows with the next argument exactly when it starts in the open group. */
  lemma {:induction false} RunExtends(args: seq<string>, keys: Keys, i: nat, a: string)
    requires i <= |args|
    ensures RunFrom(args + [a], keys, i) ==
            RunFrom(args, keys, i) + (if a !in keys && OpenStart(args, keys) <= i then [a] else [])
    decreases |args| - i
  {
    if i < |args| {
      RunExtends(args, keys, i + 1, a);
      assert (args + [a])[i] == args[i];
    } else {
      assert RunFrom(args + [a], keys, i + 1) == [];
    }
  }

  lemma RunStartExtends(args: seq<string>, keys: Keys, a: string, k: string)
    ensures RunStart(args + [a], keys, k) == if k == a && a in keys then |args| + 1 else RunStart(args, keys, k)
  {
  }

  /** The run of an owner starts in the open group exactly when it is the open one. */
  lemma OpenOwner(args: seq<string>, keys: Keys, k: string)
    requires Owner(args, keys, k)
    ensures OpenStart(args, keys) <= RunStart(args, keys, k) <==> k == ScanOf(args, keys).key
  {
    OpenKey(args, keys);
    var i := OpenStart(args, keys);
    if i > 0 {
      var c := args[i - 1];
      assert LastIndex(args, c) == i - 1;
      if k != c && Mentioned(args, keys, k) {
        assert args[LastIndex(args, k)] in keys;
        assert args[LastIndex(args, k)] != args[i - 1];
      }
    }
  }

  /**
   What every group is: a reserved word that occurs owns the run of words after its last
   occurrence, "" owns the words before the first reserved one, and nothing else is there.
   */
  lemma {:induction false} GroupMeaning(args: seq<string>, keys: Keys, k: string)
    ensures var m := ScanOf(args, keys).groups;
            && (k in m <==> Owner(args, keys, k))
            && (k in m ==> m[k] == RunFrom(args, keys, RunStart(args, keys, k)))
  {
    if args != [] {
      var init, a := args[..|args| - 1], args[|args| - 1];
      assert args == init + [a];
      GroupMeaning(init, keys, k);
      RunStartExtends(init, keys, a, k);
      RunExtends(init, keys, RunStart(init, keys, k), a);
      if Owner(init, keys, k) {
        OpenOwner(init, keys, k);
      }
      OpenKey(init, keys);
    }
  }

  // ------------------------------------------------------- extractReserved

  predicate Fits(arity: Arity, words: seq<string>) {
    match arity
    case Flag => |words| == 0
    case Single => |words| == 1
    case List => |words| >= 1
  }

  predicate AllFit(m: Groups, keys: Keys) {
    forall k | k in m && k in keys && k != "" :: Fits(keys[k], m[k])
  }

  /**
   The grouping loop, then the arity check over the map in whatever order it is visited.
   The verdict does not depend on that order; only the word blamed does.
   */
  method ExtractReserved(args: seq<string>, keys: Keys) returns (m: Groups, blamed: Option<string>)
    ensures m == ScanOf(args, keys).groups
    ensures blamed.None? <==> AllFit(m, keys)
    ensures blamed.Some? ==> blamed.value in m && blamed.value in keys && !Fits(keys[blamed.value], m[blamed.value])
  {
    m := map[];
    var k := "";
    for i := 0 to |args|
      invariant Scan(m, k) == ScanOf(args[..i], keys)
    {
      assert args[..i + 1] == args[..i] + [args[i]];
      ScanAdds(args[..i], keys, args[i]);
      if args[i] in keys {
        k := args[i];
        m := m[k := []];
      } else {
        m := m[k := Words(m, k) + [args[i]]];
      }
    }
    assert args[..|args|] == args;
    forall q | q in m && q != ""
      ensures q in keys
    {
      GroupMeaning(args, keys, q);
    }
    var unseen := m.Keys;
    while unseen != {}
      invariant unseen <= m.Keys
      invariant forall q | q in m && q !in unseen && q in keys && q != "" :: Fits(keys[q], m[q])
    {
      var q :| q in unseen;
      if q != "" && !Fits(keys[q], m[q]) {
        return m, Some(q);
      }
      unseen := unseen - {q};
    }
    blamed := None;
  }

  /** A key of arity one that passes the check is followed, where it is last mentioned, by exactly one word. */
  lemma SingleWord(args: seq<string>, keys: Keys, k: string)
    requires AllFit(ScanOf(args, keys).groups, keys)
    requires k != "" && Mentioned(args, keys, k) && keys[k] == Single
    ensures var i, m := LastIndex(args, k), ScanOf(args, keys).groups;
            && i + 1 < |args| && args[i + 1] !in keys
            && (i + 2 == |args| || args[i + 2] in keys)
            && k in m && m[k] == [args[i + 1]]
  {
    GroupMeaning(args, keys, k);
    var i := LastIndex(args, k);
    var run := RunFrom(args, keys, i + 1);
    assert |run| == 1;
    assert RunFrom(args, keys, i + 2) == run[1..] == [];
  }

  /** What the arity check asks for, in terms of the words after the last mention. */
  lemma FitsIff(args: seq<string>, keys: Keys, k: string)
    requires k != "" && Mentioned(args, keys, k)
    ensures var i, m := LastIndex(args, k), ScanOf(args, keys).groups;
            var none := i + 1 == |args| || args[i + 1] in keys;
            && k in m
            && (Fits(keys[k], m[k]) <==>
                  match keys[k]
                  case Flag => none
                  case Single => !none && (i + 2 == |args| || args[i + 2] in keys)
                  case List => !none)
  {
    GroupMeaning(args, keys, k);
    var i := LastIndex(args, k);
    if i + 1 < |args| && args[i + 1] !in keys {
      assert RunFrom(args, keys, i + 1) == [args[i + 1]] + RunFrom(args, keys, i + 2);
    }
  }

  // ------------------------------------------------------------ round trip

  datatype Group = Group(key: string, words: seq<string>)

  function Render(lead: seq<string>, groups: seq<Group>): seq<string> {
    if groups == [] then lead
    else
      var g := groups[|groups| - 1];
      Render(lead, groups[..|groups| - 1]) + [g.key] + g.words
  }

  predicate Unreserved(words: seq<string>, keys: Keys) {
    forall i | 0 <= i < |words| :: words[i] !in keys
  }

  predicate Renderable(lead: seq<string>, groups: seq<Group>, keys: Keys) {
    && "" !in keys
    && Unreserved(lead, keys)
    && (forall i | 0 <= i < |groups| :: groups[i].key in keys && Unreserved(groups[i].words, keys))
    && (forall i, j | 0 <= i < j < |groups| :: groups[i].key != groups[j].key)
  }

  function AsMap(lead: seq<string>, groups: seq<Group>): Groups {
    if groups == [] then if lead == [] then map[] else map["" := lead]
    else AsMap(lead, groups[..|groups| - 1])[groups[|groups| - 1].key := groups[|groups| - 1].words]
  }

  lemma {:induction false} AsMapAt(lead: seq<string>, groups: seq<Group>, keys: Keys, i: nat)
    requires Renderable(lead, groups, keys) && i < |groups|
    ensures groups[i].key in AsMap(lead, groups) && AsMap(lead, groups)[groups[i].key] == groups[i].words
  {
    if i < |groups| - 1 {
      AsMapAt(lead, groups[..|groups| - 1], keys, i);
    }
  }

  lemma {:induction false} AsMapLead(lead: seq<string>, groups: seq<Group>, keys: Keys)
    requires Renderable(lead, groups, keys)
    ensures "" in AsMap(lead, groups) <==> lead != []
    ensures lead != [] ==> AsMap(lead, groups)[""] == lead
  {
    if groups != [] {
      AsMapLead(lead, groups[..|groups| - 1], keys);
    }
  }

  lemma {:induction false} AsMapOnly(lead: seq<string>, groups: seq<Group>, k: string)
    requires k in AsMap(lead, groups) && k != ""
    ensures exists i :: 0 <= i < |groups| && groups[i].key == k
  {
    var n := |groups| - 1;
    if groups[n].key != k {
      AsMapOnly(lead, groups[..n], k);
      var i :| 0 <= i < n && groups[..n][i].key == k;
      assert groups[i].key == k;
    }
  }

  /** AsMap reads nothing off the order of the groups: it holds each group, the lead, and no more. */
  lemma AsMapIsExact(lead: seq<string>, groups: seq<Group>, keys: Keys)
    requires Renderable(lead, groups, keys)
    ensures var m := AsMap(lead, groups);
            && (forall i | 0 <= i < |groups| :: groups[i].key in m && m[groups[i].key] == groups[i].words)
            && (forall k | k in m :: k == "" || exists i :: 0 <= i < |groups| && groups[i].key == k)
            && ("" in m <==> lead != []) && (lead != [] ==> m[""] == lead)
  {
    forall i | 0 <= i < |groups|
      ensures groups[i].key in AsMap(lead, groups) && AsMap(lead, groups)[groups[i].key] == groups[i].words
    {
      AsMapAt(lead, groups, keys, i);
    }
    forall k | k in AsMap(lead, groups) && k != ""
      ensures exists i :: 0 <= i < |groups| && groups[i].key == k
    {
      AsMapOnly(lead, groups, k);
    }
    AsMapLead(lead, groups, keys);
  }

  /** Several plain words at once. */
  function AddWords(s: Scan, words: seq<string>): Scan {
    Scan(s.groups[s.key := Words(s.groups, s.key) + words], s.key)
  }

  lemma AddAfterWords(s: Scan, keys: Keys, words: seq<string>, a: string)
    requires a !in keys
    ensures Add(AddWords(s, words), keys, a) == AddWords(s, words + [a])
  {
    var had := Words(s.groups, s.key);
    assert had + words + [a] == had + (words + [a]);
  }

  lemma {:induction false} WordsJoin(args: seq<string>, keys: Keys, words: seq<string>)
    requires Unreserved(words, keys) && words != []
    ensures ScanOf(args + words, keys) == AddWords(ScanOf(args, keys), words)
  {
    var n := |words| - 1;
    ScanAdds(args + words[..n], keys, words[n]);
    assert args + words == args + words[..n] + [words[n]];
    if n > 0 {
      WordsJoin(args, keys, words[..n]);
      AddAfterWords(ScanOf(args, keys), keys, words[..n], words[n]);
      assert words[..n] + [words[n]] == words;
    } else {
      assert args + words[..n] == args && words == [words[n]];
    }
  }

  lemma GroupStep(args: seq<string>, keys: Keys, g: Group)
    requires g.key in keys && Unreserved(g.words, keys)
    ensures ScanOf(args + [g.key] + g.words, keys).groups == ScanOf(args, keys).groups[g.key := g.words]
  {
    ScanAdds(args, keys, g.key);
    if g.words == [] {
      assert args + [g.key] + g.words == args + [g.key];
    } else {
      WordsJoin(args + [g.key], keys, g.words);
      WordsOfNewKey(ScanOf(args, keys), g);
    }
  }

  lemma WordsOfNewKey(s: Scan, g: Group)
    ensures AddWords(Scan(s.groups[g.key := []], g.key), g.words).groups == s.groups[g.key := g.words]
  {
    assert [] + g.words == g.words;
  }

  /** Rendering groups with distinct keys, in any order, and grouping again gives them back. */
  lemma {:induction false} GroupsOfRender(lead: seq<string>, groups: seq<Group>, keys: Keys)
    requires Renderable(lead, groups, keys)
    ensures ScanOf(Render(lead, groups), keys).groups == AsMap(lead, groups)
  {
    if groups == [] {
      if lead != [] {
        WordsJoin([], keys, lead);
        assert [] + lead == lead;
      }
    } else {
      var init := groups[..|groups| - 1];
      GroupsOfRender(lead, init, keys);
      GroupStep(Render(lead, init), keys, groups[|groups| - 1]);
    }
  }
}
