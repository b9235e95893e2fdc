/** TCP-AO key specifications on the command line: `parseTcpAoKey`, `parseTcpAoDeleteKey` and lists of them. */
module TcpAo {
  import opened Bytes
  import opened Text
  import opened Lists

  datatype Algorithm = HmacSha1_96 | Aes128Cmac96 | HmacSha256_96 | HmacSha256_128

  function AlgorithmName(a: Algorithm): string {
    match a
    case HmacSha1_96 => "hmac-sha-1-96"
    case Aes128Cmac96 => "aes-128-cmac-96"
    case HmacSha256_96 => "hmac-sha-256-96"
    case HmacSha256_128 => "hmac-sha-256-128"
  }

  function ParseAlgorithm(s: string): Option<Algorithm> {
    match s
    case "hmac-sha-1-96" => Some(HmacSha1_96)
    case "aes-128-cmac-96" => Some(Aes128Cmac96)
    case "hmac-sha-256-96" => Some(HmacSha256_96)
    case "hmac-sha-256-128" => Some(HmacSha256_128)
    case _ => None
  }

  const MAX_KEY_LEN := 80

  /** The IDs of a key, and what `add` needs beyond them. */
  datatype Ids = Ids(send: nat, receive: nat)

  datatype Key = Key(ids: Ids, algorithm: Algorithm, exclude: bool, master: seq<byte>)

  predicate ValidIds(k: Ids) {
    k.send <= 255 && k.receive <= 255
  }

  function ParseId(s: string): Option<nat> {
    ParseUint(s, 255)
  }

  function ParseIds(a: string, b: string): Option<Ids> {
    var send, receive := ParseId(a), ParseId(b);
    if send.Some? && receive.Some? then Some(Ids(send.value, receive.value)) else None
  }

  function ParseDeleteKey(s: string): Option<Ids> {
    var fields := Split(s, ',');
    if |fields| != 2 then None else ParseIds(fields[0], fields[1])
  }

  /** Opening, reading and base64-decoding a master key file: any partial function of the path. */
  type KeyFiles = string -> Option<seq<byte>>

  function LoadMasterKey(files: KeyFiles, field: string): Option<seq<byte>> {
    if !("file:" < field) then None
    else
      var key := files(field[5..]);
      if key.Some? && 1 <= |key.value| <= MAX_KEY_LEN then key else None
  }

  function ParseKey(files: KeyFiles, s: string): Option<Key> {
    var fields := Split(s, ',');
    if |fields| != 4 && |fields| != 5 then None
    else
      var ids := ParseIds(fields[0], fields[1]);
      var algorithm := ParseAlgorithm(fields[2]);
      var master := LoadMasterKey(files, fields[3]);
      if ids.None? || algorithm.None? || master.None? then None
      else if |fields| == 5 && fields[4] != "exclude-tcp-options" then None
      else Some(Key(ids.value, algorithm.value, |fields| == 5, master.value))
  }

  // ------------------------------------------------------------- round trips

  function RenderIds(k: Ids): string {
    Join([Print(k.send), Print(k.receive)], ',')
  }

  lemma PrintedHasNoComma(n: nat)
    ensures ',' !in Print(n)
  {
  }

  lemma ParseOfPrintedIds(k: Ids)
    requires ValidIds(k)
    ensures ParseIds(Print(k.send), Print(k.receive)) == Some(k)
  {
    ValueOfPrint(k.send);
    ValueOfPrint(k.receive);
  }

  lemma DeleteKeyRoundTrip(k: Ids)
    requires ValidIds(k)
    ensures ParseDeleteKey(RenderIds(k)) == Some(k)
  {
    PrintedHasNoComma(k.send);
    PrintedHasNoComma(k.receive);
    SplitOfJoin([Print(k.send), Print(k.receive)], ',');
    ParseOfPrintedIds(k);
  }

  function RenderAll(ks: seq<Ids>): (texts: seq<string>)
    ensures |texts| == |ks| && forall i | 0 <= i < |ks| :: texts[i] == RenderIds(ks[i])
  {
    if ks == [] then [] else [RenderIds(ks[0])] + RenderAll(ks[1..])
  }

  /** A list of key specifications parses to the same list, in order. */
  lemma DeleteKeysRoundTrip(ks: seq<Ids>)
    requires forall i | 0 <= i < |ks| :: ValidIds(ks[i])
    ensures Traverse(ParseDeleteKey, RenderAll(ks)) == Some(ks)
  {
    var texts := RenderAll(ks);
    forall i | 0 <= i < |ks|
      ensures ParseDeleteKey(texts[i]) == Some(ks[i])
    {
      DeleteKeyRoundTrip(ks[i]);
    }
    TraverseIs(ParseDeleteKey, texts, ks);
  }

  /** Exactly which texts name a pair: two numbers up to 255 around the only comma. */
  lemma DeleteKeyIff(s: string, k: Ids)
    ensures ParseDeleteKey(s) == Some(k)
            <==> exists a, b :: s == Join([a, b], ',') && ParseIds(a, b) == Some(k)
  {
    if ParseDeleteKey(s) == Some(k) {
      JoinOfSplit(s, ',');
      var fields := Split(s, ',');
      assert fields == [fields[0], fields[1]];
    }
    forall a, b | s == Join([a, b], ',') && ParseIds(a, b) == Some(k)
      ensures ParseDeleteKey(s) == Some(k)
    {
      DigitsHaveNoComma(a);
      DigitsHaveNoComma(b);
      SplitOfJoin([a, b], ',');
    }
  }

  lemma DigitsHaveNoComma(s: string)
    requires IsDigits(s)
    ensures ',' !in s
  {
  }

  function Fields(a: string, b: string, algorithm: Algorithm, path: string, exclude: bool): (fs: seq<string>)
    ensures |fs| == if exclude then 5 else 4
  {
    [a, b, AlgorithmName(algorithm), "file:" + path] + (if exclude then ["exclude-tcp-options"] else [])
  }

  lemma FieldsHaveNoComma(a: string, b: string, algorithm: Algorithm, path: string, exclude: bool)
    requires ',' !in a && ',' !in b && ',' !in path
    ensures forall i | 0 <= i < |Fields(a, b, algorithm, path, exclude)| ::
              ',' !in Fields(a, b, algorithm, path, exclude)[i]
  {
    AlgorithmRoundTrip(algorithm);
  }

  /** s spells out the key k, with IDs a and b and the master key in the file at path. */
  predicate Spells(files: KeyFiles, s: string, k: Key, a: string, b: string, path: string) {
    && s == Join(Fields(a, b, k.algorithm, path, k.exclude), ',')
    && ParseIds(a, b) == Some(k.ids)
    && path != "" && ',' !in path && files(path) == Some(k.master) && 1 <= |k.master| <= 80
  }

  /** Exactly which texts are key specifications, and which key each of them is. */
  lemma KeyIff(files: KeyFiles, s: string, k: Key)
    ensures ParseKey(files, s) == Some(k) <==> exists a, b, path :: Spells(files, s, k, a, b, path)
  {
    if ParseKey(files, s) == Some(k) {
      ParsedKeyIsSpelled(files, s, k);
    }
    forall a, b, path | Spells(files, s, k, a, b, path)
      ensures ParseKey(files, s) == Some(k)
    {
      SpelledKeyParses(files, s, k, a, b, path);
    }
  }

  lemma SpelledKeyParses(files: KeyFiles, s: string, k: Key, a: string, b: string, path: string)
    requires Spells(files, s, k, a, b, path)
    ensures ParseKey(files, s) == Some(k)
  {
    DigitsHaveNoComma(a);
    DigitsHaveNoComma(b);
    AlgorithmRoundTrip(k.algorithm);
    var fields := Fields(a, b, k.algorithm, path, k.exclude);
    FieldsHaveNoComma(a, b, k.algorithm, path, k.exclude);
    SplitOfJoin(fields, ',');
    assert fields[3][5..] == path;
  }

  lemma ParsedKeyIsSpelled(files: KeyFiles, s: string, k: Key)
    requires ParseKey(files, s) == Some(k)
    ensures exists a, b, path :: Spells(files, s, k, a, b, path)
  {
    JoinOfSplit(s, ',');
    var fields := Split(s, ',');
    var path := fields[3][5..];
    assert fields[3] == "file:" + path;
    ParsedAlgorithm(fields[2]);
    assert fields == Fields(fields[0], fields[1], k.algorithm, path, k.exclude);
    assert Spells(files, s, k, fields[0], fields[1], path);
  }

  lemma ParsedAlgorithm(s: string)
    requires ParseAlgorithm(s).Some?
    ensures AlgorithmName(ParseAlgorithm(s).value) == s
  {
  }

  lemma AlgorithmRoundTrip(a: Algorithm)
    ensures ParseAlgorithm(AlgorithmName(a)) == Some(a)
    ensures ',' !in AlgorithmName(a)
  {
  }

  /** An ID is written in decimal and is at most 255. */
  lemma IdIff(s: string, id: nat)
    ensures ParseId(s) == Some(id) <==> s != "" && IsDigits(s) && Value(s) == id <= 255
  {
  }

  lemma AlgorithmNames()
    ensures ParseAlgorithm("hmac-sha-1-96") == Some(HmacSha1_96)
    ensures ParseAlgorithm("aes-128-cmac-96") == Some(Aes128Cmac96)
    ensures ParseAlgorithm("hmac-sha-256-96") == Some(HmacSha256_96)
    ensures ParseAlgorithm("hmac-sha-256-128") == Some(HmacSha256_128)
  {
  }

  /** A pair as it is typed: the first number is the send ID. */
  lemma DeleteKeyAsTyped(a: string, b: string)
    requires a != "" && IsDigits(a) && Value(a) <= 255 && b != "" && IsDigits(b) && Value(b) <= 255
    ensures ParseDeleteKey(a + "," + b) == Some(Ids(Value(a), Value(b)))
  {
    DigitsHaveNoComma(a);
    DigitsHaveNoComma(b);
    TwoFields(a, b);
    SplitOfJoin([a, b], ',');
  }

  lemma TwoFields(a: string, b: string)
    ensures Join([a, b], ',') == a + "," + b
  {
    assert [a, b][1..] == [b] && Join([b], ',') == b;
  }

  /** A key specification as it is typed, with and without the option. */
  lemma KeyAsTyped(files: KeyFiles, a: string, b: string, algorithm: Algorithm, path: string, master: seq<byte>)
    requires ParseId(a).Some? && ParseId(b).Some? && path != "" && ',' !in path
    requires files(path) == Some(master) && 1 <= |master| <= 80
    ensures var ids := Ids(ParseId(a).value, ParseId(b).value);
            var text := a + "," + (b + "," + (AlgorithmName(algorithm) + "," + ("file:" + path)));
            && ParseKey(files, text) == Some(Key(ids, algorithm, false, master))
            && ParseKey(files, a + "," + (b + "," + (AlgorithmName(algorithm) + "," + ("file:" + path + ","
                                 + "exclude-tcp-options")))) == Some(Key(ids, algorithm, true, master))
  {
    var ids := Ids(ParseId(a).value, ParseId(b).value);
    var name, file := AlgorithmName(algorithm), "file:" + path;
    FourFields(a, b, name, file);
    FiveFields(a, b, name, file, "exclude-tcp-options");
    assert Fields(a, b, algorithm, path, false) == [a, b, name, file];
    assert Fields(a, b, algorithm, path, true) == [a, b, name, file, "exclude-tcp-options"];
    SpelledKeyParses(files, Join([a, b, name, file], ','), Key(ids, algorithm, false, master), a, b, path);
    SpelledKeyParses(files, Join([a, b, name, file, "exclude-tcp-options"], ','),
                     Key(ids, algorithm, true, master), a, b, path);
  }

  lemma FourFields(a: string, b: string, c: string, d: string)
    ensures Join([a, b, c, d], ',') == a + "," + (b + "," + (c + "," + d))
  {
    TwoFields(c, d);
    assert [b, c, d][1..] == [c, d] && Join([b, c, d], ',') == b + "," + (c + "," + d);
    assert [a, b, c, d][1..] == [b, c, d];
  }

  lemma FiveFields(a: string, b: string, c: string, d: string, e: string)
    ensures Join([a, b, c, d, e], ',') == a + "," + (b + "," + (c + "," + (d + "," + e)))
  {
    assert [a, b, c, d, e][1..] == [b, c, d, e];
    FourFields(b, c, d, e);
  }
}
