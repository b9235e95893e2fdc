/** Decimal numbers and separator-joined fields, as fmt, strconv and strings treat them. */
module Text {
  import opened Bytes

  // ---------------------------------------------------------------- decimal

  predicate IsDigit(c: char) { '0' <= c <= '9' }

  predicate IsDigits(s: string) {
    forall i | 0 <= i < |s| :: IsDigit(s[i])
  }

  function DigitOf(c: char): nat
    requires IsDigit(c)
  {
    c as int - '0' as int
  }

  function Value(s: string): nat
    requires IsDigits(s)
  {
    if s == [] then 0 else Value(s[..|s| - 1]) * 10 + DigitOf(s[|s| - 1])
  }

  /** %d */
  function Print(n: nat): (s: string)
    ensures s != [] && IsDigits(s)
  {
    var d := [('0' as int + n % 10) as char];
    if n < 10 then d else Print(n / 10) + d
  }

  lemma {:induction false} ValueOfPrint(n: nat)
    ensures Value(Print(n)) == n
  {
    if n >= 10 {
      ValueOfPrint(n / 10);
    }
  }

  /** Decimal: a digit more makes ten times the number and the digit. */
  lemma ValueOfMore(s: string, d: nat)
    requires IsDigits(s) && d < 10
    ensures IsDigits(s + ["0123456789"[d]]) && Value(s + ["0123456789"[d]]) == 10 * Value(s) + d
    ensures Value("") == 0
  {
    var t := s + ["0123456789"[d]];
    assert t[..|s|] == s;
  }

  /** strconv.ParseUint(s, 10, bits), where max is 2^bits - 1. */
  function ParseUint(s: string, max: nat): Option<nat> {
    if s != [] && IsDigits(s) && Value(s) <= max then Some(Value(s)) else None
  }

  // ----------------------------------------------------------------- fields

  function IndexOf(s: string, c: char): (i: nat)
    ensures i <= |s|
    ensures i < |s| ==> s[i] == c
    ensures forall j | 0 <= j < i :: s[j] != c
  {
    if s == [] || s[0] == c then 0 else IndexOf(s[1..], c) + 1
  }

  /** strings.Split for a one-character separator. */
  function Split(s: string, sep: char): (fields: seq<string>)
    ensures fields != []
    decreases |s|
  {
    var i := IndexOf(s, sep);
    if i == |s| then [s] else [s[..i]] + Split(s[i + 1..], sep)
  }

  function Join(fields: seq<string>, sep: char): string
    requires fields != []
  {
    if |fields| == 1 then fields[0] else fields[0] + [sep] + Join(fields[1..], sep)
  }

  lemma IndexOfJoined(field: string, sep: char, rest: string)
    requires sep !in field
    ensures IndexOf(field + [sep] + rest, sep) == |field|
  {
    var s := field + [sep] + rest;
    assert s[|field|] == sep;
    assert forall j | 0 <= j < |field| :: s[j] == field[j] != sep;
  }

  lemma SplitOfTwo(field: string, sep: char, rest: string)
    requires sep !in field
    ensures Split(field + [sep] + rest, sep) == [field] + Split(rest, sep)
  {
    var s := field + [sep] + rest;
    IndexOfJoined(field, sep, rest);
    assert s[..|field|] == field && s[|field| + 1..] == rest;
  }

  /** Splitting undoes joining, for fields without the separator. */
  lemma {:induction false} SplitOfJoin(fields: seq<string>, sep: char)
    requires fields != [] && forall i | 0 <= i < |fields| :: sep !in fields[i]
    ensures Split(Join(fields, sep), sep) == fields
  {
    if |fields| == 1 {
      assert fields == [fields[0]];
      assert IndexOf(fields[0], sep) == |fields[0]|;
    } else {
      SplitOfJoin(fields[1..], sep);
      SplitOfTwo(fields[0], sep, Join(fields[1..], sep));
      assert fields == [fields[0]] + fields[1..];
    }
  }

  /** Joining undoes splitting, and no field holds the separator. */
  lemma {:induction false} JoinOfSplit(s: string, sep: char)
    ensures Join(Split(s, sep), sep) == s
    ensures forall i | 0 <= i < |Split(s, sep)| :: sep !in Split(s, sep)[i]
    decreases |s|
  {
    var i := IndexOf(s, sep);
    if i < |s| {
      var rest := Split(s[i + 1..], sep);
      JoinOfSplit(s[i + 1..], sep);
      assert ([s[..i]] + rest)[1..] == rest;
      assert s == s[..i] + [sep] + s[i + 1..];
    }
  }

  /** strings.SplitN(s, sep, n) for n >= 1: at most n fields, the last one unsplit. */
  function SplitN(s: string, sep: char, n: nat): (fields: seq<string>)
    requires n >= 1
    ensures fields != []
  {
    var i := IndexOf(s, sep);
    if n == 1 || i == |s| then [s] else [s[..i]] + SplitN(s[i + 1..], sep, n - 1)
  }
}
