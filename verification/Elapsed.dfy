/** `formatTimedelta`: a span of seconds as text, through a wrapping negation and mixed radix. */
module Elapsed {
  import opened Bytes
  import opened Int64
  import opened Text

  /** %02d */
  function Pad2(n: nat): (s: string)
    requires n < 100
    ensures |s| == 2 && IsDigits(s)
  {
    if n < 10 then "0" + Print(n) else assert |Print(n / 10)| == 1; Print(n)
  }

  lemma ValueOfPad2(n: nat)
    requires n < 100
    ensures Value(Pad2(n)) == n
  {
    ValueOfPrint(n);
    if n < 10 {
      var s := Pad2(n);
      assert s[..1] == "0" && Print(n) == [s[1]];
      assert Value("0") == Value("") * 10;
    }
  }

  function Clock(hours: nat, mins: nat, secs: nat): (s: string)
    requires hours < 24 && mins < 60 && secs < 60
    ensures |s| == 8
  {
    Pad2(hours) + ":" + Pad2(mins) + ":" + Pad2(secs)
  }

  /** The text of a number of seconds: hours, minutes and seconds, after the days if there are any. */
  function Rendered(total: nat): string {
    var days := total / 86400;
    var clock := Clock(total / 3600 % 24, total / 60 % 60, total % 60);
    if days == 0 then clock else Print(days) + "d " + clock
  }

  function Abs(d: int): nat {
    if d < 0 then -d else d
  }

  /** uint64(d), negated in uint64 if d is negative. */
  method Magnitude(d: int64) returns (u: uint64)
    ensures u == Abs(d)
  {
    ModIs(d, if d < 0 then d + TWO_TO_THE_64 else d, if d < 0 then -1 else 0);
    u := d % TWO_TO_THE_64;
    if d < 0 {
      ModIs(0 - u, Abs(d), -1);
      u := (0 - u) % TWO_TO_THE_64;
    }
  }

  /** `now` and `t` are Unix seconds; their difference is taken in int64. */
  method FormatTimedelta(now: int64, t: int64) returns (s: string)
    ensures s == Rendered(Abs(Wrap64(now - t)))
  {
    var d := Wrap64(now - t);
    var u := Magnitude(d);
    var secs := u % 60;
    u := u / 60;
    var mins := u % 60;
    u := u / 60;
    var hours := u % 24;
    var days := u / 24;
    Radix(Abs(d));
    if days == 0 {
      return Clock(hours, mins, secs);
    }
    s := Print(days) + "d " + Clock(hours, mins, secs);
  }

  lemma Radix(n: nat)
    ensures n / 60 / 60 == n / 3600 && n / 60 / 60 / 24 == n / 86400
    ensures ((n / 86400 * 24 + n / 3600 % 24) * 60 + n / 60 % 60) * 60 + n % 60 == n
  {
  }

  // --------------------------------------------------------- reading it back

  function ReadClock(s: string): Option<nat> {
    if |s| == 8 && s[2] == ':' && s[5] == ':'
       && IsDigits(s[..2]) && IsDigits(s[3..5]) && IsDigits(s[6..])
    then Some((Value(s[..2]) * 60 + Value(s[3..5])) * 60 + Value(s[6..]))
    else None
  }

  function Read(s: string): Option<nat> {
    if |s| < 8 then None
    else
      var head, clock := s[..|s| - 8], ReadClock(s[|s| - 8..]);
      if clock.None? then None
      else if head == "" then clock
      else if |head| > 2 && head[|head| - 2..] == "d " && IsDigits(head[..|head| - 2])
      then Some(Value(head[..|head| - 2]) * 86400 + clock.value)
      else None
  }

  lemma ReadOfClock(hours: nat, mins: nat, secs: nat)
    requires hours < 24 && mins < 60 && secs < 60
    ensures ReadClock(Clock(hours, mins, secs)) == Some((hours * 60 + mins) * 60 + secs)
  {
    var s := Clock(hours, mins, secs);
    assert s[..2] == Pad2(hours) && s[3..5] == Pad2(mins) && s[6..] == Pad2(secs);
    ValueOfPad2(hours);
    ValueOfPad2(mins);
    ValueOfPad2(secs);
  }

  lemma ReadOfDays(days: nat, clock: string, secs: nat)
    requires |clock| == 8 && ReadClock(clock) == Some(secs)
    ensures Read(Print(days) + "d " + clock) == Some(days * 86400 + secs)
  {
    var text := Print(days) + "d " + clock;
    var head := text[..|text| - 8];
    assert text[|text| - 8..] == clock && head == Print(days) + "d ";
    assert head[|head| - 2..] == "d " && head[..|head| - 2] == Print(days);
    ValueOfPrint(days);
  }

  lemma ReadOfNoDays(clock: string, secs: nat)
    requires |clock| == 8 && ReadClock(clock) == Some(secs)
    ensures Read(clock) == Some(secs)
  {
  }

  /** The text determines the number of seconds, for every number. */
  lemma ReadOfRendered(total: nat)
    ensures Read(Rendered(total)) == Some(total)
  {
    var h, m, s := total / 3600 % 24, total / 60 % 60, total % 60;
    var clock, secs := Clock(h, m, s), (h * 60 + m) * 60 + s;
    ReadOfClock(h, m, s);
    Radix(total);
    if total / 86400 == 0 {
      ReadOfNoDays(clock, secs);
    } else {
      ReadOfDays(total / 86400, clock, secs);
    }
  }

  /** Spans that look the same are equally long. */
  lemma RenderedIsInjective(m: nat, n: nat)
    requires Rendered(m) == Rendered(n)
    ensures m == n
  {
    ReadOfRendered(m);
    ReadOfRendered(n);
  }

  lemma WrappedDistance(x: int)
    requires -TWO_TO_THE_64 < x < TWO_TO_THE_64
    ensures Abs(Wrap64(x)) == Abs(x) <==> Abs(x) <= TWO_TO_THE_63
  {
    WrapOfSum(x);
  }

  /** The subtraction may wrap; the true distance is shown exactly when it is at most 2^63. */
  lemma TrueDistanceIff(now: int64, t: int64)
    ensures Rendered(Abs(Wrap64(now - t))) == Rendered(Abs(now - t)) <==> Abs(now - t) <= TWO_TO_THE_63
  {
    var shown, distance := Abs(Wrap64(now - t)), Abs(now - t);
    WrappedDistance(now - t);
    if Rendered(shown) == Rendered(distance) {
      RenderedIsInjective(shown, distance);
    }
  }

  /** The text in terms of days, hours, minutes and seconds; each of the last three has two digits. */
  lemma RenderedIs(total: nat, days: nat, hours: nat, mins: nat, secs: nat)
    requires hours < 24 && mins < 60 && secs < 60 && total == ((days * 24 + hours) * 60 + mins) * 60 + secs
    ensures Rendered(total) == (if days == 0 then "" else Print(days) + "d ")
                               + (Pad2(hours) + ":" + Pad2(mins) + ":" + Pad2(secs))
  {
    Parts(total, days, hours, mins, secs);
    WithDays(days, Clock(hours, mins, secs));
  }

  lemma Parts(total: nat, days: nat, hours: nat, mins: nat, secs: nat)
    requires hours < 24 && mins < 60 && secs < 60 && total == ((days * 24 + hours) * 60 + mins) * 60 + secs
    ensures total / 86400 == days && total / 3600 % 24 == hours && total / 60 % 60 == mins && total % 60 == secs
  {
    Sixty((days * 24 + hours) * 60 + mins, secs);
    Sixty(days * 24 + hours, mins);
    Radix(total);
  }

  lemma Sixty(n: nat, r: nat)
    requires r < 60
    ensures (n * 60 + r) / 60 == n && (n * 60 + r) % 60 == r
  {
  }

  lemma WithDays(days: nat, clock: string)
    ensures (if days == 0 then "" else Print(days) + "d ") + clock
            == if days == 0 then clock else Print(days) + "d " + clock
  {
  }
}
