/**
 * Conversion between "HH:MM" text and minutes since midnight
 * (time_to_minutes, minutes_to_time and is_time_in_range in backend/scheduler.py).
 *
 * Python's int() is modelled on the text it accepts here: an optional sign followed
 * by one or more ASCII digits.
 */
module TimeText {
  import opened Wrappers

  predicate IsDigit(c: char) { '0' <= c <= '9' }

  predicate AllDigits(s: string) { forall i :: 0 <= i < |s| ==> IsDigit(s[i]) }

  function DigitChar(d: nat): char
    requires d < 10
  {
    ('0' as int + d) as char
  }

  function DigitValue(c: char): nat
    requires IsDigit(c)
  {
    c as int - '0' as int
  }

  /** The value of a string of decimal digits, most significant digit first. */
  function DigitsValue(s: string): nat
    requires AllDigits(s)
  {
    if s == [] then 0 else DigitsValue(s[..|s| - 1]) * 10 + DigitValue(s[|s| - 1])
  }

  /** int(s) on an optional sign and a non-empty run of digits; anything else raises. */
  function ParseInt(s: string): Option<int>
  {
    if |s| > 1 && (s[0] == '-' || s[0] == '+') && AllDigits(s[1..]) then
      var v: int := DigitsValue(s[1..]);
      Some(if s[0] == '-' then -v else v)
    else if |s| > 0 && AllDigits(s) then
      Some(DigitsValue(s))
    else
      None
  }

  /** str(n) for a non-negative n: decimal digits without leading zeros. */
  function Digits(n: nat): (r: string)
    ensures |r| > 0 && AllDigits(r)
    ensures n < 10 ==> |r| == 1
    ensures 10 <= n < 100 ==> |r| == 2
  {
    if n < 10 then [DigitChar(n)] else Digits(n / 10) + [DigitChar(n % 10)]
  }

  /** f"{n:02d}": at least two characters, zero padding going after the sign. */
  function Pad2(n: int): (r: string)
    ensures 0 <= n < 100 ==> |r| == 2
  {
    if n < 0 then "-" + Digits(-n)
    else if n < 10 then "0" + Digits(n)
    else Digits(n)
  }

  /** str.split(sep): the pieces between the separators, empty ones included. */
  function Split(s: string, sep: char): (parts: seq<string>)
    ensures |parts| > 0
  {
    if s == [] then [""]
    else
      var rest := Split(s[1..], sep);
      if s[0] == sep then [""] + rest else [[s[0]] + rest[0]] + rest[1..]
  }

  /** time_to_minutes: `hour, minute = map(int, s.split(':'))`; None where Python raises. */
  function TimeToMinutes(s: string): Option<int>
  {
    var parts := Split(s, ':');
    if |parts| != 2 then None
    else
      match (ParseInt(parts[0]), ParseInt(parts[1]))
      case (Some(hour), Some(minute)) => Some(hour * 60 + minute)
      case _ => None
  }

  /** minutes_to_time: floor division and remainder by 60, each printed with `:02d`. */
  function MinutesToTime(minutes: int): (r: string)
    ensures 0 <= minutes < 1440 ==> |r| == 5 && r[2] == ':' && AllDigits(r[..2]) && AllDigits(r[3..])
  {
    Pad2(minutes / 60) + ":" + Pad2(minutes % 60)
  }

  /** is_time_in_range: the half-open test start <= t < end on the converted times. */
  function IsTimeInRange(time: string, start: string, end: string): Option<bool>
  {
    match (TimeToMinutes(time), TimeToMinutes(start), TimeToMinutes(end))
    case (Some(t), Some(s), Some(e)) => Some(s <= t < e)
    case _ => None
  }

  lemma {:induction false} DigitsValueOfDigits(n: nat)
    ensures DigitsValue(Digits(n)) == n
  {
    if n >= 10 {
      DigitsValueOfDigits(n / 10);
      var s := Digits(n);
      assert s[..|s| - 1] == Digits(n / 10);
    }
  }

  /** Every `:02d` rendering reads back as the same number and holds no colon. */
  lemma {:induction false} Pad2Parses(n: int)
    ensures ':' !in Pad2(n)
    ensures ParseInt(Pad2(n)) == Some(n)
  {
    var p := Pad2(n);
    if n < 0 {
      DigitsValueOfDigits(-n);
      assert p[1..] == Digits(-n);
    } else if n < 10 {
      assert p == ['0', DigitChar(n)];
      assert p[..1] == ['0'];
      assert DigitsValue(p[..1]) == 0;
    } else {
      DigitsValueOfDigits(n);
    }
    NoColonInDigits(p[1..]);
    assert p == p[..1] + p[1..];
  }

  lemma NoColonInDigits(s: string)
    requires AllDigits(s)
    ensures ':' !in s
  {
  }

  lemma {:induction false} SplitPrefix(a: string, sep: char, b: string)
    requires sep !in a
    ensures Split(a + b, sep) == [a + Split(b, sep)[0]] + Split(b, sep)[1..]
  {
    if a != [] {
      var x, parts := a + b, Split(b, sep);
      assert x[1..] == a[1..] + b;
      assert x[0] == a[0] != sep;
      SplitPrefix(a[1..], sep, b);
      var rest := Split(a[1..] + b, sep);
      assert rest[0] == a[1..] + parts[0] && rest[1..] == parts[1..];
      assert Split(x, sep) == [[a[0]] + rest[0]] + rest[1..];
      assert [a[0]] + (a[1..] + parts[0]) == a + parts[0];
    } else {
      var parts := Split(b, sep);
      assert a + b == b;
      assert a + parts[0] == parts[0];
      assert parts == [parts[0]] + parts[1..];
    }
  }

  lemma SplitAround(a: string, sep: char, b: string)
    requires sep !in a && sep !in b
    ensures Split(a + [sep] + b, sep) == [a, b]
  {
    SplitPrefix(b, sep, "");
    assert b + "" == b;
    assert Split("", sep) == [""];
    assert Split(b, sep) == [b];
    assert ([sep] + b)[1..] == b;
    assert Split([sep] + b, sep) == [""] + Split(b, sep);
    assert a + [sep] + b == a + ([sep] + b);
    SplitPrefix(a, sep, [sep] + b);
    var tail := Split([sep] + b, sep);
    assert tail == ["", b];
    assert a + tail[0] == a;
    assert [a + tail[0]] + tail[1..] == [a, b];
  }

  /** time_to_minutes(minutes_to_time(m)) == m, for every integer m. */
  lemma TimeRoundTrip(m: int)
    ensures TimeToMinutes(MinutesToTime(m)) == Some(m)
  {
    Pad2Parses(m / 60);
    Pad2Parses(m % 60);
    SplitAround(Pad2(m / 60), ':', Pad2(m % 60));
  }

  /** On rendered clock times, is_time_in_range is the half-open test start <= t < end. */
  lemma InRangeOnRenderedTimes(t: int, start: int, end: int)
    ensures IsTimeInRange(MinutesToTime(t), MinutesToTime(start), MinutesToTime(end)) == Some(start <= t < end)
  {
    TimeRoundTrip(t);
    TimeRoundTrip(start);
    TimeRoundTrip(end);
  }

  /** Text without a colon is refused: it splits into one part, and the two-name unpacking in Python raises. */
  lemma NoColonRefused(s: string)
    requires ':' !in s
    ensures TimeToMinutes(s) == None
  {
    SplitPrefix(s, ':', "");
    assert s + "" == s;
  }
}
