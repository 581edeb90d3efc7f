/**
 `convert_seconds`: a whole number of seconds rendered as `HH:MM:SS`, the
 way the app labels chapter start and end times.
 */
module Clock {
  import opened Wrappers
  import opened Numerals

  datatype Hms = Hms(hours: int, minutes: nat, seconds: nat)

  /** Floor division by 3600 and then by 60, as Python's `//` and `%` do for a
      positive divisor (Dafny's `/` and `%` agree with them there). */
  function ToHms(t: int): (r: Hms)
    ensures r.minutes < 60 && r.seconds < 60
    ensures r.hours * 3600 + r.minutes * 60 + r.seconds == t
  {
    Hms(t / 3600, (t % 3600) / 60, (t % 3600) % 60)
  }

  /** The breakdown is the only one with minutes and seconds below 60. */
  lemma HmsUnique(t: int, h: Hms)
    requires h.minutes < 60 && h.seconds < 60
    requires h.hours * 3600 + h.minutes * 60 + h.seconds == t
    ensures h == ToHms(t)
  {
    var r := ToHms(t);
    var a, b := h.minutes * 60 + h.seconds, r.minutes * 60 + r.seconds;
    assert (h.hours - r.hours) * 3600 == b - a;
    SmallMultiple(h.hours - r.hours, 3600);
    assert (h.minutes - r.minutes) * 60 == r.seconds - h.seconds;
    SmallMultiple(h.minutes - r.minutes, 60);
  }

  /** The only multiple of `d` strictly between `-d` and `d` is zero. */
  lemma SmallMultiple(k: int, d: int)
    requires d > 0 && -d < k * d < d
    ensures k == 0
  {
    if k >= 1 {
      AtLeastOnce(k, d);
    } else if k <= -1 {
      AtLeastOnce(-k, d);
    }
  }

  lemma AtLeastOnce(k: int, d: int)
    requires k >= 1 && d > 0
    ensures k * d >= d
  {
    assert k * d == (k - 1) * d + d;
  }

  /** Python's `{n:02d}`: zero-padded to two characters, the sign counting
      towards the width. */
  function Pad2(n: int): (r: string)
    ensures n >= 0 ==> AllDigits(r)
    ensures 0 <= n < 100 ==> |r| == 2
    ensures n < 0 ==> |r| >= 2 && r[0] == '-'
  {
    if n < 0 then "-" + Decimal(-n)
    else if n < 10 then "0" + Decimal(n)
    else Decimal(n)
  }

  function ConvertSeconds(t: int): (r: string)
    ensures 0 <= t < 360000 ==> |r| == 8
    ensures |r| >= 8 && r[|r| - 3] == ':' && r[|r| - 6] == ':'
  {
    var h := ToHms(t);
    Pad2(h.hours) + ":" + Pad2(h.minutes) + ":" + Pad2(h.seconds)
  }

  /** Reads an optionally signed decimal number. */
  function ParseSigned(s: string): (r: Option<int>) {
    if |s| > 0 && s[0] == '-' then
      match ParseDecimal(s[1..])
      case Some(n) => if n > 0 then Some(0 - n as int) else None
      case None => None
    else
      match ParseDecimal(s)
      case Some(n) => Some(n)
      case None => None
  }

  /** Reads `H:MM:SS` back into seconds. */
  function ParseClock(s: string): (r: Option<int>) {
    if |s| < 8 || s[|s| - 3] != ':' || s[|s| - 6] != ':' then None
    else
      match (ParseSigned(s[..|s| - 6]), ParseDecimal(s[|s| - 5..|s| - 3]), ParseDecimal(s[|s| - 2..]))
      case (Some(h), Some(m), Some(x)) =>
        if m < 60 && x < 60 then Some(h * 3600 + m * 60 + x) else None
      case _ => None
  }

  lemma Pad2RoundTrip(n: int)
    ensures ParseSigned(Pad2(n)) == Some(n)
  {
    if n < 0 {
      assert Pad2(n)[1..] == Decimal(-n);
      DecimalRoundTrip(-n);
    } else if n < 10 {
      LeadingZero(Decimal(n));
      DecimalRoundTrip(n);
    } else {
      DecimalRoundTrip(n);
    }
  }

  /** The label reads back as the number of seconds it was made from, so
      distinct times get distinct labels. */
  lemma ConvertSecondsRoundTrip(t: int)
    ensures ParseClock(ConvertSeconds(t)) == Some(t)
  {
    var h := ToHms(t);
    var a, b, c := Pad2(h.hours), Pad2(h.minutes), Pad2(h.seconds);
    var s := ConvertSeconds(t);
    assert s == a + ":" + b + ":" + c;
    assert s[..|s| - 6] == a;
    assert s[|s| - 5..|s| - 3] == b;
    assert s[|s| - 2..] == c;
    Pad2RoundTrip(h.hours);
    Pad2RoundTrip(h.minutes);
    Pad2RoundTrip(h.seconds);
  }

  /** Distinct times get distinct labels. */
  lemma ConvertSecondsInjective(t: int, u: int)
    requires ConvertSeconds(t) == ConvertSeconds(u)
    ensures t == u
  {
    ConvertSecondsRoundTrip(t);
    ConvertSecondsRoundTrip(u);
  }
}
