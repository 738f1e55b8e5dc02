/** Calendar readings and the fixed-width digit formats `yyyyMMdd` and
    `yyyyMMddHHmmss` that the services build names from. The clock itself
    (`DateTime.Now`) is never read here: every caller receives the reading
    as a parameter. */
module Clock {

  datatype Timestamp = Timestamp(year: int, month: int, day: int, hour: int, minute: int, second: int)

  /** The range of a .NET `DateTime`, field by field. */
  type DateTime = t: Timestamp
    | 1 <= t.year <= 9999 && 1 <= t.month <= 12 && 1 <= t.day <= 31
      && 0 <= t.hour < 24 && 0 <= t.minute < 60 && 0 <= t.second < 60
    witness Timestamp(1, 1, 1, 0, 0, 0)

  function Pow10(n: nat): (p: nat)
    ensures p >= 1
  {
    if n == 0 then 1 else 10 * Pow10(n - 1)
  }

  predicate IsDigit(c: char)
  {
    '0' <= c <= '9'
  }

  predicate AllDigits(s: string)
  {
    forall i :: 0 <= i < |s| ==> IsDigit(s[i])
  }

  function DigitChar(d: nat): (c: char)
    requires d < 10
    ensures IsDigit(c) && c as int - '0' as int == d
  {
    (('0' as int) + d) as char
  }

  /** The number a string of decimal digits denotes. */
  function ValueOf(s: string): nat
    requires AllDigits(s)
  {
    if s == [] then 0 else 10 * ValueOf(s[..|s| - 1]) + (s[|s| - 1] as int - '0' as int)
  }

  lemma DivBound(n: nat, width: nat)
    requires width > 0 && n < Pow10(width)
    ensures n / 10 < Pow10(width - 1)
  {
  }

  /** `n` written with exactly `width` digits, zero-padded on the left, as the
      custom format specifiers `yyyy`, `MM`, `dd`, `HH`, `mm`, `ss` write it. */
  function Pad(n: nat, width: nat): (s: string)
    requires n < Pow10(width)
    ensures |s| == width && AllDigits(s)
    ensures ValueOf(s) == n
  {
    if width == 0 then ""
    else
      DivBound(n, width);
      var prefix := Pad(n / 10, width - 1);
      var s := prefix + [DigitChar(n % 10)];
      assert s[..|s| - 1] == prefix;
      s
  }

  /** `n.ToString()`: the shortest decimal numeral of `n`. */
  function Decimal(n: nat): (s: string)
    ensures |s| >= 1 && AllDigits(s)
    ensures ValueOf(s) == n
    ensures |s| > 1 ==> s[0] != '0'
    decreases n
  {
    if n < 10 then [DigitChar(n)]
    else
      var prefix := Decimal(n / 10);
      var s := prefix + [DigitChar(n % 10)];
      assert s[..|s| - 1] == prefix;
      s
  }

  /** `DateTime.ToString("yyyyMMdd")`. */
  function DateStamp(d: DateTime): (s: string)
    ensures |s| == 8 && AllDigits(s)
    ensures ValueOf(s[..4]) == d.year && ValueOf(s[4..6]) == d.month && ValueOf(s[6..]) == d.day
  {
    var y, m, dd := Pad(d.year, 4), Pad(d.month, 2), Pad(d.day, 2);
    var s := y + m + dd;
    assert s[..4] == y && s[4..6] == m && s[6..] == dd;
    s
  }

  /** `DateTime.ToString("yyyyMMddHHmmss")`: the date stamp followed by the
      time of day. */
  function TimeStamp(d: DateTime): (s: string)
    ensures |s| == 14 && AllDigits(s)
    ensures s[..8] == DateStamp(d)
    ensures ValueOf(s[8..10]) == d.hour && ValueOf(s[10..12]) == d.minute && ValueOf(s[12..]) == d.second
  {
    var date, h, mi, se := DateStamp(d), Pad(d.hour, 2), Pad(d.minute, 2), Pad(d.second, 2);
    var s := date + h + mi + se;
    assert s[..8] == date && s[8..10] == h && s[10..12] == mi && s[12..] == se;
    s
  }

  /** Two readings with the same stamp are the same calendar day. */
  lemma DateStampInjective(a: DateTime, b: DateTime)
    requires DateStamp(a) == DateStamp(b)
    ensures a.year == b.year && a.month == b.month && a.day == b.day
  {
  }
}
