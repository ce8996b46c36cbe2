/** The `YYYY-MM-DD` form of a date, the first ten characters of
    `toISOString()`: a four-digit year, a two-digit month counted from 01 and
    a two-digit day. Only years 0..9999 have this form; later and earlier
    years are written with a sign and six digits, which the model does not
    produce (`IsoKey` gives `None` for them). */
module IsoDate {
  import opened Wrappers
  import opened Gregorian

  function Pow10(n: nat): (r: nat)
    ensures r >= 1
  {
    if n == 0 then 1 else 10 * Pow10(n - 1)
  }

  predicate IsDigit(c: char) {
    '0' <= c <= '9'
  }

  function DigitChar(v: int): (c: char)
    requires 0 <= v < 10
    ensures IsDigit(c)
  {
    ('0' as int + v) as char
  }

  function DigitValue(c: char): (v: int)
    requires IsDigit(c)
    ensures 0 <= v < 10
  {
    c as int - '0' as int
  }

  predicate AllDigits(s: string) {
    forall i :: 0 <= i < |s| ==> IsDigit(s[i])
  }

  /** n in decimal with exactly `width` digits, zero-padded on the left
      (higher digits are dropped, which never happens for the values used). */
  function Digits(n: nat, width: nat): (s: string)
    ensures |s| == width
    ensures AllDigits(s)
  {
    if width == 0 then "" else Digits(n / 10, width - 1) + [DigitChar(n % 10)]
  }

  /** The number a string of decimal digits denotes. */
  function Value(s: string): (v: nat)
    requires AllDigits(s)
  {
    if |s| == 0 then 0 else Value(s[..|s| - 1]) * 10 + DigitValue(s[|s| - 1])
  }

  /** Reading back a zero-padded number gives the number, when it fits. */
  lemma {:induction false} ValueOfDigits(n: nat, width: nat)
    requires n < Pow10(width)
    ensures Value(Digits(n, width)) == n
  {
    if width > 0 {
      var s := Digits(n, width);
      assert s[..|s| - 1] == Digits(n / 10, width - 1);
      ValueOfDigits(n / 10, width - 1);
    }
  }

  /** The `YYYY-MM-DD` key of a date, when its year has four digits. */
  function IsoKey(d: Date): (r: Option<string>)
    requires Valid(d)
    ensures r.Some? <==> 0 <= d.year <= 9999
    ensures r.Some? ==> |r.value| == 10 && r.value[4] == '-' && r.value[7] == '-'
  {
    if 0 <= d.year <= 9999 then
      Some(Digits(d.year, 4) + "-" + Digits(d.month + 1, 2) + "-" + Digits(d.day, 2))
    else None
  }

  /** Reads a `YYYY-MM-DD` key back into a date; `None` if it is not of that shape. */
  function ParseIso(s: string): Option<Date> {
    if |s| == 10 && s[4] == '-' && s[7] == '-'
       && AllDigits(s[..4]) && AllDigits(s[5..7]) && AllDigits(s[8..])
    then Some(Date(Value(s[..4]), Value(s[5..7]) - 1, Value(s[8..])))
    else None
  }

  /** Every key reads back as the date it was made from. */
  lemma IsoRoundTrip(d: Date)
    requires Valid(d) && 0 <= d.year <= 9999
    ensures ParseIso(IsoKey(d).value) == Some(d)
  {
    var y, m, dd := Digits(d.year, 4), Digits(d.month + 1, 2), Digits(d.day, 2);
    var s := y + "-" + m + "-" + dd;
    assert s == IsoKey(d).value;
    assert s[..4] == y && s[5..7] == m && s[8..] == dd;
    assert s[4] == '-' && s[7] == '-';
    assert Pow10(2) == 100 && Pow10(4) == 10000;
    ValueOfDigits(d.year, 4);
    ValueOfDigits(d.month + 1, 2);
    ValueOfDigits(d.day, 2);
    assert ParseIso(s) == Some(Date(Value(y), Value(m) - 1, Value(dd)));
  }

  /** Distinct dates have distinct keys. */
  lemma IsoKeyInjective(a: Date, b: Date)
    requires Valid(a) && Valid(b) && 0 <= a.year <= 9999 && 0 <= b.year <= 9999
    requires IsoKey(a) == IsoKey(b)
    ensures a == b
  {
    IsoRoundTrip(a);
    IsoRoundTrip(b);
  }

  /** A digit string is the zero-padded form of its own value. */
  lemma {:induction false} DigitsOfValue(s: string)
    requires AllDigits(s)
    ensures Value(s) < Pow10(|s|)
    ensures Digits(Value(s), |s|) == s
    decreases |s|
  {
    if |s| > 0 {
      var init := s[..|s| - 1];
      DigitsOfValue(init);
      var v := Value(s);
      assert v / 10 == Value(init) && v % 10 == DigitValue(s[|s| - 1]);
      assert DigitChar(v % 10) == s[|s| - 1];
      assert s == init + [s[|s| - 1]];
    }
  }

  /** A string that parses is the key of the date it parses to: each date
      has exactly one `YYYY-MM-DD` spelling. */
  lemma ParsedKeyIsCanonical(s: string)
    requires ParseIso(s).Some? && Valid(ParseIso(s).value)
    ensures 0 <= ParseIso(s).value.year <= 9999
    ensures IsoKey(ParseIso(s).value) == Some(s)
  {
    var y, m, dd := s[..4], s[5..7], s[8..];
    var d := ParseIso(s).value;
    DigitsOfValue(y);
    DigitsOfValue(m);
    DigitsOfValue(dd);
    assert Pow10(4) == 10000;
    assert d.year == Value(y) && d.month + 1 == Value(m) && d.day == Value(dd);
    assert s == y + "-" + m + "-" + dd;
  }
}
