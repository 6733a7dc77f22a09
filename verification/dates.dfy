/**
 * Timestamps of the JMA feeds: `DATE_FORMAT`, the subset of `strftime` that
 * it uses, and the fixed-width parser `to_datetime`.
 *
 * The `jma` package and the older `main.py` carry identical copies of
 * `to_datetime` and `DATE_FORMAT`; this module models both.
 */
module JmaDates {
  import opened Wrappers

  /** The six fields `datetime.datetime` is built from. */
  datatype DateTime = DateTime(year: int, month: int, day: int,
                               hour: int, minute: int, second: int)

  /** Why `to_datetime` raises. */
  datatype DateError =
    | LengthNot14    // the `assert(len(src) == 14)` fails
    | OutOfRange     // the `datetime.datetime` constructor rejects a field

  /** The format the feeds' timestamps are written in. */
  const DATE_FORMAT: string := "%Y%m%d%H%M%S"

  predicate IsDigit(c: char) { '0' <= c <= '9' }

  predicate IsDigits(s: string) {
    forall i :: 0 <= i < |s| ==> IsDigit(s[i])
  }

  function DigitValue(c: char): (d: nat)
    requires IsDigit(c)
    ensures d < 10
  {
    (c as int - '0' as int) as nat
  }

  function DigitChar(d: nat): (c: char)
    requires d < 10
    ensures IsDigit(c) && DigitValue(c) == d
  {
    (d + '0' as int) as char
  }

  /** `int(s)` for a string of decimal digits (leading zeros allowed). */
  function ParseNat(s: string): nat
    requires IsDigits(s)
  {
    if s == [] then 0
    else ParseNat(s[..|s| - 1]) * 10 + DigitValue(s[|s| - 1])
  }

  function Pow10(w: nat): (p: nat)
    ensures p >= 1
  {
    if w == 0 then 1 else 10 * Pow10(w - 1)
  }

  /** The `w` lowest decimal digits of `n`, zero-padded (`%02d` for `w == 2`). */
  function Padded(n: nat, w: nat): (s: string)
    ensures |s| == w && IsDigits(s)
  {
    if w == 0 then [] else Padded(n / 10, w - 1) + [DigitChar(n % 10)]
  }

  /** `str(n)`: decimal digits without padding. */
  function Decimal(n: nat): (s: string)
    ensures 1 <= |s| && IsDigits(s)
  {
    if n < 10 then [DigitChar(n)] else Decimal(n / 10) + [DigitChar(n % 10)]
  }

  predicate IsLeapYear(y: int) {
    y % 4 == 0 && (y % 100 != 0 || y % 400 == 0)
  }

  function DaysInMonth(y: int, m: int): int
    requires 1 <= m <= 12
  {
    if m == 2 then (if IsLeapYear(y) then 29 else 28)
    else if m == 4 || m == 6 || m == 9 || m == 11 then 30
    else 31
  }

  /** The field ranges the `datetime.datetime` constructor accepts (proleptic Gregorian). */
  predicate Valid(t: DateTime) {
    && 1 <= t.year <= 9999
    && 1 <= t.month <= 12
    && 1 <= t.day <= DaysInMonth(t.year, t.month)
    && 0 <= t.hour <= 23
    && 0 <= t.minute <= 59
    && 0 <= t.second <= 59
  }

  /**
   * `to_datetime(src)`: the length assertion, then year, month, day, hour,
   * minute and second from the slices [0:4], [4:6], [6:8], [8:10], [10:12]
   * and [12:14], then the constructor's range check.
   */
  function ToDatetime(src: string): (r: Result<DateTime, DateError>)
    requires IsDigits(src)
    ensures |src| != 14 ==> r == Failure(LengthNot14)
    ensures r.Success? ==> |src| == 14 && Valid(r.value)
  {
    if |src| != 14 then Failure(LengthNot14)
    else
      var t := SliceFields(src);
      if Valid(t) then Success(t) else Failure(OutOfRange)
  }

  /** The six numbers written in the fixed slices of a 14-character timestamp. */
  function SliceFields(src: string): DateTime
    requires IsDigits(src) && |src| == 14
  {
    DateTime(ParseNat(src[0..4]), ParseNat(src[4..6]), ParseNat(src[6..8]),
             ParseNat(src[8..10]), ParseNat(src[10..12]), ParseNat(src[12..14]))
  }

  /** The text one `%c` directive prints, or None outside the modelled directives. */
  function Directive(t: DateTime, c: char): Option<string>
    requires Valid(t)
  {
    match c
    case 'Y' => Some(Decimal(t.year))
    case 'm' => Some(Padded(t.month, 2))
    case 'd' => Some(Padded(t.day, 2))
    case 'H' => Some(Padded(t.hour, 2))
    case 'M' => Some(Padded(t.minute, 2))
    case 'S' => Some(Padded(t.second, 2))
    case '%' => Some("%")
    case _ => None
  }

  /**
   * `t.strftime(fmt)` for formats built from literal characters and the
   * directives `%Y` (the year in decimal, unpadded as glibc prints it),
   * `%m`, `%d`, `%H`, `%M`, `%S` (two digits, zero-padded) and `%%`.
   * Any other directive, or a trailing `%`, is outside this model: None.
   */
  function Strftime(t: DateTime, fmt: string): Option<string>
    requires Valid(t)
    decreases |fmt|
  {
    if fmt == [] then Some([])
    else if fmt[0] != '%' then
      match Strftime(t, fmt[1..])
      case Some(rest) => Some([fmt[0]] + rest)
      case None => None
    else if |fmt| == 1 then None
    else
      match (Directive(t, fmt[1]), Strftime(t, fmt[2..]))
      case (Some(p), Some(rest)) => Some(p + rest)
      case _ => None
  }

  lemma StrftimeCons(t: DateTime, c: char, rest: string, p: string, tail: string)
    requires Valid(t)
    requires Directive(t, c) == Some(p) && Strftime(t, rest) == Some(tail)
    ensures Strftime(t, ['%', c] + rest) == Some(p + tail)
  {
    var f := ['%', c] + rest;
    assert f[0] == '%' && f[1] == c && f[2..] == rest;
  }

  /** What `DATE_FORMAT` produces: the six fields written back to back. */
  function Compact(t: DateTime): string
    requires Valid(t)
  {
    Decimal(t.year) + (Padded(t.month, 2) + (Padded(t.day, 2)
      + (Padded(t.hour, 2) + (Padded(t.minute, 2) + Padded(t.second, 2)))))
  }

  lemma StrftimeDateFormat(t: DateTime)
    requires Valid(t)
    ensures Strftime(t, DATE_FORMAT) == Some(Compact(t))
  {
    var f1 := ['%', 'S'];
    var f2 := ['%', 'M'] + f1;
    var f3 := ['%', 'H'] + f2;
    var f4 := ['%', 'd'] + f3;
    var f5 := ['%', 'm'] + f4;
    var f6 := ['%', 'Y'] + f5;
    var r1 := Padded(t.second, 2) + [];
    var r2 := Padded(t.minute, 2) + r1;
    var r3 := Padded(t.hour, 2) + r2;
    var r4 := Padded(t.day, 2) + r3;
    var r5 := Padded(t.month, 2) + r4;
    var r6 := Decimal(t.year) + r5;
    assert Strftime(t, f1) == Some(r1) by {
      assert f1 == ['%', 'S'] + [];
      StrftimeCons(t, 'S', [], Padded(t.second, 2), []);
    }
    assert Strftime(t, f2) == Some(r2) by { StrftimeCons(t, 'M', f1, Padded(t.minute, 2), r1); }
    assert Strftime(t, f3) == Some(r3) by { StrftimeCons(t, 'H', f2, Padded(t.hour, 2), r2); }
    assert Strftime(t, f4) == Some(r4) by { StrftimeCons(t, 'd', f3, Padded(t.day, 2), r3); }
    assert Strftime(t, f5) == Some(r5) by { StrftimeCons(t, 'm', f4, Padded(t.month, 2), r4); }
    assert Strftime(t, f6) == Some(r6) by { StrftimeCons(t, 'Y', f5, Decimal(t.year), r5); }
    assert f6 == DATE_FORMAT;
    assert r6 == Compact(t) by { assert r1 == Padded(t.second, 2); }
  }

  /** Reading back `w` padded digits gives the number, when it has at most `w` digits. */
  lemma {:induction false} ParsePadded(n: nat, w: nat)
    requires n < Pow10(w)
    ensures ParseNat(Padded(n, w)) == n
  {
    if w > 0 {
      var s := Padded(n, w);
      var q, d := n / 10, n % 10;
      assert n == q * 10 + d;
      assert q < Pow10(w - 1);
      assert s == Padded(q, w - 1) + [DigitChar(d)];
      assert s[..|s| - 1] == Padded(q, w - 1);
      ParsePadded(q, w - 1);
      assert ParseNat(s) == ParseNat(Padded(q, w - 1)) * 10 + d;
    }
  }

  /** Padding the value of a digit string to its own width gives the string back. */
  lemma {:induction false} PaddedParse(s: string)
    requires IsDigits(s)
    ensures Padded(ParseNat(s), |s|) == s
  {
    if s != [] {
      var init := s[..|s| - 1];
      var n := ParseNat(s);
      assert n / 10 == ParseNat(init) && n % 10 == DigitValue(s[|s| - 1]);
      PaddedParse(init);
      assert s == init + [s[|s| - 1]];
    }
  }

  /** A four-digit year prints as its four padded digits. */
  lemma DecimalFourDigits(n: nat)
    requires 1000 <= n <= 9999
    ensures Decimal(n) == Padded(n, 4)
  {
    var c := n / 10;
    var b := c / 10;
    var a := b / 10;
    assert 100 <= c <= 999 && 10 <= b <= 99 && 1 <= a <= 9;
    assert Decimal(a) == Padded(a, 1);
    assert Decimal(b) == Padded(b, 2);
    assert Decimal(c) == Padded(c, 3);
  }

  /**
   * Formatting a datetime of a four-digit year with `DATE_FORMAT` and parsing
   * the text with `to_datetime` gives back the same six fields.
   */
  lemma FormatParseRoundTrip(t: DateTime)
    requires Valid(t) && t.year >= 1000
    ensures Strftime(t, DATE_FORMAT).Some?
    ensures IsDigits(Strftime(t, DATE_FORMAT).value)
    ensures ToDatetime(Strftime(t, DATE_FORMAT).value) == Success(t)
  {
    StrftimeDateFormat(t);
    CompactSlices(t);
  }

  /** The fixed slices of the compact text are the padded fields. */
  lemma CompactSlices(t: DateTime)
    requires Valid(t) && t.year >= 1000
    ensures |Compact(t)| == 14 && IsDigits(Compact(t))
    ensures SliceFields(Compact(t)) == t
  {
    DecimalFourDigits(t.year);
    var y, mo, d := Padded(t.year, 4), Padded(t.month, 2), Padded(t.day, 2);
    var h, mi, se := Padded(t.hour, 2), Padded(t.minute, 2), Padded(t.second, 2);
    Split14(y, mo, d, h, mi, se);
    ParsePadded(t.year, 4);
    ParsePadded(t.month, 2);
    ParsePadded(t.day, 2);
    ParsePadded(t.hour, 2);
    ParsePadded(t.minute, 2);
    ParsePadded(t.second, 2);
  }

  lemma Split14(a: string, b: string, c: string, d: string, e: string, f: string)
    requires |a| == 4 && |b| == 2 && |c| == 2 && |d| == 2 && |e| == 2 && |f| == 2
    ensures var s := a + (b + (c + (d + (e + f))));
      && |s| == 14
      && s[0..4] == a && s[4..6] == b && s[6..8] == c
      && s[8..10] == d && s[10..12] == e && s[12..14] == f
  {
  }

  /**
   * Conversely, a timestamp `to_datetime` accepts whose year has four digits
   * is exactly what `DATE_FORMAT` prints for the parsed datetime.
   */
  lemma ParseFormatRoundTrip(s: string)
    requires IsDigits(s) && ToDatetime(s).Success?
    requires ToDatetime(s).value.year >= 1000
    ensures Strftime(ToDatetime(s).value, DATE_FORMAT) == Some(s)
  {
    var t := ToDatetime(s).value;
    DateFieldsFromSlices(s);
    TimeFieldsFromSlices(s);
    CompactOfSlices(t, s);
    StrftimeDateFormat(t);
  }

  lemma CompactOfSlices(t: DateTime, s: string)
    requires Valid(t) && t.year >= 1000 && |s| == 14
    requires Padded(t.year, 4) == s[0..4] && Padded(t.month, 2) == s[4..6]
    requires Padded(t.day, 2) == s[6..8] && Padded(t.hour, 2) == s[8..10]
    requires Padded(t.minute, 2) == s[10..12] && Padded(t.second, 2) == s[12..14]
    ensures Compact(t) == s
  {
    DecimalFourDigits(t.year);
    assert s[12..] == s[12..14];
    assert s[10..] == s[10..12] + s[12..];
    assert s[8..] == s[8..10] + s[10..];
    assert s[6..] == s[6..8] + s[8..];
    assert s[4..] == s[4..6] + s[6..];
    assert s == s[0..4] + s[4..];
  }

  /**
   * The date fields are the numbers written in the slices [0:4], [4:6] and
   * [6:8]: each field, padded to its slice's width, is that slice.
   */
  lemma DateFieldsFromSlices(s: string)
    requires IsDigits(s) && ToDatetime(s).Success?
    ensures Padded(ToDatetime(s).value.year, 4) == s[0..4]
    ensures Padded(ToDatetime(s).value.month, 2) == s[4..6]
    ensures Padded(ToDatetime(s).value.day, 2) == s[6..8]
  {
    ToDatetimeAccepts(s);
    PaddedParse(s[0..4]);
    PaddedParse(s[4..6]);
    PaddedParse(s[6..8]);
  }

  /** Likewise hour, minute and second are the slices [8:10], [10:12] and [12:14]. */
  lemma TimeFieldsFromSlices(s: string)
    requires IsDigits(s) && ToDatetime(s).Success?
    ensures Padded(ToDatetime(s).value.hour, 2) == s[8..10]
    ensures Padded(ToDatetime(s).value.minute, 2) == s[10..12]
    ensures Padded(ToDatetime(s).value.second, 2) == s[12..14]
  {
    ToDatetimeAccepts(s);
    PaddedParse(s[8..10]);
    PaddedParse(s[10..12]);
    PaddedParse(s[12..14]);
  }

  /**
   * `to_datetime` accepts a digit string exactly when it has 14 characters
   * and its slices name a real calendar instant.
   */
  lemma ToDatetimeAccepts(s: string)
    requires IsDigits(s)
    ensures ToDatetime(s).Success? <==> |s| == 14 && Valid(SliceFields(s))
    ensures ToDatetime(s).Success? ==>
      && ToDatetime(s).value.year == ParseNat(s[0..4])
      && ToDatetime(s).value.month == ParseNat(s[4..6])
      && ToDatetime(s).value.day == ParseNat(s[6..8])
      && ToDatetime(s).value.hour == ParseNat(s[8..10])
      && ToDatetime(s).value.minute == ParseNat(s[10..12])
      && ToDatetime(s).value.second == ParseNat(s[12..14])
  {
  }

  /** Years below 1000 print with fewer than four digits. */
  lemma DecimalShort(n: nat)
    requires n < 1000
    ensures |Decimal(n)| <= 3
  {
    if n >= 10 {
      assert |Decimal(n / 10)| <= 2 by {
        if n / 10 >= 10 {
          assert |Decimal(n / 100)| == 1;
        }
      }
    }
  }

  /**
   * The round trip needs four-digit years: with glibc's unpadded `%Y`, a
   * year below 1000 prints with at most three digits, the text is shorter
   * than 14 characters, and the length assertion of `to_datetime` fails.
   */
  lemma ShortYearBreaksRoundTrip(t: DateTime)
    requires Valid(t) && t.year < 1000
    ensures Strftime(t, DATE_FORMAT).Some?
    ensures |Strftime(t, DATE_FORMAT).value| < 14
    ensures IsDigits(Strftime(t, DATE_FORMAT).value)
    ensures ToDatetime(Strftime(t, DATE_FORMAT).value) == Failure(LengthNot14)
  {
    StrftimeDateFormat(t);
    DecimalShort(t.year);
  }
}
