/**
 * Naive calendar dates (no time zone, as Python's datetime.date), the decimal
 * digit strings they are written in, and the three conversions the pipeline
 * performs on them: reading an eight-digit YYYYMMDD token, rendering a date as
 * a zero-padded YYYY-MM-DD string, and reading that string back the way
 * datetime.strptime(s, '%Y-%m-%d') does.
 */
module Calendar {
  import opened Wrappers

  datatype Date = Date(year: nat, month: nat, day: nat)

  predicate IsLeapYear(year: nat) {
    year % 4 == 0 && (year % 100 != 0 || year % 400 == 0)
  }

  function DaysInMonth(year: nat, month: nat): (n: nat)
    requires 1 <= month <= 12
    ensures month == 2 && IsLeapYear(year) ==> n == 29
    ensures month == 2 && !IsLeapYear(year) ==> n == 28
    ensures month in {4, 6, 9, 11} ==> n == 30
    ensures month != 2 && month !in {4, 6, 9, 11} ==> n == 31
  {
    if month == 2 then (if IsLeapYear(year) then 29 else 28)
    else if month in {4, 6, 9, 11} then 30
    else 31
  }

  /** A date Python's datetime accepts: years 1..9999 of the proleptic Gregorian calendar. */
  predicate ValidDate(d: Date) {
    1 <= d.year <= 9999 && 1 <= d.month <= 12 && 1 <= d.day <= DaysInMonth(d.year, d.month)
  }

  /** Chronological order: (year, month, day) compared lexicographically. */
  predicate DateLe(a: Date, b: Date) {
    a.year < b.year || (a.year == b.year && (a.month < b.month || (a.month == b.month && a.day <= b.day)))
  }

  // ---------------------------------------------------------------------------
  // Decimal digits
  // ---------------------------------------------------------------------------

  predicate IsDigit(c: char) {
    '0' <= c <= '9'
  }

  predicate AllDigits(s: string) {
    forall i :: 0 <= i < |s| ==> IsDigit(s[i])
  }

  function DigitValue(c: char): (v: nat)
    requires IsDigit(c)
    ensures v <= 9
  {
    c as int - '0' as int
  }

  function DigitChar(v: nat): (c: char)
    requires v <= 9
    ensures IsDigit(c) && DigitValue(c) == v
  {
    ('0' as int + v) as char
  }

  function Pow10(n: nat): (p: nat)
    ensures p >= 1
  {
    if n == 0 then 1 else 10 * Pow10(n - 1)
  }

  /** The number a string of decimal digits denotes (Python's int() on ASCII digits). */
  function DigitsValue(s: string): (v: nat)
    requires AllDigits(s)
    ensures v < Pow10(|s|)
  {
    if s == [] then 0 else DigitsValue(s[..|s| - 1]) * 10 + DigitValue(s[|s| - 1])
  }

  /** The last `width` decimal digits of v, zero-padded on the left (strftime's %Y, %m, %d). */
  function PaddedDecimal(v: nat, width: nat): (s: string)
    ensures |s| == width && AllDigits(s)
  {
    if width == 0 then [] else PaddedDecimal(v / 10, width - 1) + [DigitChar(v % 10)]
  }

  /** Python's str() of a non-negative int: its decimal digits, without leading zeros. */
  function DecimalString(n: nat): (s: string)
    ensures 1 <= |s| && AllDigits(s)
    ensures n > 0 ==> s[0] != '0'
    ensures |s| == 1 <==> n < 10
  {
    if n < 10 then [DigitChar(n)] else DecimalString(n / 10) + [DigitChar(n % 10)]
  }

  lemma {:induction false} PaddedDecimalRoundTrip(v: nat, width: nat)
    requires v < Pow10(width)
    ensures DigitsValue(PaddedDecimal(v, width)) == v
  {
    if width > 0 {
      var s := PaddedDecimal(v, width);
      assert s[..|s| - 1] == PaddedDecimal(v / 10, width - 1);
      PaddedDecimalRoundTrip(v / 10, width - 1);
    }
  }

  lemma DivModTen(q: nat, r: nat)
    requires r <= 9
    ensures (q * 10 + r) / 10 == q && (q * 10 + r) % 10 == r
  {
  }

  lemma {:induction false} DigitsRoundTrip(s: string)
    requires AllDigits(s)
    ensures PaddedDecimal(DigitsValue(s), |s|) == s
  {
    if s != [] {
      var init := s[..|s| - 1];
      var v := DigitsValue(s);
      DivModTen(DigitsValue(init), DigitValue(s[|s| - 1]));
      DigitsRoundTrip(init);
      assert s == init + [s[|s| - 1]];
    }
  }

  lemma {:induction false} DecimalStringRoundTrip(n: nat)
    ensures DigitsValue(DecimalString(n)) == n
  {
    if n >= 10 {
      var s := DecimalString(n);
      assert s[..|s| - 1] == DecimalString(n / 10);
      DecimalStringRoundTrip(n / 10);
    }
  }

  /** Distinct numbers have distinct str() forms, so year and month keys never collide. */
  lemma DecimalStringInjective(a: nat, b: nat)
    ensures DecimalString(a) == DecimalString(b) ==> a == b
  {
    DecimalStringRoundTrip(a);
    DecimalStringRoundTrip(b);
  }

  // ---------------------------------------------------------------------------
  // YYYYMMDD tokens (pandas.to_datetime with format='%Y%m%d')
  // ---------------------------------------------------------------------------

  /** The date an eight-digit YYYYMMDD token denotes, or None when the token is not one. */
  function ParseCompact(token: string): (r: Option<Date>)
    ensures r.Some? ==> ValidDate(r.value)
    ensures r.Some? ==> |token| == 8 && AllDigits(token)
  {
    if |token| == 8 && AllDigits(token) then
      var d := Date(DigitsValue(token[..4]), DigitsValue(token[4..6]), DigitsValue(token[6..]));
      if ValidDate(d) then Some(d) else None
    else None
  }

  /** The eight-digit token of a date. */
  function CompactString(d: Date): (s: string)
  {
    PaddedDecimal(d.year, 4) + PaddedDecimal(d.month, 2) + PaddedDecimal(d.day, 2)
  }

  /** A token that is read as a date is that date's eight digits. */
  lemma ParseCompactSound(token: string, d: Date)
    requires ParseCompact(token) == Some(d)
    ensures ValidDate(d) && token == CompactString(d)
  {
    var y, m, dd := token[..4], token[4..6], token[6..];
    assert AllDigits(y) && AllDigits(m) && AllDigits(dd);
    DigitsRoundTrip(y);
    DigitsRoundTrip(m);
    DigitsRoundTrip(dd);
    assert token == y + m + dd;
  }

  /** The eight digits of a valid date are read as that date. */
  lemma ParseCompactComplete(d: Date)
    requires ValidDate(d)
    ensures ParseCompact(CompactString(d)) == Some(d)
  {
    var token := CompactString(d);
    var y, m, dd := PaddedDecimal(d.year, 4), PaddedDecimal(d.month, 2), PaddedDecimal(d.day, 2);
    assert token[..4] == y && token[4..6] == m && token[6..] == dd;
    assert AllDigits(token) by {
      forall i | 0 <= i < |token| ensures IsDigit(token[i]) {
        if i < 4 { assert token[i] == y[i]; }
        else if i < 6 { assert token[i] == m[i - 4]; }
        else { assert token[i] == dd[i - 6]; }
      }
    }
    PaddedDecimalRoundTrip(d.year, 4);
    PaddedDecimalRoundTrip(d.month, 2);
    PaddedDecimalRoundTrip(d.day, 2);
  }

  /**
   * A token is read as date d exactly when d is a real date and the token is
   * d's eight digits: every valid token is kept, every other one (month 13,
   * day 99, 29 February of a common year, a short token) is rejected.
   */
  lemma ParseCompactExactly(token: string, d: Date)
    ensures ParseCompact(token) == Some(d) <==> ValidDate(d) && token == CompactString(d)
  {
    if ParseCompact(token) == Some(d) {
      ParseCompactSound(token, d);
    }
    if ValidDate(d) && token == CompactString(d) {
      ParseCompactComplete(d);
    }
  }

  // ---------------------------------------------------------------------------
  // YYYY-MM-DD strings (strftime('%Y-%m-%d') and strptime(s, '%Y-%m-%d'))
  // ---------------------------------------------------------------------------

  /** A date written as zero-padded YYYY-MM-DD. */
  function FormatIso(d: Date): (s: string)
    ensures |s| == 10 && s[4] == '-' && s[7] == '-'
  {
    PaddedDecimal(d.year, 4) + "-" + PaddedDecimal(d.month, 2) + "-" + PaddedDecimal(d.day, 2)
  }

  predicate IsNonZeroDigit(c: char) {
    '1' <= c <= '9'
  }

  /**
   * The %m field at the start of t: the first alternative of
   * 1[0-2] | 0[1-9] | [1-9] that matches, with its length. The field is always
   * followed by '-', and when 1[0-2] matches, falling back to the shorter [1-9]
   * would leave a digit where '-' is needed, so the first match is the only one.
   */
  function MonthField(t: string): (r: Option<(nat, nat)>)
    ensures r.Some? ==> 1 <= r.value.0 <= 12 && 1 <= r.value.1 <= 2 && r.value.1 <= |t|
  {
    if 2 <= |t| && t[0] == '1' && '0' <= t[1] <= '2' then Some((10 + DigitValue(t[1]), 2))
    else if 2 <= |t| && t[0] == '0' && IsNonZeroDigit(t[1]) then Some((DigitValue(t[1]), 2))
    else if 1 <= |t| && IsNonZeroDigit(t[0]) then Some((DigitValue(t[0]), 1))
    else None
  }

  /**
   * The %d field when it must use up all of t (strptime rejects unconverted
   * data): t matches one of 3[01] | [12]\d | 0[1-9] | [1-9] | ' '[1-9] in full,
   * where \d is taken as an ASCII digit only.
   * The two-character alternatives are tried before [1-9], so a two-character
   * rest is never cut short.
   */
  function DayField(t: string): (r: Option<nat>)
    ensures r.Some? ==> 1 <= r.value <= 31
  {
    if |t| == 2 && t[0] == '3' && '0' <= t[1] <= '1' then Some(30 + DigitValue(t[1]))
    else if |t| == 2 && '1' <= t[0] <= '2' && IsDigit(t[1]) then Some(10 * DigitValue(t[0]) + DigitValue(t[1]))
    else if |t| == 2 && t[0] == '0' && IsNonZeroDigit(t[1]) then Some(DigitValue(t[1]))
    else if |t| == 1 && IsNonZeroDigit(t[0]) then Some(DigitValue(t[0]))
    else if |t| == 2 && t[0] == ' ' && IsNonZeroDigit(t[1]) then Some(DigitValue(t[1]))
    else None
  }

  /**
   * datetime.strptime(s, '%Y-%m-%d'): four digits, '-', the month field, '-',
   * the day field to the end of s, and then a real date; None stands for the
   * ValueError the caller catches.
   */
  function ParseIso(s: string): (r: Option<Date>)
    ensures r.Some? ==> ValidDate(r.value)
  {
    if |s| < 5 || !AllDigits(s[..4]) || s[4] != '-' then None
    else
      match MonthField(s[5..])
      case None => None
      case Some(field) =>
        var (month, len) := field;
        if |s| <= 5 + len || s[5 + len] != '-' then None
        else
          match DayField(s[6 + len..])
          case None => None
          case Some(day) =>
            var d := Date(DigitsValue(s[..4]), month, day);
            if ValidDate(d) then Some(d) else None
  }

  lemma PaddedTwoDigits(v: nat)
    requires v < 100
    ensures PaddedDecimal(v, 2) == [DigitChar(v / 10), DigitChar(v % 10)]
  {
    var q := v / 10;
    assert q < 10;
    assert PaddedDecimal(q, 1) == PaddedDecimal(q / 10, 0) + [DigitChar(q % 10)];
    assert q % 10 == q;
    assert PaddedDecimal(v, 2) == PaddedDecimal(q, 1) + [DigitChar(v % 10)];
  }

  /** A zero-padded month followed by '-' is read by the first alternative that fits, in full. */
  lemma MonthFieldPadded(month: nat, rest: string)
    requires 1 <= month <= 12 && rest != [] && rest[0] == '-'
    ensures MonthField(PaddedDecimal(month, 2) + rest) == Some((month, 2))
  {
    PaddedTwoDigits(month);
    var t := PaddedDecimal(month, 2) + rest;
    assert t[0] == DigitChar(month / 10) && t[1] == DigitChar(month % 10);
  }

  /** A zero-padded day is read in full. */
  lemma DayFieldPadded(day: nat)
    requires 1 <= day <= 31
    ensures DayField(PaddedDecimal(day, 2)) == Some(day)
  {
    PaddedTwoDigits(day);
  }

  /** Reading back a rendered date gives the same date. */
  lemma IsoRoundTrip(d: Date)
    requires ValidDate(d)
    ensures ParseIso(FormatIso(d)) == Some(d)
  {
    var s := FormatIso(d);
    var y, m, dd := PaddedDecimal(d.year, 4), PaddedDecimal(d.month, 2), PaddedDecimal(d.day, 2);
    assert s[..4] == y && s[5..] == m + ("-" + dd) && s[8..] == dd;
    PaddedDecimalRoundTrip(d.year, 4);
    MonthFieldPadded(d.month, "-" + dd);
    DayFieldPadded(d.day);
  }

  /** Distinct dates are rendered as distinct strings. */
  lemma FormatIsoInjective(a: Date, b: Date)
    requires ValidDate(a) && ValidDate(b)
    ensures FormatIso(a) == FormatIso(b) ==> a == b
  {
    IsoRoundTrip(a);
    IsoRoundTrip(b);
  }

  /** The token of an example row that is kept. */
  lemma CompactExamples()
    ensures ParseCompact("20010115") == Some(Date(2001, 1, 15))
  {
    assert AllDigits("20010115");
    assert "20010115"[..4] == "2001" && "20010115"[4..6] == "01" && "20010115"[6..] == "15";
    assert DigitsValue("2001") == 2001 by {
      assert "2001"[..3] == "200" && "200"[..2] == "20" && "20"[..1] == "2";
    }
    assert DigitsValue("01") == 1 by { assert "01"[..1] == "0"; }
    assert DigitsValue("15") == 15 by { assert "15"[..1] == "1"; }
  }

  /** Tokens of rows that are dropped: month 13 with day 99, and 29 February of a common year. */
  lemma CompactExamplesRejected()
    ensures ParseCompact("20011399") == None
    ensures ParseCompact("20010229") == None
  {
    assert "20011399"[4..6] == "13";
    assert DigitsValue("13") == 13 by { assert "13"[..1] == "1"; }
    assert "20010229"[..4] == "2001" && "20010229"[4..6] == "02" && "20010229"[6..] == "29";
    assert DigitsValue("2001") == 2001 by {
      assert "2001"[..3] == "200" && "200"[..2] == "20" && "20"[..1] == "2";
    }
    assert DigitsValue("02") == 2 by { assert "02"[..1] == "0"; }
    assert DigitsValue("29") == 29 by { assert "29"[..1] == "2"; }
  }

  /** The example row's year is keyed as "2001" and its date rendered as "2001-01-15". */
  lemma RenderedExamples()
    ensures DecimalString(2001) == "2001"
    ensures FormatIso(Date(2001, 1, 15)) == "2001-01-15"
  {
    assert DecimalString(2001) == DecimalString(200) + ['1'];
    assert DecimalString(200) == DecimalString(20) + ['0'];
    assert DecimalString(20) == DecimalString(2) + ['0'];
    PaddedTwoDigits(1);
    PaddedTwoDigits(15);
    PaddedTwoDigits(20);
    assert PaddedDecimal(2001, 4) == PaddedDecimal(200, 3) + ['1'];
    assert PaddedDecimal(200, 3) == PaddedDecimal(20, 2) + ['0'];
  }

  /** The canonical form of the example row's date is read back. */
  lemma IsoExampleCanonical()
    ensures ParseIso("2001-01-15") == Some(Date(2001, 1, 15))
  {
    var s := "2001-01-15";
    assert s[..4] == "2001" && s[5..] == "01-15" && s[8..] == "15";
    assert DigitsValue("2001") == 2001 by {
      assert "2001"[..3] == "200" && "200"[..2] == "20" && "20"[..1] == "2";
    }
    assert MonthField(s[5..]) == Some((1, 2));
  }

  /** strptime also reads unpadded and space-padded month and day fields. */
  lemma IsoExampleUnpadded()
    ensures ParseIso("2001-1-5") == Some(Date(2001, 1, 5))
    ensures ParseIso("2001-01- 5") == Some(Date(2001, 1, 5))
  {
    assert DigitsValue("2001") == 2001 by {
      assert "2001"[..3] == "200" && "200"[..2] == "20" && "20"[..1] == "2";
    }
    var s := "2001-1-5";
    assert s[..4] == "2001" && s[5..] == "1-5" && s[7..] == "5";
    assert MonthField(s[5..]) == Some((1, 1));
    var t := "2001-01- 5";
    assert t[..4] == "2001" && t[5..] == "01- 5" && t[8..] == " 5";
    assert MonthField(t[5..]) == Some((1, 2));
  }

  /** 30 February, month 13 and a three-digit day are all rejected. */
  lemma IsoExampleRejected()
    ensures ParseIso("2001-02-30") == None
    ensures ParseIso("2001-13-01") == None
    ensures ParseIso("2001-01-150") == None
  {
    var s := "2001-02-30";
    assert s[5..] == "02-30" && s[8..] == "30";
    assert MonthField(s[5..]) == Some((2, 2));
    var t := "2001-13-01";
    assert t[5..] == "13-01" && t[5] == '1' && t[6] == '3' && t[7] == '-';
    assert MonthField(t[5..]) == Some((1, 1));
    var u := "2001-01-150";
    assert u[5..] == "01-150" && u[8..] == "150";
  }
}
