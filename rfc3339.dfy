/**
  * Date-times as a record, with the RFC 3339 text form (section 5.6 of RFC 3339)
  * the program writes and reads, and the `%Y-%m-%d`-style date parsing it uses.
  */
module Rfc3339 {
  import opened Wrappers
  import opened Text

  datatype Date = Date(year: nat, month: nat, day: nat)

  /** A calendar date and a time of day to the millisecond (the offset is not kept). */
  datatype DateTime = DateTime(date: Date, hour: nat, minute: nat, second: nat, millis: nat)

  /** How many fractional digits the text form carries: none, or exactly three. */
  datatype SecondsFormat = Secs | Millis

  predicate IsLeapYear(year: nat) {
    year % 4 == 0 && (year % 100 != 0 || year % 400 == 0)
  }

  function DaysInMonth(year: nat, month: nat): (n: nat)
    requires 1 <= month <= 12
    ensures 28 <= n <= 31
  {
    if month == 2 then (if IsLeapYear(year) then 29 else 28)
    else if month == 4 || month == 6 || month == 9 || month == 11 then 30
    else 31
  }

  /** A date of the proleptic Gregorian calendar with a four-digit year. */
  predicate ValidDate(d: Date) {
    d.year <= 9999 && 1 <= d.month <= 12 && 1 <= d.day <= DaysInMonth(d.year, d.month)
  }

  predicate ValidTime(hour: nat, minute: nat, second: nat, millis: nat) {
    hour < 24 && minute < 60 && second < 60 && millis < 1000
  }

  predicate Valid(dt: DateTime) {
    ValidDate(dt.date) && ValidTime(dt.hour, dt.minute, dt.second, dt.millis)
  }

  /** Midnight at the start of a date. */
  function Midnight(d: Date): DateTime {
    DateTime(d, 0, 0, 0, 0)
  }

  /** What survives formatting at precision `p`: without milliseconds they are dropped. */
  function AtPrecision(dt: DateTime, p: SecondsFormat): DateTime {
    if p == Secs then dt.(millis := 0) else dt
  }

  // ---------------------------------------------------------------------------
  // Text form

  /** `n` as exactly two digits (`{:02}`). */
  function Digits2(n: nat): (s: string)
    requires n < 100
    ensures |s| == 2 && AllDigits(s)
  {
    [DigitChar(n / 10), DigitChar(n % 10)]
  }

  /** `n` as exactly three digits (`{:03}`). */
  function Digits3(n: nat): (s: string)
    requires n < 1000
    ensures |s| == 3 && AllDigits(s)
  {
    [DigitChar(n / 100)] + Digits2(n % 100)
  }

  /** `n` as exactly four digits (`{:04}`). */
  function Digits4(n: nat): (s: string)
    requires n < 10000
    ensures |s| == 4 && AllDigits(s)
  {
    Digits2(n / 100) + Digits2(n % 100)
  }

  /** `YYYY<sep>MM<sep>DD`. */
  function FormatDate(d: Date, sep: char): string
    requires ValidDate(d)
  {
    Digits4(d.year) + [sep] + Digits2(d.month) + [sep] + Digits2(d.day)
  }

  /** `HH:MM:SS`. */
  function FormatTime(dt: DateTime): string
    requires Valid(dt)
  {
    Digits2(dt.hour) + ":" + Digits2(dt.minute) + ":" + Digits2(dt.second)
  }

  /** What follows the seconds: `.mmm` at millisecond precision, then the UTC designator `Z`. */
  function FormatTail(dt: DateTime, p: SecondsFormat): string
    requires Valid(dt)
  {
    (if p == Millis then "." + Digits3(dt.millis) else "") + "Z"
  }

  /** RFC 3339 in UTC with a `Z` suffix: `YYYY-MM-DDTHH:MM:SS[.mmm]Z`. */
  function Format(dt: DateTime, p: SecondsFormat): string
    requires Valid(dt)
  {
    FormatDate(dt.date, '-') + "T" + FormatTime(dt) + FormatTail(dt, p)
  }

  /** The two digits of `s` at `i` and `i + 1`, read as a number. */
  function Num2(s: string, i: nat): (r: Option<nat>)
    requires i + 2 <= |s|
    ensures r.Some? ==> r.value < 100
  {
    if IsDigit(s[i]) && IsDigit(s[i + 1]) then Some(DigitValue(s[i]) * 10 + DigitValue(s[i + 1]))
    else None
  }

  /** The four digits of `s` from `i`, read as a number. */
  function Num4(s: string, i: nat): (r: Option<nat>)
    requires i + 4 <= |s|
    ensures r.Some? ==> r.value < 10000
  {
    var hi, lo := Num2(s, i), Num2(s, i + 2);
    if hi.Some? && lo.Some? then Some(hi.value * 100 + lo.value) else None
  }

  /** A time-zone designator: `Z`, `z`, or `+hh:mm` / `-hh:mm`. */
  predicate ValidZone(z: string) {
    z == "Z" || z == "z"
    || (|z| == 6 && (z[0] == '+' || z[0] == '-') && z[3] == ':'
        && Num2(z, 1).Some? && Num2(z, 4).Some?
        && Num2(z, 1).value < 24 && Num2(z, 4).value < 60)
  }

  /** Number of leading decimal digits of `s`. */
  function LeadingDigits(s: string): (n: nat)
    ensures n <= |s| && AllDigits(s[..n])
    ensures n < |s| ==> !IsDigit(s[n])
  {
    |s| - |TrimStart(s, IsDigit)|
  }

  /** Milliseconds denoted by a fraction's digits: the first three, right-padded with zeros. */
  function FractionMillis(frac: string): (ms: nat)
    requires AllDigits(frac)
    ensures ms < 1000
  {
    var three := (frac + "000")[..3];
    DigitsValueBound(three);
    DigitsValue(three)
  }

  /** The milliseconds written after the seconds field, when a valid zone follows them. */
  function ParseTail(rest: string): Option<nat>
  {
    if |rest| > 0 && rest[0] == '.' then
      var n := LeadingDigits(rest[1..]);
      if n >= 1 && ValidZone(rest[1 + n..]) then Some(FractionMillis(rest[1..1 + n])) else None
    else if ValidZone(rest) then Some(0)
    else None
  }

  /**
    * `DateTime::parse_from_rfc3339`, restricted to what it accepts with a four-digit
    * year and seconds below 60; the date and time are separated by `T`, `t` or a
    * space. The fields are those of the local
    * time written in the text; the offset is checked and dropped.
    */
  function Parse(s: string): (r: Option<DateTime>)
    ensures r.Some? ==> Valid(r.value)
  {
    if |s| < 20 || s[4] != '-' || s[7] != '-' || (s[10] != 'T' && s[10] != 't' && s[10] != ' ') || s[13] != ':' || s[16] != ':'
    then None
    else
      var year, month, day := Num4(s, 0), Num2(s, 5), Num2(s, 8);
      var hour, minute, second := Num2(s, 11), Num2(s, 14), Num2(s, 17);
      var millis := ParseTail(s[19..]);
      if year.None? || month.None? || day.None? || hour.None? || minute.None? || second.None?
         || millis.None?
      then None
      else
        var dt := DateTime(Date(year.value, month.value, day.value), hour.value, minute.value,
                           second.value, millis.value);
        if Valid(dt) then Some(dt) else None
  }

  // ---------------------------------------------------------------------------
  // Round trip

  lemma Num2Digits2(a: string, b: string, n: nat)
    requires n < 100
    ensures Num2(a + Digits2(n) + b, |a|) == Some(n)
  {
    var s := a + Digits2(n) + b;
    assert s[|a|] == DigitChar(n / 10) && s[|a| + 1] == DigitChar(n % 10);
  }

  lemma Num4Digits4(b: string, n: nat)
    requires n < 10000
    ensures Num4(Digits4(n) + b, 0) == Some(n)
  {
    var s := Digits4(n) + b;
    assert s == [] + Digits2(n / 100) + (Digits2(n % 100) + b);
    assert s == Digits2(n / 100) + Digits2(n % 100) + b;
    Num2Digits2([], Digits2(n % 100) + b, n / 100);
    Num2Digits2(Digits2(n / 100), b, n % 100);
  }

  lemma Num2Prefix(a: string, b: string, i: nat)
    requires i + 2 <= |a|
    ensures Num2(a + b, i) == Num2(a, i)
  {
    assert (a + b)[i] == a[i] && (a + b)[i + 1] == a[i + 1];
  }

  lemma Num2Shift(a: string, b: string, i: nat)
    requires i + 2 <= |b|
    ensures Num2(a + b, |a| + i) == Num2(b, i)
  {
    assert (a + b)[|a| + i] == b[i] && (a + b)[|a| + i + 1] == b[i + 1];
  }

  /** Where the fields of a formatted date sit. */
  lemma DateLayout(d: Date)
    requires ValidDate(d)
    ensures var s := FormatDate(d, '-');
      |s| == 10 && s[4] == '-' && s[7] == '-'
      && Num4(s, 0) == Some(d.year) && Num2(s, 5) == Some(d.month) && Num2(s, 8) == Some(d.day)
  {
    var y, m, dd := Digits4(d.year), Digits2(d.month), Digits2(d.day);
    var s := FormatDate(d, '-');
    Num4Digits4("-" + m + "-" + dd, d.year);
    assert s == y + "-" + m + "-" + dd;
    assert s == (y + "-") + m + ("-" + dd);
    Num2Digits2(y + "-", "-" + dd, d.month);
    assert s == (y + "-" + m + "-") + dd + [];
    Num2Digits2(y + "-" + m + "-", [], d.day);
  }

  /** Where the fields of a formatted time sit. */
  lemma TimeLayout(dt: DateTime)
    requires Valid(dt)
    ensures var s := FormatTime(dt);
      |s| == 8 && s[2] == ':' && s[5] == ':'
      && Num2(s, 0) == Some(dt.hour) && Num2(s, 3) == Some(dt.minute) && Num2(s, 6) == Some(dt.second)
  {
    var h, m, sec := Digits2(dt.hour), Digits2(dt.minute), Digits2(dt.second);
    var s := FormatTime(dt);
    assert s == [] + h + (":" + m + ":" + sec);
    Num2Digits2([], ":" + m + ":" + sec, dt.hour);
    assert s == (h + ":") + m + (":" + sec);
    Num2Digits2(h + ":", ":" + sec, dt.minute);
    assert s == (h + ":" + m + ":") + sec + [];
    Num2Digits2(h + ":" + m + ":", [], dt.second);
  }

  lemma Digits2Value(n: nat)
    requires n < 100
    ensures DigitsValue(Digits2(n)) == n
  {
    var s := Digits2(n);
    assert s[..1] == [s[0]];
    assert [s[0]][..0] == [];
    assert DigitsValue([s[0]]) == n / 10;
    assert DigitsValue(s) == DigitsValue(s[..1]) * 10 + DigitValue(s[1]);
  }

  lemma Digits4Value(n: nat)
    requires n < 10000
    ensures DigitsValue(Digits4(n)) == n
  {
    DigitsValueAppend(Digits2(n / 100), Digits2(n % 100));
    Digits2Value(n / 100);
    Digits2Value(n % 100);
  }

  lemma Digits3Value(n: nat)
    requires n < 1000
    ensures DigitsValue(Digits3(n)) == n
  {
    var s := Digits3(n);
    assert s == [DigitChar(n / 100)] + Digits2(n % 100);
    DigitsValueAppend([DigitChar(n / 100)], Digits2(n % 100));
    assert [DigitChar(n / 100)][..0] == [];
    Digits2Value(n % 100);
  }

  lemma LeadingDigitsOfDigits(d: string, z: string)
    requires AllDigits(d) && z != [] && !IsDigit(z[0])
    ensures LeadingDigits(d + z) == |d|
  {
    assert (d + z)[|d|] == z[0];
  }

  /** The tail written after the seconds field reads back as the milliseconds kept. */
  lemma ParseTailFormat(millis: nat, p: SecondsFormat)
    requires millis < 1000
    ensures ParseTail(if p == Millis then "." + Digits3(millis) + "Z" else "Z")
            == Some(if p == Millis then millis else 0)
  {
    if p == Millis {
      var ms := Digits3(millis);
      Digits3Value(millis);
      var tail := "." + ms + "Z";
      assert tail[1..] == ms + "Z";
      LeadingDigitsOfDigits(ms, "Z");
      assert tail[1..4] == ms;
      assert tail[4..] == "Z";
      assert (ms + "000")[..3] == ms;
    }
  }

  /** Formatting a valid date-time and parsing it back gives it, to the precision written. */
  lemma ParseFormat(dt: DateTime, p: SecondsFormat)
    requires Valid(dt)
    ensures Parse(Format(dt, p)) == Some(AtPrecision(dt, p))
  {
    var front, tail := FormatDate(dt.date, '-') + "T" + FormatTime(dt), FormatTail(dt, p);
    var s := Format(dt, p);
    assert s == front + tail;
    assert |s| >= 20 && s[4] == '-' && s[7] == '-' && s[10] == 'T' && s[13] == ':' && s[16] == ':'
           && Num4(s, 0) == Some(dt.date.year) && Num2(s, 5) == Some(dt.date.month)
           && Num2(s, 8) == Some(dt.date.day) && Num2(s, 11) == Some(dt.hour)
           && Num2(s, 14) == Some(dt.minute) && Num2(s, 17) == Some(dt.second) by {
      FrontLayout(dt);
      Num2Prefix(front, tail, 0);
      Num2Prefix(front, tail, 2);
      Num2Prefix(front, tail, 5);
      Num2Prefix(front, tail, 8);
      Num2Prefix(front, tail, 11);
      Num2Prefix(front, tail, 14);
      Num2Prefix(front, tail, 17);
    }
    assert ParseTail(s[19..]) == Some(AtPrecision(dt, p).millis) by {
      FrontLayout(dt);
      assert s[19..] == tail;
      ParseTailFormat(dt.millis, p);
    }
  }

  /** Where the fields of a formatted date and time sit, before the seconds' tail. */
  lemma FrontLayout(dt: DateTime)
    requires Valid(dt)
    ensures var f := FormatDate(dt.date, '-') + "T" + FormatTime(dt);
      && |f| == 19 && f[4] == '-' && f[7] == '-' && f[10] == 'T' && f[13] == ':' && f[16] == ':'
      && Num4(f, 0) == Some(dt.date.year) && Num2(f, 5) == Some(dt.date.month) && Num2(f, 8) == Some(dt.date.day)
      && Num2(f, 11) == Some(dt.hour) && Num2(f, 14) == Some(dt.minute) && Num2(f, 17) == Some(dt.second)
  {
    var d, t := FormatDate(dt.date, '-'), FormatTime(dt);
    DateLayout(dt.date);
    TimeLayout(dt);
    assert d + "T" + t == d + ("T" + t);
    Num2Prefix(d, "T" + t, 0);
    Num2Prefix(d, "T" + t, 2);
    Num2Prefix(d, "T" + t, 5);
    Num2Prefix(d, "T" + t, 8);
    Num2Shift(d + "T", t, 0);
    Num2Shift(d + "T", t, 3);
    Num2Shift(d + "T", t, 6);
  }

  // ---------------------------------------------------------------------------
  // Dates alone

  /**
    * `NaiveDate::parse_from_str(s, "%Y<sep>%m<sep>%d")`, restricted to unsigned years of
    * one to four digits: three fields of one to four, one to two and one to two digits
    * forming a valid date, and nothing else.
    */
  function ParseNaiveDate(s: string, sep: char): (r: Option<Date>)
    ensures r.Some? ==> ValidDate(r.value)
  {
    var parts := Split(s, sep);
    if |parts| == 3
       && 1 <= |parts[0]| <= 4 && 1 <= |parts[1]| <= 2 && 1 <= |parts[2]| <= 2
       && AllDigits(parts[0]) && AllDigits(parts[1]) && AllDigits(parts[2])
    then
      var d := Date(DigitsValue(parts[0]), DigitsValue(parts[1]), DigitsValue(parts[2]));
      if ValidDate(d) then Some(d) else None
    else None
  }

  lemma DigitsHaveNo(s: string, c: char)
    requires AllDigits(s) && !IsDigit(c)
    ensures forall j :: 0 <= j < |s| ==> s[j] != c
  {
  }

  /** Three digit runs of the allowed widths, joined by a non-digit separator, parse as the date they spell. */
  lemma ParseDateParts(y: string, m: string, d: string, sep: char)
    requires !IsDigit(sep) && AllDigits(y) && AllDigits(m) && AllDigits(d)
    requires 1 <= |y| <= 4 && 1 <= |m| <= 2 && 1 <= |d| <= 2
    ensures var date := Date(DigitsValue(y), DigitsValue(m), DigitsValue(d));
            ParseNaiveDate(y + [sep] + m + [sep] + d, sep) == if ValidDate(date) then Some(date) else None
  {
    DigitsHaveNo(y, sep);
    DigitsHaveNo(m, sep);
    DigitsHaveNo(d, sep);
    assert y + [sep] + m + [sep] + d == y + [sep] + (m + [sep] + d);
    SplitFirst(y, sep, m + [sep] + d);
    SplitFirst(m, sep, d);
    SplitNoSeparator(d, sep);
  }

  /** A valid date written with a non-digit separator parses back to itself. */
  lemma ParseFormatDate(d: Date, sep: char)
    requires ValidDate(d) && !IsDigit(sep)
    ensures ParseNaiveDate(FormatDate(d, sep), sep) == Some(d)
  {
    Digits4Value(d.year);
    Digits2Value(d.month);
    Digits2Value(d.day);
    ParseDateParts(Digits4(d.year), Digits2(d.month), Digits2(d.day), sep);
  }

  /** The text form is 20 characters long, 24 with milliseconds. */
  lemma FormatLength(dt: DateTime, p: SecondsFormat)
    requires Valid(dt)
    ensures |Format(dt, p)| == if p == Millis then 24 else 20
  {
  }

  // ---------------------------------------------------------------------------
  // `format!` padding of date-time fields

  /** `{:0>2}` of a number below 100 is its two digits. */
  lemma PadZeroDigits2(n: nat)
    requires n < 100
    ensures PadZero(n, 2) == Digits2(n)
  {
    if n >= 10 {
      assert NatToString(n / 10) == [DigitChar(n / 10)];
    }
  }

  /** `{:0>3}` of a number below 1000 is its three digits. */
  lemma PadZeroDigits3(n: nat)
    requires n < 1000
    ensures PadZero(n, 3) == Digits3(n)
  {
    if n >= 100 {
      assert NatToString(n / 100) == [DigitChar(n / 100)];
      assert n / 10 / 10 == n / 100 && n / 10 % 10 == n % 100 / 10;
      assert NatToString(n / 10) == [DigitChar(n / 100), DigitChar(n % 100 / 10)];
    } else if n >= 10 {
      assert NatToString(n / 10) == [DigitChar(n / 10)];
      assert n / 100 == 0 && n % 100 == n;
    } else {
      assert n / 100 == 0 && n % 100 / 10 == 0;
    }
  }

  /** The plain decimal text (`{}`) of a four-digit number is its four digits. */
  lemma NatToStringDigits4(n: nat)
    requires 1000 <= n < 10000
    ensures NatToString(n) == Digits4(n)
  {
    assert NatToString(n / 1000) == [DigitChar(n / 1000)];
    assert n / 10 / 10 / 10 == n / 1000 && n / 10 / 10 % 10 == n / 100 % 10;
    assert NatToString(n / 100) == [DigitChar(n / 1000), DigitChar(n / 100 % 10)];
    assert n / 10 / 10 == n / 100 && n / 10 % 10 == n % 100 / 10;
    assert NatToString(n / 10) == [DigitChar(n / 1000), DigitChar(n / 100 % 10), DigitChar(n % 100 / 10)];
    assert n / 100 / 10 == n / 1000 && n % 10 == n % 100 % 10;
  }

  /** `{:0>2}` of a four-digit number is its four digits. */
  lemma PadZeroDigits4(n: nat)
    requires 1000 <= n < 10000
    ensures PadZero(n, 2) == Digits4(n)
  {
    NatToStringDigits4(n);
  }
}
