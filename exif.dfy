/**
  * Reading capture dates out of EXIF tags: which file types carry EXIF, the
  * tolerant date-time parser with its seconds overflow and sub-second digits,
  * and the GPS date stamp.
  */
module Exif {
  import opened Wrappers
  import opened Text
  import opened Rfc3339
  import opened FileType

  /** The dates and identifier read from a file's EXIF block. */
  datatype ParsedExif = ParsedExif(
    datetime_original: Option<string>,
    datetime: Option<string>,
    gps_date: Option<string>,
    unique_id: Option<string>)

  /**
    * The ASCII tags the program asks the EXIF reader for, already rendered as text
    * (absent when the file lacks the tag).
    */
  datatype ExifTags = ExifTags(
    date_time_original: Option<string>,
    sub_sec_time_original: Option<string>,
    modify_date: Option<string>,
    sub_sec_time: Option<string>,
    gps_date_stamp: Option<string>,
    image_unique_id: Option<string>)

  /** Only JPEG, PNG and HEIC files are searched for EXIF. */
  predicate DoesFileFormatHaveExif(t: AccurateFileType) {
    t == Jpg || t == Png || t == Heic
  }

  // ---------------------------------------------------------------------------
  // Sub-second digits

  /** The number of decimal digits of `v` (`floor(log10 v) + 1` for positive `v`). */
  function DigitCount(v: nat): (k: nat)
    ensures 1 <= k
  {
    |NatToString(v)|
  }

  lemma DigitCountBound(v: nat)
    ensures v < Pow10(DigitCount(v))
  {
    NatToStringValue(v);
    DigitsValueBound(NatToString(v));
  }

  /**
    * A `SubSecTime` tag read as a fraction of a second: `v` over ten to its digit
    * count, in milliseconds rounded half up. `0` is `0`.
    */
  function SubSecondTimeToMs(v: nat): (ms: nat)
    ensures ms <= 1000
  {
    if v == 0 then 0
    else
      var scale := Pow10(DigitCount(v));
      var num, den := 2000 * v + scale, 2 * scale;
      DigitCountBound(v);
      QuotientBound(num, den, 1000);
      num / den
  }

  /** The milliseconds are `1000 * v / scale` rounded to the nearest integer, halves up. */
  lemma SubSecondRounding(v: nat)
    requires v > 0
    ensures var scale := Pow10(DigitCount(v));
            var ms := SubSecondTimeToMs(v);
            2 * scale * ms <= 2000 * v + scale < 2 * scale * (ms + 1)
  {
    var scale := Pow10(DigitCount(v));
    RoundedQuotient(2000 * v + scale, 2 * scale);
  }

  lemma RoundedQuotient(x: nat, y: nat)
    requires y > 0
    ensures y * (x / y) <= x < y * (x / y + 1)
  {
  }

  lemma MulMonotone(y: nat, a: nat, b: nat)
    ensures a <= b ==> y * a <= y * b
  {
    if a <= b {
      assert y * b == y * a + y * (b - a);
    }
  }

  lemma QuotientBound(x: nat, y: nat, bound: nat)
    requires y > 0 && x < y * (bound + 1)
    ensures 0 <= x / y <= bound
  {
    RoundedQuotient(x, y);
    MulMonotone(y, bound + 1, x / y);
  }

  lemma {:induction false} Pow10Add(m: nat, n: nat)
    ensures Pow10(m + n) == Pow10(m) * Pow10(n)
  {
    if m > 0 {
      Pow10Add(m - 1, n);
    }
  }

  /** Up to three digits are exact milliseconds, scaled up to three digits: `2` is 200 ms, `23` is 230 ms. */
  lemma SubSecondExact(v: nat)
    requires 0 < v < 1000
    ensures DigitCount(v) <= 3
    ensures SubSecondTimeToMs(v) == v * Pow10(3 - DigitCount(v))
  {
    NatToStringLength(v, 3);
    var k := DigitCount(v);
    var scale := Pow10(k);
    var up := Pow10(3 - k);
    Pow10Add(k, 3 - k);
    assert scale * up == 1000;
    var ms := SubSecondTimeToMs(v);
    SubSecondRounding(v);
    assert 2000 * v + scale == 2 * scale * (v * up) + scale;
    Floor(ms, v * up, 2 * scale, scale);
  }

  /** A quotient pinned between two multiples is the unique one. */
  lemma Floor(q: nat, r: nat, y: nat, extra: nat)
    requires 0 <= extra < y
    requires y * q <= y * r + extra < y * (q + 1)
    ensures q == r
  {
    MulMonotone(y, q + 1, r);
    MulMonotone(y, r + 1, q);
  }

  /** The sub-second values the source's tests list. */
  lemma SubSecondSamples()
    ensures SubSecondTimeToMs(2) == 200
    ensures SubSecondTimeToMs(23) == 230
    ensures SubSecondTimeToMs(234) == 234
    ensures SubSecondTimeToMs(2345) == 235
  {
    SubSecondExact(2);
    SubSecondExact(23);
    SubSecondExact(234);
    assert NatToString(2345) == "2345" by {
      assert NatToString(2) == "2";
      assert NatToString(23) == "23";
      assert NatToString(234) == "234";
    }
    assert Pow10(4) == 10000;
    var ms := SubSecondTimeToMs(2345);
    SubSecondRounding(2345);
    Floor(ms, 235, 20000, 0);
  }

  /** The sub-second tag as a number: nothing when it is absent or not a `u32`. */
  function SubSecondValue(tag: Option<string>): (r: Option<nat>)
    ensures r.Some? ==> tag.Some? && ParseU32(tag.value) == r
    ensures tag.Some? && ParseU32(tag.value).None? ==> r.None?
  {
    match tag
    case None => None
    case Some(s) => ParseU32(s)
  }

  // ---------------------------------------------------------------------------
  // Date-times

  /**
    * Seconds above 60 carried into minutes, 60 at a time, as long as more than 60
    * remain: the total `60 * minutes + seconds` is kept and the seconds end at most 60.
    */
  function NormalizeSeconds(mm: nat, ss: nat): (r: (nat, nat))
    ensures r.0 * 60 + r.1 == mm * 60 + ss
    ensures r.1 <= 60 && mm <= r.0
    ensures ss <= 60 ==> r == (mm, ss)
    ensures ss > 60 ==> 0 < r.1
    decreases ss
  {
    if ss <= 60 then (mm, ss) else NormalizeSeconds(mm + 1, ss - 60)
  }

  /** For seconds above 60 the carry is the only split of the total with 1 to 60 seconds left. */
  lemma NormalizeSecondsUnique(mm: nat, ss: nat, m: nat, s: nat)
    requires ss > 60 && 0 < s <= 60 && m * 60 + s == mm * 60 + ss
    ensures NormalizeSeconds(mm, ss) == (m, s)
  {
    var r := NormalizeSeconds(mm, ss);
    MulMonotone(60, r.0 + 1, m);
    MulMonotone(60, m + 1, r.0);
  }

  /**
    * What `parse_exif_datetime` yields, as a function of its inputs: the date before
    * the first space read as `%Y-%m-%d`; no time part gives midnight; otherwise the
    * `h:m:s` fields with the seconds carried, an optional sub-second value, and a
    * time of day that must then be in range. Millisecond precision exactly when a
    * sub-second value is given with a time.
    */
  function ExifDatetime(d: Option<string>, sub: Option<nat>): (r: Option<string>)
  {
    match d
    case None => None
    case Some(text) =>
      var s := Split(text, ' ');
      match ParseNaiveDate(s[0], '-')
      case None => None
      case Some(nd) =>
        if |s| < 2 then Some(Format(Midnight(nd), Secs))
        else
          var parts := Split(s[1], ':');
          if |parts| < 3 then None
          else
            match (ParseU32(parts[0]), ParseU32(parts[1]), ParseU32(parts[2]))
            case (Some(hh), Some(mm), Some(ss)) =>
              var (m, sec) := NormalizeSeconds(mm, ss);
              var ms := if sub.Some? then SubSecondTimeToMs(sub.value) else 0;
              if ValidTime(hh, m, sec, ms) then
                Some(Format(DateTime(nd, hh, m, sec, ms), if sub.Some? then Millis else Secs))
              else None
            case _ => None
  }

  /**
    * `parse_exif_datetime`: splits the text, parses the date and the time fields,
    * carries overflowing seconds into minutes in a loop, and formats the result.
    */
  method ParseExifDatetime(d: Option<string>, sub: Option<nat>) returns (r: Option<string>)
    ensures r == ExifDatetime(d, sub)
  {
    if d.None? {
      return None;
    }
    var s := Split(d.value, ' ');
    var nd := ParseNaiveDate(s[0], '-');
    if nd.None? {
      return None;
    }
    if |s| < 2 {
      return Some(Format(Midnight(nd.value), Secs));
    }
    var parts := Split(s[1], ':');
    if |parts| < 3 {
      return None;
    }
    var hh := ParseU32(parts[0]);
    var mm0 := ParseU32(parts[1]);
    var ss0 := ParseU32(parts[2]);
    if hh.None? || mm0.None? || ss0.None? {
      return None;
    }
    var mm, ss := mm0.value, ss0.value;
    while ss > 60
      invariant NormalizeSeconds(mm, ss) == NormalizeSeconds(mm0.value, ss0.value)
      decreases ss
    {
      ss := ss - 60;
      mm := mm + 1;
    }
    var ms := 0;
    if sub.Some? {
      ms := SubSecondTimeToMs(sub.value);
    }
    if !ValidTime(hh.value, mm, ss, ms) {
      return None;
    }
    var dt := DateTime(nd.value, hh.value, mm, ss, ms);
    if sub.Some? {
      r := Some(Format(dt, Millis));
    } else {
      r := Some(Format(dt, Secs));
    }
  }

  /** The date-time tag read with its sub-second tag; a sub-second tag that is not a number is ignored. */
  method ParseExifDatetimeWithMs(dtTag: Option<string>, subSecondTag: Option<string>) returns (r: Option<string>)
    ensures r == ExifDatetime(dtTag, SubSecondValue(subSecondTag))
  {
    var subSecondVal: Option<nat> := None;
    if subSecondTag.Some? {
      var parsed := ParseU32(subSecondTag.value);
      if parsed.Some? {
        subSecondVal := parsed;
      }
    }
    r := ParseExifDatetime(dtTag, subSecondVal);
  }

  /** A text without a space is a date only: midnight, at whole seconds, whatever the sub-second value. */
  lemma DateOnlyIsMidnight(text: string, sub: Option<nat>)
    requires forall j :: 0 <= j < |text| ==> text[j] != ' '
    requires ParseNaiveDate(text, '-').Some?
    ensures ExifDatetime(Some(text), sub) == Some(Format(Midnight(ParseNaiveDate(text, '-').value), Secs))
  {
    SplitNoSeparator(text, ' ');
  }

  /** A date that does not parse gives nothing, whatever follows it. */
  lemma BadDateIsNone(text: string, sub: Option<nat>)
    requires ParseNaiveDate(Split(text, ' ')[0], '-').None?
    ensures ExifDatetime(Some(text), sub).None?
  {
  }

  /**
    * The precision follows the sub-second value: a date with a time is written with
    * milliseconds (24 characters) exactly when a sub-second value is given, and a
    * date alone is always written at whole seconds (20 characters).
    */
  lemma PrecisionFollowsSubSecond(text: string, sub: Option<nat>)
    requires ExifDatetime(Some(text), sub).Some?
    ensures var out := ExifDatetime(Some(text), sub).value;
            |Split(text, ' ')| >= 2 ==> (|out| == 24 <==> sub.Some?) && (|out| == 20 <==> sub.None?)
    ensures |Split(text, ' ')| < 2 ==> |ExifDatetime(Some(text), sub).value| == 20
  {
    var s := Split(text, ' ');
    var nd := ParseNaiveDate(s[0], '-').value;
    if |s| < 2 {
      FormatLength(Midnight(nd), Secs);
    } else {
      var parts := Split(s[1], ':');
      var hh, mm, ss := ParseU32(parts[0]).value, ParseU32(parts[1]).value, ParseU32(parts[2]).value;
      var (m, sec) := NormalizeSeconds(mm, ss);
      var ms := if sub.Some? then SubSecondTimeToMs(sub.value) else 0;
      FormatLength(DateTime(nd, hh, m, sec, ms), if sub.Some? then Millis else Secs);
    }
  }

  /** `date time` splits at its one space into the date and the time. */
  lemma DateTimeTextSplits(date: string, time: string)
    requires forall j :: 0 <= j < |date| ==> date[j] != ' '
    requires forall j :: 0 <= j < |time| ==> time[j] != ' '
    ensures Split(date + " " + time, ' ') == [date, time]
  {
    assert date + " " + time == date + [' '] + time;
    SplitFirst(date, ' ', time);
    SplitNoSeparator(time, ' ');
  }

  /** `h:m:s` splits into its three fields. */
  lemma TimeTextSplits(h: string, m: string, s: string)
    requires forall j :: 0 <= j < |h| ==> h[j] != ':'
    requires forall j :: 0 <= j < |m| ==> m[j] != ':'
    requires forall j :: 0 <= j < |s| ==> s[j] != ':'
    ensures Split(h + ":" + m + ":" + s, ':') == [h, m, s]
  {
    var rest := m + [':'] + s;
    SplitFirst(m, ':', s);
    SplitNoSeparator(s, ':');
    SplitFirst(h, ':', rest);
    TimeTextShape(h, m, s);
  }

  lemma TimeTextShape(h: string, m: string, s: string)
    ensures h + ":" + m + ":" + s == h + [':'] + (m + [':'] + s)
  {
  }

  /** `date h:m:s` splits into the date and the time, and the time into its three fields. */
  lemma ExifTextSplits(date: string, h: string, m: string, s: string)
    requires forall j :: 0 <= j < |date| ==> date[j] != ' '
    requires forall j :: 0 <= j < |h| ==> h[j] != ':' && h[j] != ' '
    requires forall j :: 0 <= j < |m| ==> m[j] != ':' && m[j] != ' '
    requires forall j :: 0 <= j < |s| ==> s[j] != ':' && s[j] != ' '
    ensures Split(date + " " + h + ":" + m + ":" + s, ' ') == [date, h + ":" + m + ":" + s]
    ensures Split(h + ":" + m + ":" + s, ':') == [h, m, s]
  {
    var time := h + ":" + m + ":" + s;
    assert forall j :: 0 <= j < |time| ==> time[j] != ' ' by {
      assert time == h + [':'] + m + [':'] + s;
    }
    assert date + " " + h + ":" + m + ":" + s == date + " " + time;
    DateTimeTextSplits(date, time);
    TimeTextSplits(h, m, s);
  }

  /**
    * The result reads back, through the RFC 3339 parser, as the date, the time with
    * its seconds carried into minutes, and the milliseconds of the sub-second value;
    * it exists exactly when that time of day is in range.
    */
  lemma ExifDatetimeReadsBack(date: string, h: string, m: string, s: string, sub: Option<nat>)
    requires forall j :: 0 <= j < |date| ==> date[j] != ' '
    requires forall j :: 0 <= j < |h| ==> h[j] != ':' && h[j] != ' '
    requires forall j :: 0 <= j < |m| ==> m[j] != ':' && m[j] != ' '
    requires forall j :: 0 <= j < |s| ==> s[j] != ':' && s[j] != ' '
    requires ParseNaiveDate(date, '-').Some?
    requires ParseU32(h).Some? && ParseU32(m).Some? && ParseU32(s).Some?
    ensures var nd := ParseNaiveDate(date, '-').value;
            var (mm, ss) := NormalizeSeconds(ParseU32(m).value, ParseU32(s).value);
            var ms := if sub.Some? then SubSecondTimeToMs(sub.value) else 0;
            var out := ExifDatetime(Some(date + " " + h + ":" + m + ":" + s), sub);
            (out.Some? <==> ValidTime(ParseU32(h).value, mm, ss, ms))
            && (out.Some? ==> Parse(out.value) == Some(DateTime(nd, ParseU32(h).value, mm, ss, ms)))
  {
    var nd := ParseNaiveDate(date, '-').value;
    var (mm, ss) := NormalizeSeconds(ParseU32(m).value, ParseU32(s).value);
    var ms := if sub.Some? then SubSecondTimeToMs(sub.value) else 0;
    var dt := DateTime(nd, ParseU32(h).value, mm, ss, ms);
    var p := if sub.Some? then Millis else Secs;
    var out := ExifDatetime(Some(date + " " + h + ":" + m + ":" + s), sub);
    ExifDatetimeOfFields(date, h, m, s, sub);
    if ValidTime(dt.hour, mm, ss, ms) {
      assert out == Some(Format(dt, p));
      ParseFormat(dt, p);
      assert AtPrecision(dt, p) == dt;
    }
  }

  /** The text `date h:m:s` is formatted from its fields, when their time of day is in range. */
  lemma ExifDatetimeOfFields(date: string, h: string, m: string, s: string, sub: Option<nat>)
    requires forall j :: 0 <= j < |date| ==> date[j] != ' '
    requires forall j :: 0 <= j < |h| ==> h[j] != ':' && h[j] != ' '
    requires forall j :: 0 <= j < |m| ==> m[j] != ':' && m[j] != ' '
    requires forall j :: 0 <= j < |s| ==> s[j] != ':' && s[j] != ' '
    requires ParseNaiveDate(date, '-').Some?
    requires ParseU32(h).Some? && ParseU32(m).Some? && ParseU32(s).Some?
    ensures var (mm, ss) := NormalizeSeconds(ParseU32(m).value, ParseU32(s).value);
            var ms := if sub.Some? then SubSecondTimeToMs(sub.value) else 0;
            var dt := DateTime(ParseNaiveDate(date, '-').value, ParseU32(h).value, mm, ss, ms);
            ExifDatetime(Some(date + " " + h + ":" + m + ":" + s), sub)
              == if ValidTime(dt.hour, mm, ss, ms) then Some(Format(dt, if sub.Some? then Millis else Secs)) else None
  {
    ExifTextSplits(date, h, m, s);
  }

  /** A two-digit field parses as its value. */
  lemma TwoDigitField(s: string)
    requires |s| == 2 && AllDigits(s)
    ensures ParseU32(s) == Some(DigitValue(s[0]) * 10 + DigitValue(s[1]))
  {
    assert s[..1][..0] == [];
    assert DigitsValue(s[..1]) == DigitValue(s[0]);
    assert DigitsValue(s) == DigitValue(s[0]) * 10 + DigitValue(s[1]);
  }

  /** The source's first date-time test: time `10:21:59` with sub-second `123`, on any date. */
  lemma SampleWithSubSecond(date: string)
    requires forall j :: 0 <= j < |date| ==> date[j] != ' '
    requires ParseNaiveDate(date, '-').Some?
    ensures ExifDatetime(Some(date + " " + "10" + ":" + "21" + ":" + "59"), Some(123))
            == Some(Format(DateTime(ParseNaiveDate(date, '-').value, 10, 21, 59, 123), Millis))
  {
    assert ParseU32("10") == Some(10) && ParseU32("21") == Some(21) && ParseU32("59") == Some(59) by {
      TwoDigitField("10");
      TwoDigitField("21");
      TwoDigitField("59");
    }
    assert SubSecondTimeToMs(123) == 123 by {
      assert NatToString(123) == "123" by { assert NatToString(12) == "12"; }
      SubSecondExact(123);
    }
    ExifDatetimeOfFields(date, "10", "21", "59", Some(123));
  }

  /** The source's overflow test: `18:04:98` with sub-second `2000` is 18:05:38.200. */
  lemma SampleSecondsOverflow(date: string)
    requires forall j :: 0 <= j < |date| ==> date[j] != ' '
    requires ParseNaiveDate(date, '-').Some?
    ensures ExifDatetime(Some(date + " " + "18" + ":" + "04" + ":" + "98"), Some(2000))
            == Some(Format(DateTime(ParseNaiveDate(date, '-').value, 18, 5, 38, 200), Millis))
  {
    TwoDigitField("18");
    TwoDigitField("04");
    TwoDigitField("98");
    assert NatToString(2000) == "2000" by {
      assert NatToString(2) == "2";
      assert NatToString(20) == "20";
      assert NatToString(200) == "200";
    }
    assert Pow10(4) == 10000;
    SubSecondRounding(2000);
    Floor(SubSecondTimeToMs(2000), 200, 20000, 10000);
    assert NormalizeSeconds(4, 98) == (5, 38);
    ExifDatetimeOfFields(date, "18", "04", "98", Some(2000));
  }

  /** The `YYYY:MM:DD` GPS date stamp rewritten as `YYYY-MM-DD`, each field at least two digits wide. */
  function ParseExifDate(d: Option<string>): (r: Option<string>)
    ensures d.None? ==> r.None?
  {
    match d
    case None => None
    case Some(text) =>
      match ParseNaiveDate(Split(text, ' ')[0], ':')
      case None => None
      case Some(nd) => Some(PadZero(nd.year, 2) + "-" + PadZero(nd.month, 2) + "-" + PadZero(nd.day, 2))
  }

  /** A padded field of a valid date has one to four digits and reads back as its value. */
  lemma PaddedField(n: nat, limit: nat, width: nat)
    requires 1 <= width && n < Pow10(width) && 2 <= width <= 4
    ensures AllDigits(PadZero(n, 2)) && 2 <= |PadZero(n, 2)| <= width
    ensures DigitsValue(PadZero(n, 2)) == n
  {
    PadZeroValue(n, 2);
    NatToStringLength(n, width);
  }

  /** The rewritten GPS date parses with `-` as the date the stamp held with `:`. */
  lemma ExifDateReparses(text: string)
    requires ParseExifDate(Some(text)).Some?
    ensures ParseNaiveDate(ParseExifDate(Some(text)).value, '-') == ParseNaiveDate(Split(text, ' ')[0], ':')
  {
    var nd := ParseNaiveDate(Split(text, ' ')[0], ':').value;
    assert Pow10(4) == 10000;
    assert Pow10(2) == 100;
    PaddedField(nd.year, 9999, 4);
    PaddedField(nd.month, 12, 2);
    PaddedField(nd.day, 31, 2);
    var y, m, dd := PadZero(nd.year, 2), PadZero(nd.month, 2), PadZero(nd.day, 2);
    assert y + "-" + m + "-" + dd == y + ['-'] + m + ['-'] + dd;
    ParseDateParts(y, m, dd, '-');
  }

  /**
    * A GPS date stamp `YYYY:MM:DD`, alone or followed by a space and more, is
    * rewritten as `YYYY-MM-DD` (years from 1000 on, which need no padding).
    */
  lemma ExifDateOfFormat(d: Date, rest: string)
    requires ValidDate(d) && 1000 <= d.year && (rest == [] || rest[0] == ' ')
    ensures ParseExifDate(Some(FormatDate(d, ':') + rest)) == Some(FormatDate(d, '-'))
  {
    var stamp := FormatDate(d, ':');
    assert forall j :: 0 <= j < |stamp| ==> stamp[j] != ' ' by {
      assert stamp == Digits4(d.year) + [':'] + Digits2(d.month) + [':'] + Digits2(d.day);
    }
    if rest == [] {
      assert stamp + rest == stamp;
      SplitNoSeparator(stamp, ' ');
    } else {
      assert stamp + rest == stamp + [' '] + rest[1..];
      SplitFirst(stamp, ' ', rest[1..]);
    }
    ParseFormatDate(d, ':');
    PadZeroDigits4(d.year);
    PadZeroDigits2(d.month);
    PadZeroDigits2(d.day);
  }

  /** The source's GPS date test: `2019:04:04` becomes `2019-04-04`. */
  lemma SampleGpsDate()
    ensures ParseExifDate(Some("2019:04:04")) == Some("2019-04-04")
  {
    var d := Date(2019, 4, 4);
    assert FormatDate(d, ':') == "2019:04:04";
    assert FormatDate(d, '-') == "2019-04-04";
    ExifDateOfFormat(d, "");
    assert FormatDate(d, ':') + "" == FormatDate(d, ':');
  }

  /**
    * The EXIF dates of a file: nothing for a type without EXIF or when the EXIF block
    * cannot be read (`exif` absent); otherwise each date tag read with its own
    * sub-second tag, the GPS date stamp rewritten, and the unique identifier as is.
    */
  method ParseExif(t: AccurateFileType, exif: Option<ExifTags>) returns (r: Option<ParsedExif>)
    ensures !DoesFileFormatHaveExif(t) ==> r.None?
    ensures r.Some? <==> DoesFileFormatHaveExif(t) && exif.Some?
    ensures r.Some? ==>
              r.value.datetime_original
                == ExifDatetime(exif.value.date_time_original, SubSecondValue(exif.value.sub_sec_time_original))
              && r.value.datetime == ExifDatetime(exif.value.modify_date, SubSecondValue(exif.value.sub_sec_time))
              && r.value.gps_date == ParseExifDate(exif.value.gps_date_stamp)
              && r.value.unique_id == exif.value.image_unique_id
  {
    if !DoesFileFormatHaveExif(t) {
      return None;
    }
    if exif.None? {
      return None;
    }
    var tags := exif.value;
    var datetimeOriginal := ParseExifDatetimeWithMs(tags.date_time_original, tags.sub_sec_time_original);
    var datetime := ParseExifDatetimeWithMs(tags.modify_date, tags.sub_sec_time);
    var gpsDate := ParseExifDate(tags.gps_date_stamp);
    r := Some(ParsedExif(datetimeOriginal, datetime, gpsDate, tags.image_unique_id));
  }
}
