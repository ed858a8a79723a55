/**
  * Google Takeout's supplemental-metadata JSON: finding it next to a media file,
  * loading it, and reading its timestamps.
  */
module SupplementalInfo {
  import opened Wrappers
  import opened Text
  import opened Container

  /** Every supplemental suffix is a `.json` name. */
  lemma SuffixesAreJson(k: nat)
    requires k < |SUPPLEMENTAL_SUFFIXES|
    ensures EndsWith(SUPPLEMENTAL_SUFFIXES[k], ".json")
  {
    var s := SUPPLEMENTAL_SUFFIXES[k];
    assert s[|s| - 5..] == ".json";
  }

  /**
    * The supplemental JSON of `path`: the first of its three sidecar names that
    * exists, or nothing. What is found is always a `.json` file beside `path`.
    */
  function DetectSupplementalInfo(path: string, tree: FileTree): (r: Option<string>)
    ensures r.Some? ==> StartsWith(r.value, path) && EndsWith(r.value, ".json") && Exists(tree, r.value)
    ensures r.Some? ==> exists k :: 0 <= k < |SUPPLEMENTAL_SUFFIXES| && r.value == path + SUPPLEMENTAL_SUFFIXES[k]
                          && forall j :: 0 <= j < k ==> !Exists(tree, path + SUPPLEMENTAL_SUFFIXES[j])
    ensures r.None? <==> forall k :: 0 <= k < |SUPPLEMENTAL_SUFFIXES| ==> !Exists(tree, path + SUPPLEMENTAL_SUFFIXES[k])
  {
    var r := FirstExisting(tree, path, SUPPLEMENTAL_SUFFIXES);
    if r.Some? then
      var k :| 0 <= k < |SUPPLEMENTAL_SUFFIXES| && r.value == path + SUPPLEMENTAL_SUFFIXES[k]
               && Exists(tree, r.value)
               && forall j :: 0 <= j < k ==> !Exists(tree, path + SUPPLEMENTAL_SUFFIXES[j]);
      SuffixesAreJson(k);
      assert r.value[..|path|] == path;
      assert r.value[|r.value| - 5..] == SUPPLEMENTAL_SUFFIXES[k][|SUPPLEMENTAL_SUFFIXES[k]| - 5..];
      r
    else r
  }

  /** A date in the JSON: the epoch timestamp as text, and a human-readable form. */
  datatype SupplementalInfoDateTime = SupplementalInfoDateTime(timestamp: Option<string>, formatted: Option<string>)

  datatype SupplementalInfoPerson = SupplementalInfoPerson(name: Option<string>)

  /** The parts of the JSON the program reads (the geo data, floating point, is not modelled). */
  datatype PsSupplementalInfo = PsSupplementalInfo(
    people: seq<SupplementalInfoPerson>,
    photo_taken_time: Option<SupplementalInfoDateTime>,
    creation_time: Option<SupplementalInfoDateTime>)

  /**
    * The supplemental JSON at `path`, decoded by `parse` (serde_json); nothing when the
    * file cannot be opened or does not decode.
    */
  function LoadSupplementalInfo(path: string, tree: FileTree, parse: seq<byte> -> Option<PsSupplementalInfo>)
    : (r: Option<PsSupplementalInfo>)
    ensures (path !in tree || tree[path].Unreadable?) ==> r.None?
    ensures r.Some? ==> path in tree && tree[path].Readable? && parse(tree[path].bytes) == r
    ensures path in tree && tree[path].Readable? ==> r == parse(tree[path].bytes)
  {
    match FileBytes(tree, path)
    case Err(_) => None
    case Ok(bytes) => parse(bytes)
  }

  /** The number of epoch milliseconds a timestamp text stands for: ten characters are seconds. */
  function TimestampMillis(ts: string): (r: Option<int>)
  {
    match ParseI64(ts)
    case None => None
    case Some(v) => if |ts| == 10 then Some(v * 1000) else Some(v)
  }

  /**
    * The timestamp as RFC 3339 text. `toRfc` stands for the epoch-millisecond
    * formatter of the program's utilities, which is not part of this model.
    */
  function TimestampSAsIso8601(dt: SupplementalInfoDateTime, toRfc: int -> Option<string>): (r: Option<string>)
    ensures dt.timestamp.None? ==> r.None?
    ensures r.Some? ==> exists ms :: TimestampMillis(dt.timestamp.value) == Some(ms) && toRfc(ms) == r
  {
    match dt.timestamp
    case None => None
    case Some(ts) =>
      match ParseI64(ts)
      case None => None
      case Some(v) => if |ts| == 10 then toRfc(v * 1000) else toRfc(v)
  }

  /** Ten digits are a number of seconds, converted as that many thousand milliseconds. */
  lemma SecondsTimestamp(ts: string, formatted: Option<string>, toRfc: int -> Option<string>)
    requires |ts| == 10 && AllDigits(ts)
    ensures TimestampSAsIso8601(SupplementalInfoDateTime(Some(ts), formatted), toRfc) == toRfc(DigitsValue(ts) * 1000)
  {
    DigitsValueBound(ts);
    assert Pow10(10) == 10000000000;
  }

  /** Any other unsigned number within i64 is already milliseconds. */
  lemma MillisTimestamp(ts: string, formatted: Option<string>, toRfc: int -> Option<string>)
    requires |ts| != 10 && ts != [] && AllDigits(ts) && DigitsValue(ts) <= I64_MAX
    ensures TimestampSAsIso8601(SupplementalInfoDateTime(Some(ts), formatted), toRfc) == toRfc(DigitsValue(ts))
  {
  }

  /** The seconds-to-milliseconds product of a ten-character timestamp never leaves i64. */
  lemma {:induction false} SecondsNeverOverflow(ts: string)
    requires |ts| == 10 && ParseI64(ts).Some?
    ensures I64_MIN <= ParseI64(ts).value * 1000 <= I64_MAX
  {
    var digits := if ts[0] == '+' || ts[0] == '-' then ts[1..] else ts;
    DigitsValueBound(digits);
    assert Pow10(|digits|) <= Pow10(10) by {
      Pow10Monotone(|digits|, 10);
    }
    assert Pow10(10) == 10000000000;
  }

  lemma {:induction false} Pow10Monotone(m: nat, n: nat)
    requires m <= n
    ensures Pow10(m) <= Pow10(n)
  {
    if m < n {
      Pow10Monotone(m, n - 1);
    }
  }

  /** A timestamp with a character that is not a digit after its first one gives nothing. */
  lemma NonNumericTimestamp(ts: string, formatted: Option<string>, toRfc: int -> Option<string>)
    requires ts == [] || !AllDigits(ts[1..])
    ensures TimestampSAsIso8601(SupplementalInfoDateTime(Some(ts), formatted), toRfc).None?
  {
    if ts != [] && !(ts[0] == '+' || ts[0] == '-') {
      var j :| 0 <= j < |ts[1..]| && !IsDigit(ts[1..][j]);
      assert !IsDigit(ts[j + 1]);
    }
  }

  /** The timestamp of the source's sample file, `1716539968`, is read as seconds. */
  lemma SampleTimestamp(toRfc: int -> Option<string>)
    ensures TimestampSAsIso8601(SupplementalInfoDateTime(Some("1716539968"), None), toRfc)
            == toRfc(1716539968000)
  {
    var ts := "1716539968";
    assert AllDigits(ts);
    SecondsTimestamp(ts, None, toRfc);
    SampleDigitsValue();
  }

  /** The value of the sample's ten digits, five at a time. */
  lemma SampleDigitsValue()
    ensures DigitsValue("1716539968") == 1716539968
  {
    var a, b := "17165", "39968";
    assert AllDigits(a) && AllDigits(b);
    FiveDigitsValue(a);
    FiveDigitsValue(b);
    DigitsValueAppend(a, b);
    assert a + b == "1716539968";
    assert Pow10(5) == 100000;
  }

  lemma FiveDigitsValue(s: string)
    requires |s| == 5 && AllDigits(s)
    ensures DigitsValue(s) == DigitValue(s[0]) * 10000 + DigitValue(s[1]) * 1000 + DigitValue(s[2]) * 100
                              + DigitValue(s[3]) * 10 + DigitValue(s[4])
  {
    assert s[..4][..3] == s[..3] && s[..3][..2] == s[..2] && s[..2][..1] == s[..1] && s[..1][..0] == [];
    assert DigitsValue(s[..1]) == DigitValue(s[0]);
    assert DigitsValue(s[..2]) == DigitsValue(s[..1]) * 10 + DigitValue(s[1]);
    assert DigitsValue(s[..3]) == DigitsValue(s[..2]) * 10 + DigitValue(s[2]);
    assert DigitsValue(s[..4]) == DigitsValue(s[..3]) * 10 + DigitValue(s[3]);
    assert DigitsValue(s) == DigitsValue(s[..4]) * 10 + DigitValue(s[4]);
  }
}
