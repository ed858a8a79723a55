/**
  * The catalogue of a file's EXIF tags: every recognised tag with a short textual
  * value, by tag name, and the capture date picked from it.
  */
module ExifUtil {
  import opened Wrappers
  import opened Text

  /** The value of an EXIF entry as the reader decodes it. */
  datatype EntryValue = Undefined | Value(text: string)

  /**
    * One entry of the EXIF block: its tag name when the tag is recognised, and its
    * value, absent when it could not be decoded.
    */
  datatype ExifEntry = ExifEntry(tag: Option<string>, value: Option<EntryValue>)

  /**
    * What the EXIF reader makes of a file: no EXIF at all (no media source, or no
    * EXIF block), an EXIF block that does not parse, or its entries and the GPS
    * position already written in ISO 6709.
    */
  datatype ExifSource = NoExif | Unparseable | Parsed(entries: seq<ExifEntry>, gps: Option<string>)

  /** The tags of a file by name, dates written as ISO 8601, and its GPS position. */
  datatype PsExifInfo = PsExifInfo(tags: map<string, string>, gps: Option<string>)

  /** The longest value, in UTF-8 bytes, kept in the catalogue. */
  const MAX_VALUE_LEN: nat := 1024

  /** The text of a decoded value; nothing for an undecodable or `Undefined` one. */
  function FieldToOptString(e: ExifEntry): (r: Option<string>)
    ensures r.Some? <==> e.value.Some? && e.value.value.Value?
    ensures r.Some? ==> r.value == e.value.value.text
  {
    match e.value
    case None => None
    case Some(Undefined) => None
    case Some(Value(text)) => Some(text)
  }

  /** An entry enters the catalogue: a recognised tag with a textual value of at most 1024 bytes. */
  predicate Admitted(e: ExifEntry) {
    e.tag.Some? && FieldToOptString(e).Some? && Utf8Len(FieldToOptString(e).value) <= MAX_VALUE_LEN
  }

  /** The catalogue the entries build, inserted in order, so a later entry replaces an earlier one. */
  function TagMap(entries: seq<ExifEntry>): map<string, string>
  {
    if entries == [] then map[]
    else
      var m := TagMap(entries[..|entries| - 1]);
      var e := entries[|entries| - 1];
      if Admitted(e) then m[e.tag.value := FieldToOptString(e).value] else m
  }

  /** A tag name is a key exactly when some admitted entry carries it. */
  lemma {:induction false} TagMapKeys(entries: seq<ExifEntry>, k: string)
    ensures k in TagMap(entries)
            <==> exists i :: 0 <= i < |entries| && Admitted(entries[i]) && entries[i].tag == Some(k)
  {
    if entries != [] {
      var init := entries[..|entries| - 1];
      TagMapKeys(init, k);
      if exists i :: 0 <= i < |entries| && Admitted(entries[i]) && entries[i].tag == Some(k) {
        var i :| 0 <= i < |entries| && Admitted(entries[i]) && entries[i].tag == Some(k);
        if i < |init| {
          assert init[i] == entries[i];
        }
      }
      forall i | 0 <= i < |init| && Admitted(init[i]) && init[i].tag == Some(k)
        ensures Admitted(entries[i]) && entries[i].tag == Some(k)
      {
        assert init[i] == entries[i];
      }
    }
  }

  /** The value kept for a tag is that of the last admitted entry carrying it. */
  lemma {:induction false} TagMapLastWins(entries: seq<ExifEntry>, i: nat)
    requires i < |entries| && Admitted(entries[i])
    requires forall j :: i < j < |entries| && Admitted(entries[j]) ==> entries[j].tag != entries[i].tag
    ensures entries[i].tag.value in TagMap(entries)
    ensures TagMap(entries)[entries[i].tag.value] == FieldToOptString(entries[i]).value
  {
    var init := entries[..|entries| - 1];
    if i < |init| {
      assert init[i] == entries[i];
      forall j | i < j < |init| && Admitted(init[j])
        ensures init[j].tag != init[i].tag
      {
        assert init[j] == entries[j];
      }
      TagMapLastWins(init, i);
    }
  }

  /** An entry whose tag is already in the catalogue does not add a key: duplicate names collapse. */
  lemma TagMapDuplicateKeepsKeys(entries: seq<ExifEntry>, e: ExifEntry)
    requires e.tag.Some? && e.tag.value in TagMap(entries)
    ensures TagMap(entries + [e]).Keys == TagMap(entries).Keys
  {
    assert (entries + [e])[..|entries|] == entries;
  }

  /** The catalogue has at most one key per entry. */
  lemma {:induction false} TagMapSize(entries: seq<ExifEntry>)
    ensures |TagMap(entries)| <= |entries|
  {
    if entries != [] {
      TagMapSize(entries[..|entries| - 1]);
    }
  }

  /**
    * `parse_exif_info`: nothing without EXIF; an empty catalogue when the EXIF block
    * does not parse; otherwise every admitted entry inserted by tag name, in order.
    */
  method ParseExifInfo(source: ExifSource) returns (r: Option<PsExifInfo>)
    ensures r.None? <==> source.NoExif?
    ensures source.Unparseable? ==> r == Some(PsExifInfo(map[], None))
    ensures source.Parsed? ==> r == Some(PsExifInfo(TagMap(source.entries), source.gps))
  {
    if source.NoExif? {
      return None;
    }
    var m: map<string, string> := map[];
    var gps: Option<string> := None;
    if source.Parsed? {
      var entries := source.entries;
      var i := 0;
      while i < |entries|
        invariant 0 <= i <= |entries|
        invariant m == TagMap(entries[..i])
      {
        var e := entries[i];
        assert entries[..i + 1][..i] == entries[..i];
        if e.tag.Some? {
          var s := FieldToOptString(e);
          if s.Some? && Utf8Len(s.value) <= MAX_VALUE_LEN {
            m := m[e.tag.value := s.value];
          }
        }
        i := i + 1;
      }
      assert entries[..i] == entries;
      gps := source.gps;
    }
    r := Some(PsExifInfo(m, gps));
  }

  /** The value of a tag in the catalogue. */
  function FieldValue(exif: PsExifInfo, code: string): (r: Option<string>)
    ensures r.Some? <==> code in exif.tags
    ensures r.Some? ==> r.value == exif.tags[code]
  {
    if code in exif.tags then Some(exif.tags[code]) else None
  }

  const DATE_TIME_ORIGINAL := "DateTimeOriginal"
  const MODIFY_DATE := "ModifyDate"
  const GPS_DATE_STAMP := "GPSDateStamp"

  /** The capture date the EXIF catalogue offers: DateTimeOriginal, else ModifyDate, else GPSDateStamp. */
  function BestGuessTakenExif(exif: Option<PsExifInfo>): (r: Option<string>)
    ensures exif.None? ==> r.None?
    ensures exif.Some? && DATE_TIME_ORIGINAL in exif.value.tags ==> r == Some(exif.value.tags[DATE_TIME_ORIGINAL])
    ensures exif.Some? && DATE_TIME_ORIGINAL !in exif.value.tags && MODIFY_DATE in exif.value.tags
            ==> r == Some(exif.value.tags[MODIFY_DATE])
    ensures (exif.Some? && DATE_TIME_ORIGINAL !in exif.value.tags && MODIFY_DATE !in exif.value.tags
             && GPS_DATE_STAMP in exif.value.tags)
            ==> r == Some(exif.value.tags[GPS_DATE_STAMP])
  {
    match exif
    case None => None
    case Some(e) =>
      if FieldValue(e, DATE_TIME_ORIGINAL).Some? then FieldValue(e, DATE_TIME_ORIGINAL)
      else if FieldValue(e, MODIFY_DATE).Some? then FieldValue(e, MODIFY_DATE)
      else if FieldValue(e, GPS_DATE_STAMP).Some? then FieldValue(e, GPS_DATE_STAMP)
      else None
  }

  /** The choice is the first present of the three tags, tried in order. */
  lemma BestGuessIsFirstPresent(exif: PsExifInfo)
    ensures BestGuessTakenExif(Some(exif))
            == FirstSome([FieldValue(exif, DATE_TIME_ORIGINAL), FieldValue(exif, MODIFY_DATE),
                          FieldValue(exif, GPS_DATE_STAMP)])
  {
    var a, b, c := FieldValue(exif, DATE_TIME_ORIGINAL), FieldValue(exif, MODIFY_DATE), FieldValue(exif, GPS_DATE_STAMP);
    FirstSomeCons(c, []);
    FirstSomeCons(b, [c]);
    FirstSomeCons(a, [b, c]);
    assert [c] + [] == [c] && [b] + [c] == [b, c] && [a] + [b, c] == [a, b, c];
  }

  /** An EXIF block with none of the three date tags offers no date. */
  lemma NoDateTags(exif: PsExifInfo)
    requires DATE_TIME_ORIGINAL !in exif.tags && MODIFY_DATE !in exif.tags && GPS_DATE_STAMP !in exif.tags
    ensures BestGuessTakenExif(Some(exif)).None?
  {
  }
}
