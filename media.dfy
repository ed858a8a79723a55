/**
  * A media file as the sync sees it: what it is, when it was taken, and where in
  * the archive it belongs (`yyyy/mm/dd/hhmm-ssmmm` or `undated/<checksum>`).
  */
module Media {
  import opened Wrappers
  import opened Text
  import opened Rfc3339
  import opened Container
  import opened FileType
  import opened ExifUtil
  import opened SupplementalInfo

  /** The checksums of a file's bytes; the short one names undated files. */
  datatype HashInfo = HashInfo(short_checksum: string, long_checksum: string)

  /** A file found by the scan: its path, its quick type, and its file times in epoch milliseconds. */
  datatype ScanInfo = ScanInfo(
    file_path: string,
    quick_file_type: QuickFileType,
    modified_datetime: Option<int>,
    created_datetime: Option<int>)

  /** Everything known about one media file. */
  datatype MediaFileInfo = MediaFileInfo(
    original_file_this_run: string,
    original_path: seq<string>,
    quick_file_type: QuickFileType,
    exif_info: Option<PsExifInfo>,
    accurate_file_type: AccurateFileType,
    hash_info: HashInfo,
    supp_info: Option<PsSupplementalInfo>,
    modified: Option<int>,
    created: Option<int>)

  /** Where the file goes: its path in the archive without extension, and its extension. */
  datatype MediaFileDerivedInfo = MediaFileDerivedInfo(
    desired_media_path: Option<string>,
    desired_media_extension: string)

  /**
    * The record of a scanned file: an error when it cannot be read or its content is
    * not a supported type. `sniffed` is the media type the magic-byte sniffer reports
    * and `exif` what the EXIF reader makes of the content; neither is modelled.
    * `exifTags` says of a file type whether its metadata are EXIF tags (the
    * `metadata_type` table, which is not part of this model); the EXIF reader is only
    * consulted for those types.
    */
  function MediaFileInfoFromReadable(si: ScanInfo, tree: FileTree, sniffed: string, exif: Option<PsExifInfo>,
                                     exifTags: AccurateFileType -> bool,
                                     supp_info: Option<PsSupplementalInfo>, hash_info: HashInfo)
    : (r: Result<MediaFileInfo>)
    ensures FileBytes(tree, si.file_path).Err? ==> r.Err?
    ensures r.Ok? <==> FileBytes(tree, si.file_path).Ok?
                       && DetermineFileType(FileBytes(tree, si.file_path).value, si.file_path, sniffed) != Unsupported
    ensures r.Ok? ==> r.value.original_path == [si.file_path] && r.value.original_file_this_run == si.file_path
                      && r.value.accurate_file_type
                         == DetermineFileType(FileBytes(tree, si.file_path).value, si.file_path, sniffed)
                      && r.value.quick_file_type == si.quick_file_type
                      && r.value.hash_info == hash_info && r.value.supp_info == supp_info
                      && r.value.modified == si.modified_datetime && r.value.created == si.created_datetime
    ensures r.Ok? ==> r.value.exif_info == if exifTags(r.value.accurate_file_type) then exif else None
  {
    match FileBytes(tree, si.file_path)
    case Err(e) => Err(e)
    case Ok(bytes) =>
      var guessed := DetermineFileType(bytes, si.file_path, sniffed);
      if guessed == Unsupported then Err("File is not a valid media file")
      else
        var exifInfo := if exifTags(guessed) then exif else None;
        Ok(MediaFileInfo(si.file_path, [si.file_path], si.quick_file_type, exifInfo, guessed, hash_info,
                         supp_info, si.modified_datetime, si.created_datetime))
  }

  /**
    * The candidate capture times in order of preference: the supplemental photo-taken
    * time, the EXIF best guess, the supplemental creation time, then the file's
    * created and modified times. `toRfc` is the epoch-millisecond formatter.
    */
  function TakenCandidates(info: MediaFileInfo, toRfc: int -> Option<string>): seq<Option<string>>
  {
    [ SuppTime(info.supp_info, true, toRfc),
      BestGuessTakenExif(info.exif_info),
      SuppTime(info.supp_info, false, toRfc),
      if info.created.Some? then toRfc(info.created.value) else None,
      if info.modified.Some? then toRfc(info.modified.value) else None ]
  }

  /** The photo-taken (or creation) time of the supplemental JSON, as RFC 3339 text. */
  function SuppTime(supp: Option<PsSupplementalInfo>, photoTaken: bool, toRfc: int -> Option<string>)
    : (r: Option<string>)
    ensures supp.None? ==> r.None?
  {
    match supp
    case None => None
    case Some(si) =>
      var t := if photoTaken then si.photo_taken_time else si.creation_time;
      match t
      case None => None
      case Some(dt) => TimestampSAsIso8601(dt, toRfc)
  }

  /** The best guess at when the photo was taken: the first candidate that is available. */
  function BestGuessTakenDt(info: MediaFileInfo, toRfc: int -> Option<string>): (r: Option<string>)
  {
    var photoTaken := SuppTime(info.supp_info, true, toRfc);
    if photoTaken.Some? then photoTaken
    else
      var fromExif := BestGuessTakenExif(info.exif_info);
      if fromExif.Some? then fromExif
      else
        var creation := SuppTime(info.supp_info, false, toRfc);
        if creation.Some? then creation
        else if info.created.Some? && toRfc(info.created.value).Some? then toRfc(info.created.value)
        else if info.modified.Some? && toRfc(info.modified.value).Some? then toRfc(info.modified.value)
        else None
  }

  /** The guess is the first available candidate, so it is absent only when every candidate is. */
  lemma BestGuessIsFirstCandidate(info: MediaFileInfo, toRfc: int -> Option<string>)
    ensures BestGuessTakenDt(info, toRfc) == FirstSome(TakenCandidates(info, toRfc))
    ensures BestGuessTakenDt(info, toRfc).None?
            <==> forall i :: 0 <= i < 5 ==> TakenCandidates(info, toRfc)[i].None?
  {
    var cs := TakenCandidates(info, toRfc);
    FirstSomeCons(cs[4], []);
    FirstSomeCons(cs[3], [cs[4]]);
    FirstSomeCons(cs[2], [cs[3], cs[4]]);
    FirstSomeCons(cs[1], [cs[2], cs[3], cs[4]]);
    FirstSomeCons(cs[0], [cs[1], cs[2], cs[3], cs[4]]);
    assert [cs[4]] + [] == [cs[4]];
    assert [cs[3]] + [cs[4]] == [cs[3], cs[4]];
    assert [cs[2]] + [cs[3], cs[4]] == [cs[2], cs[3], cs[4]];
    assert [cs[1]] + [cs[2], cs[3], cs[4]] == [cs[1], cs[2], cs[3], cs[4]];
    assert [cs[0]] + [cs[1], cs[2], cs[3], cs[4]] == cs;
  }

  /** The file's created time is consulted before its modified time. */
  lemma CreatedBeforeModified(info: MediaFileInfo, toRfc: int -> Option<string>)
    requires SuppTime(info.supp_info, true, toRfc).None? && BestGuessTakenExif(info.exif_info).None?
    requires SuppTime(info.supp_info, false, toRfc).None?
    requires info.created.Some? && toRfc(info.created.value).Some?
    ensures BestGuessTakenDt(info, toRfc) == toRfc(info.created.value)
  {
  }

  /**
    * The archive path of a media file without extension: `yyyy/mm/dd/hhmm-ssmmm` for
    * a date-time that parses as RFC 3339, otherwise `undated/` and the short checksum.
    */
  function GetDesiredMediaPath(shortChecksum: string, mediaDatetime: Option<string>): (r: string)
    ensures mediaDatetime.None? ==> r == "undated/" + shortChecksum
    ensures mediaDatetime.Some? && Parse(mediaDatetime.value).None? ==> r == "undated/" + shortChecksum
  {
    var (dateDir, name) :=
      match mediaDatetime
      case None => ("undated", shortChecksum)
      case Some(s) =>
        match Parse(s)
        case None => ("undated", shortChecksum)
        case Some(dt) =>
          (NatToString(dt.date.year) + "/" + PadZero(dt.date.month, 2) + "/" + PadZero(dt.date.day, 2),
           PadZero(dt.hour, 2) + PadZero(dt.minute, 2) + "-" + PadZero(dt.second, 2) + PadZero(dt.millis, 3));
    dateDir + "/" + name
  }

  /**
    * A date-time the program wrote (four-digit year) lands at its fixed-width path:
    * four digits of year, two each of month, day, hour, minute and second, three of
    * milliseconds (zero when written at whole seconds).
    */
  lemma DesiredPathOfFormat(shortChecksum: string, dt: DateTime, p: SecondsFormat)
    requires Valid(dt) && 1000 <= dt.date.year
    ensures GetDesiredMediaPath(shortChecksum, Some(Format(dt, p)))
            == Digits4(dt.date.year) + "/" + Digits2(dt.date.month) + "/" + Digits2(dt.date.day) + "/"
               + Digits2(dt.hour) + Digits2(dt.minute) + "-" + Digits2(dt.second)
               + Digits3(if p == Millis then dt.millis else 0)
  {
    var d := AtPrecision(dt, p);
    assert Parse(Format(dt, p)) == Some(d) by {
      ParseFormat(dt, p);
    }
    var y, mo, dd := NatToString(d.date.year), PadZero(d.date.month, 2), PadZero(d.date.day, 2);
    var h, mi, sec, ms := PadZero(d.hour, 2), PadZero(d.minute, 2), PadZero(d.second, 2), PadZero(d.millis, 3);
    assert y == Digits4(dt.date.year) && mo == Digits2(dt.date.month) && dd == Digits2(dt.date.day) by {
      NatToStringDigits4(d.date.year);
      PadZeroDigits2(d.date.month);
      PadZeroDigits2(d.date.day);
    }
    assert h == Digits2(dt.hour) && mi == Digits2(dt.minute) && sec == Digits2(dt.second) by {
      PadZeroDigits2(d.hour);
      PadZeroDigits2(d.minute);
      PadZeroDigits2(d.second);
    }
    assert ms == Digits3(if p == Millis then dt.millis else 0) by {
      PadZeroDigits3(d.millis);
    }
    PathShape(y, mo, dd, h, mi, sec, ms);
  }

  /**
    * Any text that parses as RFC 3339 with a four-digit year from 1000 on lands at the
    * fixed-width path of the date-time it denotes.
    */
  lemma DesiredPathOfParsed(shortChecksum: string, s: string, dt: DateTime)
    requires Parse(s) == Some(dt) && 1000 <= dt.date.year
    ensures GetDesiredMediaPath(shortChecksum, Some(s))
            == Digits4(dt.date.year) + "/" + Digits2(dt.date.month) + "/" + Digits2(dt.date.day) + "/"
               + Digits2(dt.hour) + Digits2(dt.minute) + "-" + Digits2(dt.second) + Digits3(dt.millis)
  {
    var y, mo, dd := NatToString(dt.date.year), PadZero(dt.date.month, 2), PadZero(dt.date.day, 2);
    var h, mi, sec, ms := PadZero(dt.hour, 2), PadZero(dt.minute, 2), PadZero(dt.second, 2), PadZero(dt.millis, 3);
    assert y == Digits4(dt.date.year) && mo == Digits2(dt.date.month) && dd == Digits2(dt.date.day) by {
      NatToStringDigits4(dt.date.year);
      PadZeroDigits2(dt.date.month);
      PadZeroDigits2(dt.date.day);
    }
    assert h == Digits2(dt.hour) && mi == Digits2(dt.minute) && sec == Digits2(dt.second) by {
      PadZeroDigits2(dt.hour);
      PadZeroDigits2(dt.minute);
      PadZeroDigits2(dt.second);
    }
    assert ms == Digits3(dt.millis) by {
      PadZeroDigits3(dt.millis);
    }
    PathShape(y, mo, dd, h, mi, sec, ms);
  }

  lemma PathShape(y: string, mo: string, dd: string, h: string, mi: string, sec: string, ms: string)
    ensures (y + "/" + mo + "/" + dd) + "/" + (h + mi + "-" + sec + ms)
            == y + "/" + mo + "/" + dd + "/" + h + mi + "-" + sec + ms
  {
  }

  /** Every dated path is 21 characters long and starts with a digit, so it never collides with an undated one. */
  lemma DatedPathIsNotUndated(shortChecksum: string, other: string, dt: DateTime, p: SecondsFormat)
    requires Valid(dt) && 1000 <= dt.date.year
    ensures |GetDesiredMediaPath(shortChecksum, Some(Format(dt, p)))| == 21
    ensures GetDesiredMediaPath(shortChecksum, Some(Format(dt, p))) != "undated/" + other
  {
    DesiredPathOfFormat(shortChecksum, dt, p);
    var path := GetDesiredMediaPath(shortChecksum, Some(Format(dt, p)));
    assert path[0] == Digits4(dt.date.year)[0];
    assert IsDigit(path[0]);
  }

  /** The source's path test: `2008-05-30T15:56:01Z` goes to `2008/05/30/1556-01000`. */
  lemma SamplePathSeconds(shortChecksum: string, dt: DateTime)
    requires dt == DateTime(Date(2008, 5, 30), 15, 56, 1, 0)
    ensures GetDesiredMediaPath(shortChecksum, Some(Format(dt, Secs))) == "2008/05/30/1556-01000"
  {
    SamplePathText(0, "000");
    assert "2008/05/30/1556-01" + "000" == "2008/05/30/1556-01000";
    DesiredPathOfFormat(shortChecksum, dt, Secs);
  }

  /** The source's path test: `2008-05-30T15:56:01.009Z` goes to `2008/05/30/1556-01009`. */
  lemma SamplePathMillis(shortChecksum: string, dt: DateTime)
    requires dt == DateTime(Date(2008, 5, 30), 15, 56, 1, 9)
    ensures GetDesiredMediaPath(shortChecksum, Some(Format(dt, Millis))) == "2008/05/30/1556-01009"
  {
    SamplePathText(9, "009");
    assert "2008/05/30/1556-01" + "009" == "2008/05/30/1556-01009";
    DesiredPathOfFormat(shortChecksum, dt, Millis);
    assert dt.millis == 9;
  }

  lemma SampleDigits()
    ensures Digits4(2008) == "2008" && Digits2(5) == "05" && Digits2(30) == "30"
    ensures Digits2(15) == "15" && Digits2(56) == "56" && Digits2(1) == "01"
  {
    assert Digits2(20) == "20" && Digits2(8) == "08";
  }

  lemma SamplePathText(ms: nat, msText: string)
    requires ms < 10 && msText == "00" + [DigitChar(ms)]
    ensures Digits4(2008) + "/" + Digits2(5) + "/" + Digits2(30) + "/" + Digits2(15) + Digits2(56) + "-"
            + Digits2(1) + Digits3(ms) == "2008/05/30/1556-01" + msText
  {
    SampleDigits();
    assert Digits3(ms) == msText by {
      assert Digits2(ms) == "0" + [DigitChar(ms)];
    }
    assert "2008" + "/" + "05" + "/" + "30" + "/" + "15" + "56" + "-" + "01" == "2008/05/30/1556-01";
  }

  /**
    * Where a media file goes: the path from its best-guess capture time and short
    * checksum, always present, and the extension of its detected content type.
    */
  function MediaFileDerivedFromMediaInfo(info: MediaFileInfo, toRfc: int -> Option<string>)
    : (r: Result<MediaFileDerivedInfo>)
    ensures r.Ok? && r.value.desired_media_path.Some?
    ensures r.value.desired_media_extension == FileExtFromFileType(info.accurate_file_type)
  {
    var ext := FileExtFromFileType(info.accurate_file_type);
    var guessed := BestGuessTakenDt(info, toRfc);
    Ok(MediaFileDerivedInfo(Some(GetDesiredMediaPath(info.hash_info.short_checksum, guessed)), ext))
  }

  /** The extension never depends on the original name: two files of one content type get the same one. */
  lemma ExtensionIgnoresName(a: MediaFileInfo, b: MediaFileInfo, toRfc: int -> Option<string>)
    requires a.accurate_file_type == b.accurate_file_type
    ensures MediaFileDerivedFromMediaInfo(a, toRfc).value.desired_media_extension
            == MediaFileDerivedFromMediaInfo(b, toRfc).value.desired_media_extension
  {
  }

  /** Without any capture time a file goes under `undated/` by its short checksum. */
  lemma UndatedWithoutTime(info: MediaFileInfo, toRfc: int -> Option<string>)
    requires BestGuessTakenDt(info, toRfc).None?
    ensures MediaFileDerivedFromMediaInfo(info, toRfc).value.desired_media_path
            == Some("undated/" + info.hash_info.short_checksum)
  {
  }
}
