/**
  * The older media-file record: the format guessed from a file's leading bytes and
  * name, its stored extension, and the archive path it is given.
  */
module MediaFile {
  import opened Wrappers
  import opened Text
  import opened Container
  import opened Exif

  datatype PsFileFormat = Jpg | Png | Heic | Gif | Mp4 | Json | Csv | Unsupported

  /** What the record holds about one media file. */
  datatype MediaFileInfo = MediaFileInfo(
    original_path: string,
    file_format: PsFileFormat,
    parsed_exif: Option<ParsedExif>,
    checksum: Option<string>,
    desired_path: Option<string>)

  /** The extension a file of this format is stored under; `bin` for Unsupported. */
  function FileExtFromFileFormat(ff: PsFileFormat): (ext: string)
    ensures |ext| >= 3 && forall j :: 0 <= j < |ext| ==> ext[j] != '.'
    ensures ext == "bin" <==> ff == Unsupported
  {
    match ff
    case Jpg => "jpg"
    case Gif => "gif"
    case Png => "png"
    case Heic => "heic"
    case Mp4 => "mp4"
    case Unsupported => "bin"
    case Json => "json"
    case Csv => "csv"
  }

  /** Distinct formats are stored under distinct extensions. */
  lemma FileExtInjective(a: PsFileFormat, b: PsFileFormat)
    requires FileExtFromFileFormat(a) == FileExtFromFileFormat(b)
    ensures a == b
  {
  }

  const MEDIA_CONTENT_TYPES: seq<string> :=
    ["image/jpeg", "image/gif", "image/png", "image/heic", "video/mp4", "text/csv"]

  /**
    * The format of a sniffed media type: JSON, octet streams and every type not
    * listed are Unsupported, so JSON is never recognised from content.
    */
  function FileFormatFromContentType(ct: string): (ff: PsFileFormat)
    ensures ff != Json
    ensures ff != Unsupported <==> ct in MEDIA_CONTENT_TYPES
  {
    match ct
    case "image/jpeg" => Jpg
    case "image/gif" => Gif
    case "image/png" => Png
    case "image/heic" => Heic
    case "video/mp4" => Mp4
    case "application/octet-stream" => Unsupported
    case "application/json" => Unsupported
    case "text/csv" => Csv
    case _ => Unsupported
  }

  /** Each recognised media type has a format of its own. */
  lemma ContentTypeInjective(a: string, b: string)
    requires a in MEDIA_CONTENT_TYPES && b in MEDIA_CONTENT_TYPES
    requires FileFormatFromContentType(a) == FileFormatFromContentType(b)
    ensures a == b
  {
  }

  /** The number of leading bytes the sniffer is given. */
  const SNIFF_LIMIT: nat := 36870

  /**
    * The format of a file named `name` whose first bytes were read as `leading` (an
    * error when the read failed); `sniff` stands for the magic-byte sniffer's media
    * type of those bytes. A failed read is Unsupported; then a `.json` name, in any
    * letter case, is Json; otherwise the sniffed type decides.
    */
  function GuessFileFormat(leading: Result<seq<byte>>, name: string, sniff: seq<byte> -> string)
    : (ff: PsFileFormat)
    ensures leading.Err? ==> ff == Unsupported
    ensures leading.Ok? && EndsWith(Lower(name), ".json") ==> ff == Json
    ensures ff == Json ==> leading.Ok? && EndsWith(Lower(name), ".json")
    ensures leading.Ok? && !EndsWith(Lower(name), ".json") ==> ff == FileFormatFromContentType(sniff(leading.value))
  {
    match leading
    case Err(_) => Unsupported
    case Ok(buffer) =>
      if EndsWith(Lower(name), ".json") then Json
      else FileFormatFromContentType(sniff(buffer))
  }

  /**
    * `take(limit)` as written: the open file's reader is limited to `limit` bytes,
    * but it reads into an empty buffer, so no byte is ever read. An open error is
    * passed on.
    */
  function TakeAsWritten(content: Result<seq<byte>>, limit: nat): (r: Result<seq<byte>>)
    ensures r.Err? <==> content.Err?
    ensures r.Ok? ==> r.value == []
  {
    match content
    case Err(e) => Err(e)
    case Ok(_) => Ok([])
  }

  /** `take(limit)` as intended: the first `limit` bytes of the file, or all of a shorter one. */
  function Take(content: Result<seq<byte>>, limit: nat): (r: Result<seq<byte>>)
    ensures r.Err? <==> content.Err?
    ensures r.Ok? ==> |r.value| <= limit && r.value <= content.value
    ensures r.Ok? && |content.value| <= limit ==> r.value == content.value
    ensures r.Ok? && |content.value| > limit ==> |r.value| == limit
  {
    match content
    case Err(e) => Err(e)
    case Ok(bytes) => Ok(if |bytes| <= limit then bytes else bytes[..limit])
  }

  /**
    * As written, the guessed format of a readable file that is not named `.json`
    * never depends on its content: every file gets the sniffer's verdict on no bytes.
    */
  lemma GuessIgnoresContentAsWritten(a: seq<byte>, b: seq<byte>, name: string, sniff: seq<byte> -> string)
    requires !EndsWith(Lower(name), ".json")
    ensures GuessFileFormat(TakeAsWritten(Ok(a), SNIFF_LIMIT), name, sniff)
            == GuessFileFormat(TakeAsWritten(Ok(b), SNIFF_LIMIT), name, sniff)
            == FileFormatFromContentType(sniff([]))
  {
  }

  /** A JPEG, as a sniffer that recognises the JPEG magic bytes sees it, is rejected as Unsupported. */
  lemma JpegRejectedAsWritten()
    ensures var sniff := (b: seq<byte>) => if |b| >= 3 && b[..3] == [0xFF, 0xD8, 0xFF] then "image/jpeg"
                                            else "application/octet-stream";
            GuessFileFormat(TakeAsWritten(Ok([0xFF, 0xD8, 0xFF, 0xE0]), SNIFF_LIMIT), "photo.jpg", sniff)
            == Unsupported
  {
    assert !EndsWith(Lower("photo.jpg"), ".json") by {
      assert Lower("photo.jpg")[|"photo.jpg"| - 1] == 'g';
    }
  }

  /**
    * With the intended read, the sniffer sees the file's first `SNIFF_LIMIT` bytes,
    * so a file that is not named `.json` gets the format of its own leading content.
    */
  lemma GuessUsesLeadingBytes(content: seq<byte>, name: string, sniff: seq<byte> -> string)
    requires !EndsWith(Lower(name), ".json")
    ensures GuessFileFormat(Take(Ok(content), SNIFF_LIMIT), name, sniff)
            == FileFormatFromContentType(sniff(if |content| <= SNIFF_LIMIT then content else content[..SNIFF_LIMIT]))
  {
  }

  /** The same JPEG, read as intended, is recognised as Jpg. */
  lemma JpegRecognisedWithTake()
    ensures var sniff := (b: seq<byte>) => if |b| >= 3 && b[..3] == [0xFF, 0xD8, 0xFF] then "image/jpeg"
                                            else "application/octet-stream";
            GuessFileFormat(Take(Ok([0xFF, 0xD8, 0xFF, 0xE0]), SNIFF_LIMIT), "photo.jpg", sniff) == Jpg
  {
    assert !EndsWith(Lower("photo.jpg"), ".json") by {
      assert Lower("photo.jpg")[|"photo.jpg"| - 1] == 'g';
    }
  }

  /** The JSON override ignores letter case: `X.JSON` and `x.json` are both Json. */
  lemma JsonOverrideIgnoresCase(leading: seq<byte>, name: string, sniff: seq<byte> -> string)
    ensures GuessFileFormat(Ok(leading), Lower(name), sniff) == GuessFileFormat(Ok(leading), name, sniff)
  {
    LowerIdempotent(name);
  }

  /**
    * The record of a readable file. `exif` is what the EXIF reader found, `checksum`
    * the checksum when it could be computed, `format` the guessed format; `bestGuess`
    * and `getDesiredPath` stand for the date picker and path builder this revision
    * calls, which are not part of this model. An Unsupported format is an error;
    * otherwise the file gets a desired path exactly when its checksum is known,
    * built from that checksum, the best-guess date, the stored extension and
    * collision index 0.
    */
  function MediaFileInfoFromReadable(name: string, exif: Option<ParsedExif>, checksum: Option<string>,
                                     format: PsFileFormat,
                                     bestGuess: Option<ParsedExif> -> Option<string>,
                                     getDesiredPath: (string, Option<string>, string, nat) -> string)
    : (r: Result<MediaFileInfo>)
    ensures r.Err? <==> format == Unsupported
    ensures r.Ok? ==> r.value.original_path == name && r.value.file_format == format
                      && r.value.parsed_exif == exif && r.value.checksum == checksum
    ensures r.Ok? ==> (r.value.desired_path.Some? <==> checksum.Some?)
    ensures r.Ok? && checksum.Some?
            ==> r.value.desired_path
                == Some(getDesiredPath(checksum.value, bestGuess(exif), FileExtFromFileFormat(format), 0))
  {
    if format == Unsupported then Err("File is not a valid media file")
    else
      var ext := FileExtFromFileFormat(format);
      var guessedDatetime := bestGuess(exif);
      var desiredPath :=
        match checksum
        case Some(c) => Some(getDesiredPath(c, guessedDatetime, ext, 0))
        case None => None;
      Ok(MediaFileInfo(name, format, exif, checksum, desiredPath))
  }

  /** A file whose leading bytes cannot be read is never accepted. */
  lemma UnreadableIsRejected(name: string, exif: Option<ParsedExif>, checksum: Option<string>, e: string,
                             sniff: seq<byte> -> string,
                             bestGuess: Option<ParsedExif> -> Option<string>,
                             getDesiredPath: (string, Option<string>, string, nat) -> string)
    ensures MediaFileInfoFromReadable(name, exif, checksum, GuessFileFormat(Err(e), name, sniff),
                                      bestGuess, getDesiredPath).Err?
  {
  }

  /** An accepted file is never stored under the `bin` extension. */
  lemma AcceptedNeverBin(name: string, exif: Option<ParsedExif>, checksum: Option<string>, format: PsFileFormat,
                         bestGuess: Option<ParsedExif> -> Option<string>,
                         getDesiredPath: (string, Option<string>, string, nat) -> string)
    requires MediaFileInfoFromReadable(name, exif, checksum, format, bestGuess, getDesiredPath).Ok?
    ensures FileExtFromFileFormat(MediaFileInfoFromReadable(name, exif, checksum, format, bestGuess,
                                                           getDesiredPath).value.file_format) != "bin"
  {
  }
}
