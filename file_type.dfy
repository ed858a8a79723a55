/**
  * Classification of files: the quick pass by file name, the scan list it filters,
  * and the accurate type decided from content.
  */
module FileType {
  import opened Wrappers
  import opened Text
  import opened Container
  import ExtraInfo

  // ---------------------------------------------------------------------------
  // Quick classification by name

  datatype QuickFileType = Media | Album | Unknown

  /**
    * The text after the last `.`, the whole name when there is none: the first
    * piece `rsplit('.')` yields, built from the end of the name.
    */
  function LastExtension(name: string): string {
    if name == [] || name[|name| - 1] == '.' then []
    else LastExtension(name[..|name| - 1]) + [name[|name| - 1]]
  }

  const MEDIA_EXTENSIONS: seq<string> := ["jpg", "jpeg", "png", "gif", "heic", "mp4"]

  /** The quick type of a lower-cased extension. */
  function QuickTypeOfExtension(ext: string): QuickFileType {
    if ext in MEDIA_EXTENSIONS then Media
    else if ext == "csv" then Album
    else Unknown
  }

  /** Media for the photo and video extensions, Album for `csv`, Unknown otherwise; case-insensitive. */
  function FindQuickFileType(name: string): QuickFileType {
    QuickTypeOfExtension(Lower(LastExtension(name)))
  }

  /** The extension is a dot-free suffix of the name, preceded by a `.` when shorter than it. */
  lemma {:induction false} LastExtensionShape(name: string)
    ensures EndsWith(name, LastExtension(name))
    ensures forall j :: 0 <= j < |LastExtension(name)| ==> LastExtension(name)[j] != '.'
    ensures |LastExtension(name)| < |name| ==> name[|name| - |LastExtension(name)| - 1] == '.'
  {
    if name != [] && name[|name| - 1] != '.' {
      var init, c := name[..|name| - 1], name[|name| - 1];
      LastExtensionShape(init);
      var e := LastExtension(init);
      var x := e + [c];
      assert LastExtension(name) == x;
      assert name == init + [c];
      assert EndsWith(name, x) by {
        assert name[|name| - |x|..] == init[|init| - |e|..] + [c];
      }
      forall j | 0 <= j < |x|
        ensures x[j] != '.'
      {
        if j < |e| {
          assert x[j] == e[j];
        }
      }
      if |x| < |name| {
        assert name[|name| - |x| - 1] == init[|init| - |e| - 1];
      }
    }
  }

  /** After the last `.` comes the extension, whatever the stem holds. */
  lemma {:induction false} LastExtensionAfterDot(stem: string, ext: string)
    requires forall j :: 0 <= j < |ext| ==> ext[j] != '.'
    ensures LastExtension(stem + "." + ext) == ext
  {
    var name := stem + "." + ext;
    if ext != [] {
      var init := ext[..|ext| - 1];
      assert name[..|name| - 1] == stem + "." + init;
      LastExtensionAfterDot(stem, init);
      assert ext == init + [ext[|ext| - 1]];
    }
  }

  /** A name without a `.` is its own extension. */
  lemma {:induction false} NoDotIsWholeName(name: string)
    requires forall j :: 0 <= j < |name| ==> name[j] != '.'
    ensures LastExtension(name) == name
  {
    if name != [] {
      NoDotIsWholeName(name[..|name| - 1]);
      assert name == name[..|name| - 1] + [name[|name| - 1]];
    }
  }

  /** Only the last extension decides the quick type: `a.b.jpg` is classified as `jpg` is. */
  lemma OnlyLastExtensionCounts(stem: string, ext: string)
    requires forall j :: 0 <= j < |ext| ==> ext[j] != '.'
    ensures FindQuickFileType(stem + "." + ext) == FindQuickFileType(ext)
  {
    LastExtensionAfterDot(stem, ext);
    NoDotIsWholeName(ext);
  }

  /** Lower-casing leaves every `.` in place, so it commutes with taking the extension. */
  lemma {:induction false} LastExtensionLower(name: string)
    ensures LastExtension(Lower(name)) == Lower(LastExtension(name))
  {
    if name != [] {
      var init := name[..|name| - 1];
      LowerSlice(name, 0, |name| - 1);
      assert Lower(name)[..|name| - 1] == Lower(init);
      LastExtensionLower(init);
      if name[|name| - 1] != '.' {
        assert Lower(LastExtension(init) + [name[|name| - 1]])
               == Lower(LastExtension(init)) + [LowerChar(name[|name| - 1])];
      }
    }
  }

  /** The quick type ignores letter case: it is the type of the lower-cased name. */
  lemma QuickTypeIgnoresCase(name: string)
    ensures FindQuickFileType(Lower(name)) == FindQuickFileType(name)
  {
    LastExtensionLower(name);
    LowerIdempotent(LastExtension(name));
  }

  /** A name ending in `.ext`, for an extension in lower case, has the quick type of `ext`. */
  lemma ExtensionClassifies(stem: string, ext: string)
    requires forall j :: 0 <= j < |ext| ==> ext[j] != '.' && !('A' <= ext[j] <= 'Z')
    ensures FindQuickFileType(stem + "." + ext) == QuickTypeOfExtension(ext)
  {
    LastExtensionAfterDot(stem, ext);
    LowerOfLower(ext);
  }

  /**
    * The cases the source's own tests exercise, for any stem (`test/test1.jpg`,
    * `test/test1.mp4`, `test/te.s.jpg`; then `test/test1.abc`, `test/test1.csv`).
    */
  lemma MediaByLastExtension(stem: string)
    ensures FindQuickFileType(stem + "." + "jpg") == Media
    ensures FindQuickFileType(stem + "." + "mp4") == Media
  {
    ExtensionClassifies(stem, "jpg");
    ExtensionClassifies(stem, "mp4");
  }

  lemma OthersByLastExtension(stem: string)
    ensures FindQuickFileType(stem + "." + "abc") == Unknown
    ensures FindQuickFileType(stem + "." + "csv") == Album
  {
    NotAKnownExtension("abc");
    ExtensionClassifies(stem, "abc");
    ExtensionClassifies(stem, "csv");
  }

  lemma NotAKnownExtension(ext: string)
    requires |ext| == 3 && ext[0] == 'a'
    ensures ext !in MEDIA_EXTENSIONS && ext != "csv"
  {
  }

  /** A name without a `.` is its own extension (the source's test `test/tes` is Unknown). */
  lemma NameWithoutDot(name: string)
    requires forall j :: 0 <= j < |name| ==> name[j] != '.'
    ensures FindQuickFileType(name) == QuickTypeOfExtension(Lower(name))
  {
    NoDotIsWholeName(name);
  }

  // ---------------------------------------------------------------------------
  // The scan list

  datatype QuickScannedFile = QuickScannedFile(
    name: string,
    quick_file_type: QuickFileType,
    supplemental_json_file: Option<string>)

  /** The names a scan keeps, in their original order: those whose quick type is known. */
  function KnownFiles(files: seq<string>): (known: seq<string>)
    ensures |known| <= |files|
    ensures forall k :: 0 <= k < |known| ==> FindQuickFileType(known[k]) != Unknown
  {
    if files == [] then []
    else if FindQuickFileType(files[0]) == Unknown then KnownFiles(files[1..])
    else [files[0]] + KnownFiles(files[1..])
  }

  lemma KnownFilesAppend(files: seq<string>, f: string)
    ensures KnownFiles(files + [f])
            == KnownFiles(files) + (if FindQuickFileType(f) == Unknown then [] else [f])
  {
    if files != [] {
      assert (files + [f])[1..] == files[1..] + [f];
      KnownFilesAppend(files[1..], f);
    } else {
      assert [f][1..] == [];
    }
  }

  /** A name is kept exactly when it was scanned and its quick type is known. */
  lemma {:induction false} InKnownFiles(files: seq<string>, f: string)
    ensures f in KnownFiles(files) <==> f in files && FindQuickFileType(f) != Unknown
  {
    if files != [] {
      InKnownFiles(files[1..], f);
      assert files == [files[0]] + files[1..];
    }
  }

  /**
    * An entry of the scan list as the scan builds it: its quick type is that of its
    * name and known, a media file carries its detected JSON sidecar, an album none.
    */
  predicate WellScanned(tree: FileTree, f: QuickScannedFile) {
    f.quick_file_type == FindQuickFileType(f.name) != Unknown
    && (f.quick_file_type == Media ==> f.supplemental_json_file == ExtraInfo.DetectExtraInfo(f.name, tree))
    && (f.quick_file_type == Album ==> f.supplemental_json_file.None?)
  }

  /** `scanned` holds, in order, a well-scanned record for each of `names`. */
  predicate ScannedAs(tree: FileTree, scanned: seq<QuickScannedFile>, names: seq<string>) {
    && |scanned| == |names|
    && (forall k :: 0 <= k < |scanned| ==> scanned[k].name == names[k])
    && (forall k :: 0 <= k < |scanned| ==> WellScanned(tree, scanned[k]))
  }

  lemma ScannedAsAppend(tree: FileTree, scanned: seq<QuickScannedFile>, names: seq<string>, f: QuickScannedFile)
    requires ScannedAs(tree, scanned, names) && WellScanned(tree, f)
    ensures ScannedAs(tree, scanned + [f], names + [f.name])
  {
  }

  /**
    * Classifies every scanned name, drops the Unknown ones, and looks up the JSON
    * sidecar of each media file; album files carry none.
    */
  method QuickFileScan(tree: FileTree, files: seq<string>) returns (scanned: seq<QuickScannedFile>)
    ensures |scanned| == |KnownFiles(files)| <= |files|
    ensures forall k :: 0 <= k < |scanned| ==> scanned[k].name == KnownFiles(files)[k]
    ensures forall k :: 0 <= k < |scanned| ==> WellScanned(tree, scanned[k])
  {
    scanned := [];
    ghost var known: seq<string> := [];
    var i := 0;
    while i < |files|
      invariant 0 <= i <= |files|
      invariant known == KnownFiles(files[..i])
      invariant ScannedAs(tree, scanned, known)
    {
      var file := files[i];
      var qft := FindQuickFileType(file);
      assert KnownFiles(files[..i + 1]) == known + (if qft == Unknown then [] else [file]) by {
        assert files[..i + 1] == files[..i] + [file];
        KnownFilesAppend(files[..i], file);
      }
      match qft {
        case Media =>
          var f := QuickScannedFile(file, qft, ExtraInfo.DetectExtraInfo(file, tree));
          ScannedAsAppend(tree, scanned, known, f);
          scanned := scanned + [f];
          known := known + [file];
        case Album =>
          var f := QuickScannedFile(file, qft, None);
          ScannedAsAppend(tree, scanned, known, f);
          scanned := scanned + [f];
          known := known + [file];
        case Unknown =>
      }
      i := i + 1;
    }
    assert files[..i] == files;
  }

  // ---------------------------------------------------------------------------
  // Accurate classification by content

  datatype AccurateFileType = Jpg | Png | Heic | Gif | Mp4 | Json | Csv | Unsupported

  /** The extension a file of this type is stored under; `bin` for Unsupported. */
  function FileExtFromFileType(t: AccurateFileType): (ext: string)
    ensures |ext| >= 3 && forall j :: 0 <= j < |ext| ==> ext[j] != '.' && !('A' <= ext[j] <= 'Z')
  {
    match t
    case Jpg => "jpg"
    case Gif => "gif"
    case Png => "png"
    case Heic => "heic"
    case Mp4 => "mp4"
    case Unsupported => "bin"
    case Json => "json"
    case Csv => "csv"
  }

  /** Distinct types are stored under distinct extensions. */
  lemma FileExtInjective(s: AccurateFileType, t: AccurateFileType)
    requires FileExtFromFileType(s) == FileExtFromFileType(t)
    ensures s == t
  {
  }

  /**
    * The stored extension agrees with the quick pass: a media type's file is seen as
    * Media again, a CSV as an Album, and JSON or unsupported content as Unknown.
    */
  lemma StoredExtensionIsRecognised(stem: string, t: AccurateFileType)
    ensures FindQuickFileType(stem + "." + FileExtFromFileType(t))
            == (if t in {Jpg, Png, Heic, Gif, Mp4} then Media else if t == Csv then Album else Unknown)
  {
    ExtensionClassifies(stem, FileExtFromFileType(t));
    StoredExtensionType(t);
  }

  lemma StoredExtensionType(t: AccurateFileType)
    ensures QuickTypeOfExtension(FileExtFromFileType(t))
            == (if t in {Jpg, Png, Heic, Gif, Mp4} then Media else if t == Csv then Album else Unknown)
  {
  }

  const KNOWN_CONTENT_TYPES: seq<string> :=
    ["image/jpeg", "image/gif", "image/png", "image/heic", "video/mp4", "text/csv"]

  /**
    * The type of a sniffed media type; JSON and every media type not listed map to
    * Unsupported, so JSON is never recognised from content.
    */
  function FileTypeFromContentType(ct: string): (t: AccurateFileType)
    ensures t != Json
    ensures t != Unsupported <==> ct in KNOWN_CONTENT_TYPES
  {
    match ct
    case "image/jpeg" => Jpg
    case "image/gif" => Gif
    case "image/png" => Png
    case "image/heic" => Heic
    case "video/mp4" => Mp4
    case "application/octet-stream" => Unsupported
    case "application/json" => Unsupported
    case "text/csv" => Csv
    case _ => Unsupported
  }

  /** Different recognised media types give different file types. */
  lemma ContentTypeInjective(a: string, b: string)
    requires a in KNOWN_CONTENT_TYPES && b in KNOWN_CONTENT_TYPES
    requires FileTypeFromContentType(a) == FileTypeFromContentType(b)
    ensures a == b
  {
  }

  const OCTET_STREAM: string := "application/octet-stream"
  const X_EMPTY: string := "application/x-empty"

  /**
    * The accurate type of a file named `name` with content `bytes`, where `sniffed` is
    * the media type the magic-byte sniffer reports for `bytes`. A `.json` name wins
    * (in any letter case); empty content and unrecognised content are Unsupported.
    */
  function DetermineFileType(bytes: seq<byte>, name: string, sniffed: string): (t: AccurateFileType)
    ensures EndsWith(Lower(name), ".json") ==> t == Json
    ensures !EndsWith(Lower(name), ".json") && bytes == [] ==> t == Unsupported
    ensures !EndsWith(Lower(name), ".json") && (sniffed == OCTET_STREAM || sniffed == X_EMPTY)
            ==> t == Unsupported
    ensures !EndsWith(Lower(name), ".json") && bytes != [] ==> t == FileTypeFromContentType(sniffed)
  {
    if EndsWith(Lower(name), ".json") then Json
    else if bytes == [] then Unsupported
    else if sniffed == OCTET_STREAM then Unsupported
    else if sniffed == X_EMPTY then Unsupported
    else FileTypeFromContentType(sniffed)
  }

  /** JSON is decided by name alone: content never makes a file JSON. */
  lemma JsonOnlyByName(bytes: seq<byte>, name: string, sniffed: string)
    ensures DetermineFileType(bytes, name, sniffed) == Json <==> EndsWith(Lower(name), ".json")
  {
  }

  /** The source's test: an empty file named `bad.bad` is Unsupported whatever is sniffed. */
  lemma EmptyFileIsUnsupported(sniffed: string)
    ensures DetermineFileType([], "bad.bad", sniffed) == Unsupported
  {
    assert Lower("bad.bad")[2] == 'd';
  }
}
