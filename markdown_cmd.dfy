/**
  * The line-based sidecar code: the front-matter is written by hand, in a fixed
  * order, under a `photo-sorter:` key; it is split back out of a sidecar line by
  * line; and a sync rewrites a sidecar only when the YAML regenerated from its
  * front-matter differs from the YAML of the media file.
  */
module MarkdownCmd {
  import opened Wrappers
  import opened Text
  import opened Container
  import opened Exif

  // ---------------------------------------------------------------------------
  // Front-matter of a media file

  /** What the sidecar records about a media file. */
  datatype PhotoSorterFrontMatter = PhotoSorterFrontMatter(
    path: Option<string>,
    datetime_original: Option<string>,
    datetime: Option<string>,
    gps_date: Option<string>,
    unique_id: Option<string>)

  const EMPTY_FRONT_MATTER := PhotoSorterFrontMatter(None, None, None, None, None)

  /** The fields of a media file that this revision's sidecar code reads. */
  datatype CmdMediaFile = CmdMediaFile(
    original_path: string,
    parsed_exif: Option<ParsedExif>,
    desired_markdown_path: Option<string>)

  /** The front-matter of a media file: its original path and whatever dates and id its EXIF gave. */
  function MfmFromMediaFileInfo(m: CmdMediaFile): (fm: PhotoSorterFrontMatter)
    ensures fm.path == Some(m.original_path)
    ensures m.parsed_exif.None? ==> fm == EMPTY_FRONT_MATTER.(path := Some(m.original_path))
    ensures m.parsed_exif.Some? ==>
              && fm.datetime_original == m.parsed_exif.value.datetime_original
              && fm.datetime == m.parsed_exif.value.datetime
              && fm.gps_date == m.parsed_exif.value.gps_date
              && fm.unique_id == m.parsed_exif.value.unique_id
  {
    var mfm := EMPTY_FRONT_MATTER.(path := Some(m.original_path));
    match m.parsed_exif
    case None => mfm
    case Some(exif) =>
      mfm.(datetime_original := exif.datetime_original, datetime := exif.datetime,
           gps_date := exif.gps_date, unique_id := exif.unique_id)
  }

  // ---------------------------------------------------------------------------
  // Writing the YAML

  /**
    * The fields the YAML shows. The original date-time is shown only when it differs
    * from the date-time, an absent date-time counting as the empty string; the
    * unique id is never shown.
    */
  datatype ShownFields = ShownFields(
    path: Option<string>,
    datetime: Option<string>,
    originalDatetime: Option<string>,
    gpsDate: Option<string>)

  function Shown(mfm: PhotoSorterFrontMatter): ShownFields {
    var original :=
      if mfm.datetime_original.Some? && mfm.datetime_original.value != UnwrapOr(mfm.datetime, "")
      then mfm.datetime_original else None;
    ShownFields(mfm.path, mfm.datetime, original, mfm.gps_date)
  }

  const HEADER: string := "photo-sorter:"
  const PATH_KEY: string := "  path: "
  const DATETIME_KEY: string := "  datetime: "
  const ORIGINAL_KEY: string := "  original-datetime: "
  const GPS_KEY: string := "  gps-date: "

  /** The line of one field, none when the field is absent. */
  function FieldLine(key: string, v: Option<string>): seq<string> {
    if v.Some? then [key + v.value] else []
  }

  /** The lines of the YAML: the header, then path, date-time, original date-time and GPS date, each when present. */
  function YamlLines(sh: ShownFields): seq<string> {
    [HEADER] + FieldLines(sh)
  }

  function FieldLines(sh: ShownFields): seq<string> {
    FieldLine(PATH_KEY, sh.path) + (FieldLine(DATETIME_KEY, sh.datetime)
      + (FieldLine(ORIGINAL_KEY, sh.originalDatetime) + FieldLine(GPS_KEY, sh.gpsDate)))
  }

  /** The YAML `generate_yaml` writes for a front-matter. */
  function GeneratedYaml(mfm: PhotoSorterFrontMatter): string {
    JoinLines(YamlLines(Shown(mfm)))
  }

  /** The text `format!` writes for a field: its line and `\n`, or nothing. */
  function FieldText(key: string, v: Option<string>): string {
    if v.Some? then key + v.value + "\n" else ""
  }

  /** `generate_yaml`: pushes the header and then each present field's line onto a string. */
  method GenerateYaml(mfm: PhotoSorterFrontMatter) returns (yaml: string)
    ensures yaml == GeneratedYaml(mfm)
  {
    yaml := "";
    yaml := yaml + "photo-sorter:\n";
    if mfm.path.Some? {
      yaml := yaml + (PATH_KEY + mfm.path.value + "\n");
    }
    assert yaml == "photo-sorter:\n" + FieldText(PATH_KEY, mfm.path);
    ghost var y1 := yaml;
    if mfm.datetime.Some? {
      yaml := yaml + (DATETIME_KEY + mfm.datetime.value + "\n");
    }
    assert yaml == y1 + FieldText(DATETIME_KEY, mfm.datetime);
    ghost var y2 := yaml;
    if mfm.datetime_original.Some? {
      if mfm.datetime_original.value != UnwrapOr(mfm.datetime, "") {
        yaml := yaml + (ORIGINAL_KEY + mfm.datetime_original.value + "\n");
      }
    }
    assert yaml == y2 + FieldText(ORIGINAL_KEY, Shown(mfm).originalDatetime);
    ghost var y3 := yaml;
    if mfm.gps_date.Some? {
      yaml := yaml + (GPS_KEY + mfm.gps_date.value + "\n");
    }
    assert yaml == y3 + FieldText(GPS_KEY, mfm.gps_date);
    GeneratedYamlText(Shown(mfm));
    Assoc4("photo-sorter:\n", FieldText(PATH_KEY, mfm.path), FieldText(DATETIME_KEY, mfm.datetime),
           FieldText(ORIGINAL_KEY, Shown(mfm).originalDatetime), FieldText(GPS_KEY, mfm.gps_date));
  }

  lemma Assoc4<T>(h: seq<T>, a: seq<T>, b: seq<T>, c: seq<T>, d: seq<T>)
    ensures h + a + b + c + d == h + (a + (b + (c + d)))
  {
  }

  lemma FieldLineText(key: string, v: Option<string>)
    ensures JoinLines(FieldLine(key, v)) == FieldText(key, v)
  {
    if v.Some? {
      assert JoinLines([key + v.value]) == key + v.value + "\n" + JoinLines([]);
    }
  }

  /** The YAML is the header line followed by the present fields' texts. */
  lemma GeneratedYamlText(sh: ShownFields)
    ensures JoinLines(YamlLines(sh))
            == "photo-sorter:\n" + (FieldText(PATH_KEY, sh.path) + (FieldText(DATETIME_KEY, sh.datetime)
               + (FieldText(ORIGINAL_KEY, sh.originalDatetime) + FieldText(GPS_KEY, sh.gpsDate))))
  {
    var p, d := FieldLine(PATH_KEY, sh.path), FieldLine(DATETIME_KEY, sh.datetime);
    var o, g := FieldLine(ORIGINAL_KEY, sh.originalDatetime), FieldLine(GPS_KEY, sh.gpsDate);
    JoinLinesAppend([HEADER], p + (d + (o + g)));
    JoinLinesAppend(p, d + (o + g));
    JoinLinesAppend(d, o + g);
    JoinLinesAppend(o, g);
    FieldLineText(PATH_KEY, sh.path);
    FieldLineText(DATETIME_KEY, sh.datetime);
    FieldLineText(ORIGINAL_KEY, sh.originalDatetime);
    FieldLineText(GPS_KEY, sh.gpsDate);
    assert JoinLines([HEADER]) == "photo-sorter:\n" by {
      assert JoinLines([HEADER]) == HEADER + "\n" + JoinLines([]);
    }
  }

  // ---------------------------------------------------------------------------
  // Reading the YAML lines back

  /** Takes a field's value off the first line when it carries that field's key. */
  function TakeField(key: string, ls: seq<string>): (Option<string>, seq<string>) {
    if ls != [] && StartsWith(ls[0], key) then (Some(ls[0][|key|..]), ls[1..]) else (None, ls)
  }

  /** The fields a list of YAML lines shows, read in the order they are written; none when lines are left over. */
  function ReadShown(ls: seq<string>): Option<ShownFields> {
    if ls == [] || ls[0] != HEADER then None
    else
      var (p, r1) := TakeField(PATH_KEY, ls[1..]);
      var (d, r2) := TakeField(DATETIME_KEY, r1);
      var (o, r3) := TakeField(ORIGINAL_KEY, r2);
      var (g, r4) := TakeField(GPS_KEY, r3);
      if r4 == [] then Some(ShownFields(p, d, o, g)) else None
  }

  /** Every line has a third character, and it is one of `tags` (the keys differ there). */
  predicate Tagged(ls: seq<string>, tags: set<char>) {
    forall k :: 0 <= k < |ls| ==> |ls[k]| > 2 && ls[k][2] in tags
  }

  lemma FieldLineTagged(key: string, v: Option<string>, tags: set<char>)
    requires |key| > 2 && key[2] in tags
    ensures Tagged(FieldLine(key, v), tags)
  {
    if v.Some? {
      assert (key + v.value)[2] == key[2];
    }
  }

  lemma TaggedAppend(a: seq<string>, b: seq<string>, tags: set<char>)
    requires Tagged(a, tags) && Tagged(b, tags)
    ensures Tagged(a + b, tags)
  {
    forall k | 0 <= k < |a + b|
      ensures |(a + b)[k]| > 2 && (a + b)[k][2] in tags
    {
      if k < |a| {
        assert (a + b)[k] == a[k];
      } else {
        assert (a + b)[k] == b[k - |a|];
      }
    }
  }

  /** A field's line, followed by lines of other keys, is taken off whole. */
  lemma TakeFieldOf(key: string, v: Option<string>, rest: seq<string>, tags: set<char>)
    requires |key| > 2 && key[2] !in tags && Tagged(rest, tags)
    ensures TakeField(key, FieldLine(key, v) + rest) == (v, rest)
  {
    var ls := FieldLine(key, v) + rest;
    if v.Some? {
      assert ls[0] == key + v.value;
      assert ls[0][..|key|] == key;
      assert ls[0][|key|..] == v.value;
      assert ls[1..] == rest;
    } else {
      assert ls == rest;
      if rest != [] {
        assert rest[0][2] != key[2];
      }
    }
  }

  /** Reading the lines of the YAML back gives the shown fields: the YAML loses nothing it shows. */
  lemma ReadShownOfYamlLines(sh: ShownFields)
    ensures ReadShown(YamlLines(sh)) == Some(sh)
  {
    var p, d := FieldLine(PATH_KEY, sh.path), FieldLine(DATETIME_KEY, sh.datetime);
    var o, g := FieldLine(ORIGINAL_KEY, sh.originalDatetime), FieldLine(GPS_KEY, sh.gpsDate);
    var ls := YamlLines(sh);
    assert ls[0] == HEADER && ls[1..] == p + (d + (o + g));
    FieldLineTagged(GPS_KEY, sh.gpsDate, {'g'});
    assert [] + g == g;
    TakeFieldOf(GPS_KEY, sh.gpsDate, [], {});
    FieldLineTagged(GPS_KEY, sh.gpsDate, {'o', 'g'});
    FieldLineTagged(ORIGINAL_KEY, sh.originalDatetime, {'o', 'g'});
    TakeFieldOf(ORIGINAL_KEY, sh.originalDatetime, g, {'g'});
    TaggedAppend(o, g, {'o', 'g'});
    FieldLineTagged(GPS_KEY, sh.gpsDate, {'d', 'o', 'g'});
    FieldLineTagged(ORIGINAL_KEY, sh.originalDatetime, {'d', 'o', 'g'});
    FieldLineTagged(DATETIME_KEY, sh.datetime, {'d', 'o', 'g'});
    TakeFieldOf(DATETIME_KEY, sh.datetime, o + g, {'o', 'g'});
    TaggedAppend(o, g, {'d', 'o', 'g'});
    TaggedAppend(d, o + g, {'d', 'o', 'g'});
    TakeFieldOf(PATH_KEY, sh.path, d + (o + g), {'d', 'o', 'g'});
    assert TakeField(GPS_KEY, g) == (sh.gpsDate, []) by {
      assert g + [] == g;
    }
  }

  predicate NoBreaks(v: Option<string>) {
    v.Some? ==> NoLineBreak(v.value)
  }

  /** No field the YAML shows holds a line break. */
  predicate PlainFields(mfm: PhotoSorterFrontMatter) {
    NoBreaks(mfm.path) && NoBreaks(mfm.datetime) && NoBreaks(mfm.datetime_original) && NoBreaks(mfm.gps_date)
  }

  lemma KeyLineNoBreak(key: string, v: Option<string>)
    requires NoLineBreak(key) && NoBreaks(v)
    ensures forall k :: 0 <= k < |FieldLine(key, v)| ==> NoLineBreak(FieldLine(key, v)[k])
  {
    if v.Some? {
      var l := key + v.value;
      forall j | 0 <= j < |l|
        ensures l[j] != '\n' && l[j] != '\r'
      {
        if j < |key| {
          assert l[j] == key[j];
        } else {
          assert l[j] == v.value[j - |key|];
        }
      }
    }
  }

  lemma LinesNoBreakAppend(a: seq<string>, b: seq<string>)
    requires forall k :: 0 <= k < |a| ==> NoLineBreak(a[k])
    requires forall k :: 0 <= k < |b| ==> NoLineBreak(b[k])
    ensures forall k :: 0 <= k < |a + b| ==> NoLineBreak((a + b)[k])
  {
    forall k | 0 <= k < |a + b|
      ensures NoLineBreak((a + b)[k])
    {
      if k < |a| {
        assert (a + b)[k] == a[k];
      } else {
        assert (a + b)[k] == b[k - |a|];
      }
    }
  }

  /** With plain fields, no line of the YAML holds a line break, and none is a `---` delimiter. */
  lemma FieldLinesTagged(sh: ShownFields)
    ensures Tagged(FieldLines(sh), {'p', 'd', 'o', 'g'})
  {
    var tags := {'p', 'd', 'o', 'g'};
    var p, d := FieldLine(PATH_KEY, sh.path), FieldLine(DATETIME_KEY, sh.datetime);
    var o, g := FieldLine(ORIGINAL_KEY, sh.originalDatetime), FieldLine(GPS_KEY, sh.gpsDate);
    FieldLineTagged(PATH_KEY, sh.path, tags);
    FieldLineTagged(DATETIME_KEY, sh.datetime, tags);
    FieldLineTagged(ORIGINAL_KEY, sh.originalDatetime, tags);
    FieldLineTagged(GPS_KEY, sh.gpsDate, tags);
    TaggedAppend(o, g, tags);
    TaggedAppend(d, o + g, tags);
    TaggedAppend(p, d + (o + g), tags);
  }

  lemma FieldLinesNoBreak(sh: ShownFields)
    requires NoBreaks(sh.path) && NoBreaks(sh.datetime) && NoBreaks(sh.originalDatetime) && NoBreaks(sh.gpsDate)
    ensures forall k :: 0 <= k < |FieldLines(sh)| ==> NoLineBreak(FieldLines(sh)[k])
  {
    var p, d := FieldLine(PATH_KEY, sh.path), FieldLine(DATETIME_KEY, sh.datetime);
    var o, g := FieldLine(ORIGINAL_KEY, sh.originalDatetime), FieldLine(GPS_KEY, sh.gpsDate);
    KeyLineNoBreak(PATH_KEY, sh.path);
    KeyLineNoBreak(DATETIME_KEY, sh.datetime);
    KeyLineNoBreak(ORIGINAL_KEY, sh.originalDatetime);
    KeyLineNoBreak(GPS_KEY, sh.gpsDate);
    LinesNoBreakAppend(o, g);
    LinesNoBreakAppend(d, o + g);
    LinesNoBreakAppend(p, d + (o + g));
  }

  /** With plain fields, no line of the YAML holds a line break, and none is a `---` delimiter. */
  lemma YamlLinesPlain(mfm: PhotoSorterFrontMatter)
    requires PlainFields(mfm)
    ensures forall k :: 0 <= k < |YamlLines(Shown(mfm))| ==> NoLineBreak(YamlLines(Shown(mfm))[k])
    ensures forall k :: 0 <= k < |YamlLines(Shown(mfm))| ==> YamlLines(Shown(mfm))[k] != DELIMITER
  {
    var sh := Shown(mfm);
    var fs := FieldLines(sh);
    FieldLinesNoBreak(sh);
    FieldLinesTagged(sh);
    assert NoLineBreak(HEADER);
    LinesNoBreakAppend([HEADER], fs);
    var ls := YamlLines(sh);
    forall k | 0 <= k < |ls|
      ensures ls[k] != DELIMITER
    {
      if k > 0 {
        assert ls[k] == fs[k - 1];
        assert ls[k][2] != DELIMITER[2];
      }
    }
  }

  /**
    * With plain fields, two front-matters give the same YAML exactly when they show
    * the same fields: the comparison a sync makes ignores only the unique id and an
    * original date-time equal to the date-time.
    */
  lemma SameYamlIffSameShown(a: PhotoSorterFrontMatter, b: PhotoSorterFrontMatter)
    requires PlainFields(a) && PlainFields(b)
    ensures GeneratedYaml(a) == GeneratedYaml(b) <==> Shown(a) == Shown(b)
  {
    if GeneratedYaml(a) == GeneratedYaml(b) {
      YamlLinesPlain(a);
      YamlLinesPlain(b);
      LinesOfJoinLines(YamlLines(Shown(a)));
      LinesOfJoinLines(YamlLines(Shown(b)));
      ReadShownOfYamlLines(Shown(a));
      ReadShownOfYamlLines(Shown(b));
    }
  }

  /** The YAML starts with the `photo-sorter:` line whatever the fields. */
  lemma YamlStartsWithHeader(mfm: PhotoSorterFrontMatter)
    ensures StartsWith(GeneratedYaml(mfm), "photo-sorter:\n")
  {
    var sh := Shown(mfm);
    GeneratedYamlText(sh);
    var rest := FieldText(PATH_KEY, sh.path) + (FieldText(DATETIME_KEY, sh.datetime)
               + (FieldText(ORIGINAL_KEY, sh.originalDatetime) + FieldText(GPS_KEY, sh.gpsDate)));
    PrefixOfConcat("photo-sorter:\n", rest, 14);
  }

  /**
    * The unique id never reaches the YAML, and neither does an original date-time
    * equal to the date-time.
    */
  lemma YamlIgnoresHiddenFields(mfm: PhotoSorterFrontMatter, u: Option<string>)
    ensures GeneratedYaml(mfm.(unique_id := u)) == GeneratedYaml(mfm)
    ensures mfm.datetime.Some? && mfm.datetime_original == mfm.datetime
            ==> GeneratedYaml(mfm) == GeneratedYaml(mfm.(datetime_original := None))
    ensures mfm.datetime.None? && mfm.datetime_original == Some("")
            ==> GeneratedYaml(mfm) == GeneratedYaml(mfm.(datetime_original := None))
  {
  }

  // ---------------------------------------------------------------------------
  // Splitting a sidecar line by line

  const DELIMITER: string := "---"

  /** The index of the first `---` line, or the number of lines when there is none. */
  function CloseIndex(ls: seq<string>): (i: nat)
    ensures i <= |ls|
    ensures i < |ls| ==> ls[i] == DELIMITER
    ensures forall j :: 0 <= j < i ==> ls[j] != DELIMITER
  {
    if ls == [] then 0
    else if ls[0] == DELIMITER then 0
    else 1 + CloseIndex(ls[1..])
  }

  lemma CloseIndexIs(ls: seq<string>, i: nat)
    requires i <= |ls| && (i < |ls| ==> ls[i] == DELIMITER)
    requires forall j :: 0 <= j < i ==> ls[j] != DELIMITER
    ensures CloseIndex(ls) == i
  {
  }

  /**
    * The front-matter and body a list of lines splits into: after an opening `---`
    * line, the lines up to the next `---` line are front-matter and the lines after
    * it the body (no body when no `---` line closes it); without an opening line
    * every line is body. Each line is followed by `\n`.
    */
  function SplitLines(ls: seq<string>): (string, string) {
    if ls == [] then ("", "")
    else if ls[0] != DELIMITER then ("", JoinLines(ls))
    else
      var rest := ls[1..];
      var c := CloseIndex(rest);
      (JoinLines(rest[..c]), if c < |rest| then JoinLines(rest[c + 1..]) else "")
  }

  /**
    * `split_frontmatter`: walks the lines of the sidecar, first the front-matter
    * lines up to and including the closing `---`, then the body lines.
    */
  method SplitFrontmatter(contents: string) returns (frontmatter: string, content: string)
    ensures (frontmatter, content) == SplitLines(Lines(contents))
  {
    var lines := Lines(contents);
    frontmatter := "";
    content := "";
    var i := 0;
    if |lines| > 0 {
      if lines[0] == DELIMITER {
        frontmatter, i := TakeFrontMatter(lines);
      } else {
        content := lines[0] + "\n";
        i := 1;
      }
    }
    content := PushLines(content, lines, i);
    if |lines| > 0 && lines[0] == DELIMITER {
      EmptyConcat(JoinLines(lines[i..]));
    }
  }

  /**
    * The front-matter loop: pushes the lines after the opening `---` until a `---`
    * line, which it consumes; `next` is the first line left for the body.
    */
  method TakeFrontMatter(lines: seq<string>) returns (frontmatter: string, next: nat)
    requires |lines| > 0 && lines[0] == DELIMITER
    ensures next <= |lines|
    ensures frontmatter == SplitLines(lines).0
    ensures JoinLines(lines[next..]) == SplitLines(lines).1
  {
    frontmatter := "";
    var i := 1;
    while i < |lines| && lines[i] != DELIMITER
      invariant 1 <= i <= |lines|
      invariant forall j :: 1 <= j < i ==> lines[j] != DELIMITER
      invariant frontmatter == JoinLines(lines[1..i])
    {
      JoinLinesSnoc(lines[1..i], lines[i]);
      SliceSnoc(lines, 1, i);
      frontmatter := frontmatter + lines[i] + "\n";
      i := i + 1;
    }
    SplitOpened(lines, i);
    next := if i < |lines| then i + 1 else i;
  }

  /** The body loop: pushes every line from `from` on, each followed by `\n`. */
  method PushLines(content: string, lines: seq<string>, from: nat) returns (out: string)
    requires from <= |lines|
    ensures out == content + JoinLines(lines[from..])
  {
    out := content;
    var i := from;
    assert out == content + JoinLines(lines[from..i]) by {
      assert lines[from..i] == [];
      ConcatEmpty(content);
    }
    while i < |lines|
      invariant from <= i <= |lines|
      invariant out == content + JoinLines(lines[from..i])
    {
      JoinLinesSnoc(lines[from..i], lines[i]);
      SliceSnoc(lines, from, i);
      Assoc(content, JoinLines(lines[from..i]), lines[i], "\n");
      out := out + lines[i] + "\n";
      i := i + 1;
    }
    assert lines[from..i] == lines[from..];
  }

  /** Where the front-matter loop stops decides the split of lines that open with `---`. */
  lemma SplitOpened(lines: seq<string>, i: nat)
    requires |lines| > 0 && lines[0] == DELIMITER && 1 <= i <= |lines|
    requires i < |lines| ==> lines[i] == DELIMITER
    requires forall j :: 1 <= j < i ==> lines[j] != DELIMITER
    ensures SplitLines(lines).0 == JoinLines(lines[1..i])
    ensures SplitLines(lines).1 == JoinLines(lines[if i < |lines| then i + 1 else i..])
  {
    var rest := lines[1..];
    CloseIndexIs(rest, i - 1);
    assert rest[..i - 1] == lines[1..i];
    if i < |lines| {
      assert rest[i..] == lines[i + 1..];
    }
  }

  /** Text without an opening `---` line is all body, and an empty sidecar splits into two empty strings. */
  lemma SplitWithoutOpening(ls: seq<string>)
    requires forall k :: 0 <= k < |ls| ==> NoLineBreak(ls[k])
    requires ls == [] || ls[0] != DELIMITER
    ensures SplitLines(Lines(JoinLines(ls))) == ("", JoinLines(ls))
  {
    LinesOfJoinLines(ls);
  }

  /** An opening `---` line that nothing closes makes every later line front-matter, and the body empty. */
  lemma SplitUnclosed(ls: seq<string>)
    requires |ls| > 0 && ls[0] == DELIMITER
    requires forall j :: 1 <= j < |ls| ==> ls[j] != DELIMITER
    ensures SplitLines(ls) == (JoinLines(ls[1..]), "")
  {
    CloseIndexIs(ls[1..], |ls| - 1);
    assert ls[1..][..|ls| - 1] == ls[1..];
  }

  /**
    * A closed front-matter block and its body, put back between `---` lines, give
    * the lines of the sidecar again (every line ending written as `\n`).
    */
  lemma SplitReassembles(ls: seq<string>)
    requires |ls| > 0 && ls[0] == DELIMITER
    requires CloseIndex(ls[1..]) < |ls| - 1
    ensures "---\n" + SplitLines(ls).0 + "---\n" + SplitLines(ls).1 == JoinLines(ls)
  {
    var rest := ls[1..];
    var c := CloseIndex(rest);
    var fm, body := JoinLines(rest[..c]), JoinLines(rest[c + 1..]);
    SplitOfClosed(ls);
    JoinOpened(ls);
    JoinAroundDelimiter(rest, c);
    Regroup("---\n", fm, "---\n", body);
  }

  lemma SplitOfClosed(ls: seq<string>)
    requires |ls| > 0 && ls[0] == DELIMITER
    requires CloseIndex(ls[1..]) < |ls| - 1
    ensures var c := CloseIndex(ls[1..]);
            SplitLines(ls) == (JoinLines(ls[1..][..c]), JoinLines(ls[1..][c + 1..]))
  {
  }

  lemma JoinOpened(ls: seq<string>)
    requires |ls| > 0 && ls[0] == DELIMITER
    ensures JoinLines(ls) == "---\n" + JoinLines(ls[1..])
  {
  }

  /** Joining lines around a `---` line: the lines before it, `---`, and the lines after it. */
  lemma JoinAroundDelimiter(ls: seq<string>, c: nat)
    requires c < |ls| && ls[c] == DELIMITER
    ensures JoinLines(ls) == JoinLines(ls[..c]) + ("---\n" + JoinLines(ls[c + 1..]))
  {
    var close := [ls[c]] + ls[c + 1..];
    SplitAround(ls, c);
    JoinLinesAppend(ls[..c], close);
    assert JoinLines(close) == "---\n" + JoinLines(ls[c + 1..]) by {
      JoinLinesAppend([ls[c]], ls[c + 1..]);
      JoinLinesSingle(ls[c]);
      assert ls[c] + "\n" == "---\n";
    }
  }

  // ---------------------------------------------------------------------------
  // Assembling a sidecar

  /** The text `assemble_markdown` writes: `---`, the YAML, `---`, then the body. */
  function AssembledText(mfm: PhotoSorterFrontMatter, content: string): string {
    "---\n" + GeneratedYaml(mfm) + "---\n" + content
  }

  /** An assembled sidecar opens with `---` and the `photo-sorter:` line, and ends with the body. */
  lemma AssembledFraming(mfm: PhotoSorterFrontMatter, content: string)
    ensures StartsWith(AssembledText(mfm, content), "---\nphoto-sorter:\n")
    ensures EndsWith(AssembledText(mfm, content), content)
  {
    var y := GeneratedYaml(mfm);
    var front := "---\n" + y + "---\n";
    YamlStartsWithHeader(mfm);
    SuffixOfConcat(front, content);
    assert ("---\n" + y)[..18] == "---\n" + y[..14] by {
      PrefixThrough("---\n", y, 14);
    }
    PrefixOfConcat("---\n" + y, "---\n", 18);
    PrefixOfConcat(front, content, 18);
  }

  /** `assemble_markdown`: pushes `---`, the generated YAML, `---` and the body onto a string. */
  method AssembleMarkdown(mfm: PhotoSorterFrontMatter, content: string) returns (s: string)
    ensures s == AssembledText(mfm, content)
  {
    s := "";
    s := s + "---\n";
    var yaml := GenerateYaml(mfm);
    s := s + yaml;
    s := s + "---\n";
    s := s + content;
  }

  /** The lines of an assembled sidecar before its body. */
  function OuterLines(mfm: PhotoSorterFrontMatter): seq<string> {
    [DELIMITER] + (YamlLines(Shown(mfm)) + [DELIMITER])
  }

  lemma AssembledAsLines(mfm: PhotoSorterFrontMatter, content: string)
    ensures AssembledText(mfm, content) == JoinLines(OuterLines(mfm)) + content
  {
    var ys := YamlLines(Shown(mfm));
    var y := GeneratedYaml(mfm);
    assert JoinLines(OuterLines(mfm)) == "---\n" + (y + "---\n") by {
      JoinLinesSnoc(ys, DELIMITER);
      assert JoinLines(OuterLines(mfm)) == DELIMITER + "\n" + JoinLines(ys + [DELIMITER]);
    }
    Assoc("---\n", y, "---\n", content);
  }

  /**
    * Splitting an assembled sidecar gives back the generated YAML as front-matter,
    * and the body with its lines re-terminated by `\n`, provided no field holds a
    * line break.
    */
  lemma SplitOfAssembled(mfm: PhotoSorterFrontMatter, content: string)
    requires PlainFields(mfm)
    ensures SplitLines(Lines(AssembledText(mfm, content))) == (GeneratedYaml(mfm), JoinLines(Lines(content)))
  {
    var ys := YamlLines(Shown(mfm));
    YamlLinesPlain(mfm);
    AssembledAsLines(mfm, content);
    assert Lines(AssembledText(mfm, content)) == OuterLines(mfm) + Lines(content) by {
      LinesNoBreakAppend(ys, [DELIMITER]);
      LinesNoBreakAppend([DELIMITER], ys + [DELIMITER]);
      LinesOfJoinLinesThen(OuterLines(mfm), content);
    }
    SplitOuter(ys, Lines(content));
  }

  /** Lines between two `---` lines, none of them a `---` line, split off as front-matter, the rest as body. */
  lemma SplitOuter(ys: seq<string>, tail: seq<string>)
    requires forall k :: 0 <= k < |ys| ==> ys[k] != DELIMITER
    ensures SplitLines([DELIMITER] + (ys + [DELIMITER]) + tail) == (JoinLines(ys), JoinLines(tail))
  {
    var ls := [DELIMITER] + (ys + [DELIMITER]) + tail;
    var rest := ls[1..];
    assert rest == ys + ([DELIMITER] + tail);
    CloseIndexIs(rest, |ys|);
    assert rest[..|ys|] == ys;
    assert rest[|ys| + 1..] == tail;
  }

  /** A body of lines without line breaks survives assembling and splitting unchanged. */
  lemma RoundTrip(mfm: PhotoSorterFrontMatter, body: seq<string>)
    requires PlainFields(mfm)
    requires forall k :: 0 <= k < |body| ==> NoLineBreak(body[k])
    ensures SplitLines(Lines(AssembledText(mfm, JoinLines(body)))) == (GeneratedYaml(mfm), JoinLines(body))
  {
    SplitOfAssembled(mfm, JoinLines(body));
    LinesOfJoinLines(body);
  }

  /** A body of a blank line and a last line without `\n` comes back with that line terminated. */
  lemma SplitKeepsBlankLine(mfm: PhotoSorterFrontMatter, w: string)
    requires PlainFields(mfm) && NoLineBreak(w) && w != []
    ensures SplitLines(Lines(AssembledText(mfm, "\n" + w))) == (GeneratedYaml(mfm), "\n" + w + "\n")
  {
    SplitOfAssembled(mfm, "\n" + w);
    assert Lines("\n" + w) == ["", w] by {
      EmptyConcat("\n");
      LinesCons("", w);
      assert Lines(w) == [w] by {
        assert IndexOfChar(w, '\n') == |w|;
      }
    }
    assert JoinLines(["", w]) == "\n" + w + "\n" by {
      JoinLinesSingle(w);
      assert ["", w][1..] == [w];
      assert JoinLines(["", w]) == "" + "\n" + JoinLines([w]);
      EmptyConcat("\n");
      Assoc("\n", w, "\n", []);
      ConcatEmpty("\n" + w + "\n");
    }
  }

  // ---------------------------------------------------------------------------
  // Reading an existing sidecar

  /** What serde reads from a sidecar's front-matter. */
  datatype MediaFrontMatter = MediaFrontMatter(photo_sorter: Option<PhotoSorterFrontMatter>)

  /**
    * `parse_yaml`: `load` stands for serde's reading of the YAML, none when it
    * fails; a document without a `photo-sorter` key reads as the empty front-matter.
    */
  function ParseYaml(s: string, load: string -> Option<MediaFrontMatter>): (r: Result<PhotoSorterFrontMatter>)
    ensures r.Err? <==> load(s).None?
    ensures r.Ok? && load(s).value.photo_sorter.None? ==> r.value == EMPTY_FRONT_MATTER
    ensures r.Ok? && load(s).value.photo_sorter.Some? ==> r.value == load(s).value.photo_sorter.value
  {
    match load(s)
    case None => Err("could not parse front-matter")
    case Some(m) => Ok(UnwrapOr(m.photo_sorter, EMPTY_FRONT_MATTER))
  }

  /** `parse_frontmatter`: the split front-matter, read as YAML, and the body. */
  function ParseFrontmatter(contents: string, load: string -> Option<MediaFrontMatter>)
    : (r: Result<(PhotoSorterFrontMatter, string)>)
    ensures r.Err? <==> load(SplitLines(Lines(contents)).0).None?
    ensures r.Ok? ==> r.value.1 == SplitLines(Lines(contents)).1
  {
    var (fm, md) := SplitLines(Lines(contents));
    var mfm := ParseYaml(fm, load);
    if mfm.Err? then Err(mfm.message) else Ok((mfm.value, md))
  }

  // ---------------------------------------------------------------------------
  // Syncing a sidecar into the output directory

  /** What a sync does to the output directory: nothing, or write a text at a path. */
  datatype SyncAction = Unchanged | Written(path: string, text: string)

  /**
    * What `sync_markdown` decides, given the output directory's files: nothing
    * without a desired markdown path; an error when the existing sidecar cannot be
    * read or its front-matter does not parse; nothing when its front-matter gives
    * the same YAML as the media file; otherwise the media file's front-matter over
    * the existing body, or over an empty body when there is no sidecar yet.
    */
  function SyncPlan(mediaFile: CmdMediaFile, files: map<string, Stored>, load: string -> Option<MediaFrontMatter>)
    : Result<SyncAction>
  {
    match mediaFile.desired_markdown_path
    case None => Ok(Unchanged)
    case Some(path) =>
      var mfm := MfmFromMediaFileInfo(mediaFile);
      if path !in files then Ok(Written(path, AssembledText(mfm, "")))
      else match files[path]
        case Unreadable => Err("Could not read existing markdown file at " + path)
        case Text(existing) =>
          match ParseFrontmatter(existing, load)
          case Err(_) => Err("Could not parse existing markdown file frontmatter at " + path)
          case Ok((eMfm, eMd)) =>
            if GeneratedYaml(mfm) == GeneratedYaml(eMfm) then Ok(Unchanged)
            else Ok(Written(path, AssembledText(mfm, eMd)))
  }

  /** `sync_markdown` over the output directory: carries out `SyncPlan`, writing nothing on a dry run. */
  method SyncMarkdown(dryRun: bool, mediaFile: CmdMediaFile, outputC: DirectoryContainer,
                      load: string -> Option<MediaFrontMatter>) returns (r: Result<()>)
    modifies outputC
    ensures var plan := SyncPlan(mediaFile, old(outputC.files), load);
            && (r.Err? <==> plan.Err?)
            && outputC.files
               == if plan.Ok? && plan.value.Written? && !dryRun
                  then old(outputC.files)[plan.value.path := Stored.Text(plan.value.text)]
                  else old(outputC.files)
  {
    if mediaFile.desired_markdown_path.None? {
      return Ok(());
    }
    var outputPath := mediaFile.desired_markdown_path.value;
    var existing: Option<(PhotoSorterFrontMatter, string)> := None;
    if outputC.Exists(outputPath) {
      var existingMd := outputC.FileText(outputPath);
      if existingMd.Err? {
        return Err("Could not read existing markdown file at " + outputPath);
      }
      var parsed := ParseFrontmatter(existingMd.value, load);
      if parsed.Err? {
        return Err("Could not parse existing markdown file frontmatter at " + outputPath);
      }
      existing := Some(parsed.value);
    }
    var mfm := MfmFromMediaFileInfo(mediaFile);
    var md := "";
    if existing.Some? {
      var (eMfm, eMd) := existing.value;
      var y := GenerateYaml(mfm);
      var eY := GenerateYaml(eMfm);
      if y == eY {
        return Ok(());
      }
      md := eMd;
    }
    var s := AssembleMarkdown(mfm, md);
    outputC.Write(dryRun, outputPath, s);
    return Ok(());
  }

  /**
    * An existing sidecar is left alone exactly when its front-matter shows the same
    * fields as the media file's (for fields without line breaks); otherwise its body
    * is kept under the media file's front-matter.
    */
  lemma SyncSkipsIffSameFields(mediaFile: CmdMediaFile, files: map<string, Stored>,
                               load: string -> Option<MediaFrontMatter>, eMfm: PhotoSorterFrontMatter)
    requires mediaFile.desired_markdown_path.Some?
    requires var path := mediaFile.desired_markdown_path.value;
             path in files && files[path].Text?
             && ParseFrontmatter(files[path].content, load).Ok?
             && ParseFrontmatter(files[path].content, load).value.0 == eMfm
    requires PlainFields(MfmFromMediaFileInfo(mediaFile)) && PlainFields(eMfm)
    ensures var path := mediaFile.desired_markdown_path.value;
            var mfm := MfmFromMediaFileInfo(mediaFile);
            && (SyncPlan(mediaFile, files, load) == Ok(Unchanged) <==> Shown(mfm) == Shown(eMfm))
            && (Shown(mfm) != Shown(eMfm) ==>
                  SyncPlan(mediaFile, files, load)
                  == Ok(Written(path, AssembledText(mfm, SplitLines(Lines(files[path].content)).1))))
  {
    SameYamlIffSameShown(MfmFromMediaFileInfo(mediaFile), eMfm);
  }

  /**
    * A second sync right after a write leaves the sidecar alone, provided serde
    * reads the written YAML back as front-matter showing the same fields.
    */
  lemma SyncIsIdempotent(mediaFile: CmdMediaFile, files: map<string, Stored>,
                         load: string -> Option<MediaFrontMatter>, path: string, text: string,
                         readBack: PhotoSorterFrontMatter)
    requires SyncPlan(mediaFile, files, load) == Ok(Written(path, text))
    requires PlainFields(MfmFromMediaFileInfo(mediaFile))
    requires load(GeneratedYaml(MfmFromMediaFileInfo(mediaFile))) == Some(MediaFrontMatter(Some(readBack)))
    requires Shown(readBack) == Shown(MfmFromMediaFileInfo(mediaFile))
    ensures SyncPlan(mediaFile, files[path := Stored.Text(text)], load) == Ok(Unchanged)
  {
    var mfm := MfmFromMediaFileInfo(mediaFile);
    var body :| text == AssembledText(mfm, body);
    SplitOfAssembled(mfm, body);
  }

  /** A media file without a sidecar gets one holding only its front-matter. */
  lemma NewSidecarHasEmptyBody(mediaFile: CmdMediaFile, files: map<string, Stored>,
                               load: string -> Option<MediaFrontMatter>)
    requires mediaFile.desired_markdown_path.Some? && mediaFile.desired_markdown_path.value !in files
    requires PlainFields(MfmFromMediaFileInfo(mediaFile))
    ensures SyncPlan(mediaFile, files, load).Ok?
    ensures SyncPlan(mediaFile, files, load).value.Written?
    ensures SplitLines(Lines(SyncPlan(mediaFile, files, load).value.text))
            == (GeneratedYaml(MfmFromMediaFileInfo(mediaFile)), "")
  {
    SplitOfAssembled(MfmFromMediaFileInfo(mediaFile), "");
  }
}
