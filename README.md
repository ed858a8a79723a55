# photo-sorter core in Dafny

photo-sorter archives a photo library, such as a Google Takeout export, into a
dated directory tree. Each media file goes to `yyyy/mm/dd/hhmm-ssmmm.<ext>`, or
to `undated/<checksum>` when no capture time is known. A markdown sidecar sits
beside each file. It holds a YAML front-matter block with the file's original
paths and EXIF dates, followed by the user's own notes.

This project models the logic that decides what a media item is called, when it
was taken, and what its sidecar looks like. It proves properties of that logic.
There is one module per source file:

- `Markdown` (`src/markdown.rs`): splits a sidecar into front-matter and body.
  It merges original paths into the YAML mapping (`yaml_array_merge` on a
  `YamlHash` object updated in place), reassembles the sidecar and syncs it into
  the output directory.
- `MarkdownCmd` (`src/markdown_cmd.rs`): the line-based revision of the same
  ideas. It has fixed-order YAML generation, a split that consumes lines in
  loops, reassembly, and the decision whether a sidecar needs rewriting.
- `Media` (`src/media.rs`): the capture-time precedence chain, the archive path,
  and the derived extension.
- `Exif` and `ExifUtil` (`src/exif.rs`, `src/exif_util.rs`): EXIF date-time
  normalisation (overflowing seconds, sub-second digits), GPS date rewriting,
  the tag-map loop and the EXIF date precedence.
- `FileType` and `MediaFile` (`src/file_type.rs`, `src/media_file.rs`): they
  classify files by extension and by sniffed content type, and filter the scan
  list.
- `Albums` (`src/album.rs`): reads an album from CSV rows, de-duplicates album
  names, inverts albums into a file-to-albums map and renders album markdown.
- `SupplementalInfo` and `ExtraInfo` (`src/supplemental_info.rs`,
  `src/extra_info.rs`): the first-match probe for JSON sidecars, and the
  seconds-or-milliseconds timestamp conversion.

Supporting modules:

- `Wrappers`: `Option` and `Result`.
- `Text`: Rust string operations such as `lines`, `split`, `find`, the trims,
  ASCII lowercasing and digit parsing.
- `Rfc3339`: a date-time record with a strict RFC 3339 formatter and parser
  (section 5.6 of RFC 3339). It also has a `%Y-%m-%d` date reader that stands
  for chrono.
- `Container`: the container is a map from path to stored content. The output
  directory is a class whose `Write` does nothing on a dry run.

Library code the repository calls is turned into function parameters. This
covers the magic-byte sniffer, the YAML loader and emitter, the serde readers,
and the epoch-millisecond-to-RFC 3339 formatter. The shown files mix several
revisions of the program, so each file is modelled as written, in its own
module. For example, the two `MediaFileInfo` types and the two
`split_frontmatter` functions are not reconciled.

## Model

| member | source | states |
|---|---|---|
| Wrappers.FirstSome | src/media.rs:112-146 | the first present option of a list, with every earlier one absent; absent exactly when all are |
| Container.FileBytes | src/util.rs:25-29 | a path reads as bytes exactly when it is stored and readable, and yields its stored bytes |
| Container.FirstExisting | src/extra_info.rs:5-18 | the result is the path plus the first suffix whose file exists, every earlier one missing; absent exactly when no candidate exists |
| Container.DirectoryContainer.constructor | src/util.rs:36-37 | the output directory starts with the given files |
| Container.DirectoryContainer.FileText | src/util.rs:25-29 | an output file reads as text exactly when it is present and readable |
| Container.DirectoryContainer.Write | src/util.rs:39-54 | a dry run leaves the directory unchanged; otherwise exactly the one path is set to the content |
| ExtraInfo.DetectExtraInfo | src/extra_info.rs:5-18 | the first suffix wins: each suffix is returned exactly when it exists and every earlier one does not; absent iff no candidate exists |
| ExtraInfo.ReadExtraInfo | src/extra_info.rs:20-41 | unreadable bytes give nothing; a value exactly when the bytes read, parse and re-encode, and then it is the re-encoding of the parsed JSON |
| SupplementalInfo.SuffixesAreJson | src/supplemental_info.rs:10-20 | every probed suffix ends in `.json` |
| SupplementalInfo.DetectSupplementalInfo | src/supplemental_info.rs:6-22 | a result is the path plus the first existing suffix of the fixed list, ends in `.json` and exists; absent iff no candidate exists |
| SupplementalInfo.LoadSupplementalInfo | src/supplemental_info.rs:24-35 | a missing or unopenable file gives nothing; a readable file gives exactly the parse of its stored bytes |
| SupplementalInfo.TimestampSAsIso8601 | src/supplemental_info.rs:56-67 | a missing timestamp gives nothing; any result is the formatter applied to the parsed millisecond value |
| SupplementalInfo.SecondsTimestamp | src/supplemental_info.rs:60-63 | a 10-digit timestamp is read as seconds and multiplied by 1000 |
| SupplementalInfo.MillisTimestamp | src/supplemental_info.rs:64 | any other numeric timestamp within i64 is passed through as milliseconds |
| SupplementalInfo.SecondsNeverOverflow | src/supplemental_info.rs:60-63 | multiplying a 10-character i64 by 1000 stays within i64 |
| SupplementalInfo.NonNumericTimestamp | src/supplemental_info.rs:57-58 | an empty or non-numeric timestamp gives nothing |
| SupplementalInfo.SampleTimestamp | src/supplemental_info.rs:56-63 | the test data's timestamp `1716539968` converts as 1716539968000 milliseconds |
| MediaFile.FileExtFromFileFormat | src/media_file.rs:109-120 | every format has an extension of at least three letters with no dot; `bin` exactly for `Unsupported` |
| MediaFile.FileExtInjective | src/media_file.rs:109-120 | distinct formats get distinct extensions |
| MediaFile.FileFormatFromContentType | src/media_file.rs:122-134 | never `Json`; a supported format exactly for the listed media content types |
| MediaFile.ContentTypeInjective | src/media_file.rs:122-134 | distinct supported content types give distinct formats |
| MediaFile.GuessFileFormat | src/media_file.rs:136-152 | a failed leading read is `Unsupported`; `Json` exactly when readable with a `.json` name in any case; otherwise the sniffed content type decides |
| MediaFile.TakeAsWritten | src/media_file.rs:57-65 | `take` as written: an open error is passed on, and otherwise no byte is returned |
| MediaFile.Take | src/media_file.rs:57-65 | `take` as intended: the file's first `limit` bytes, or all of a shorter file; open errors passed on |
| MediaFile.GuessIgnoresContentAsWritten | src/media_file.rs:136-152 | as written, a readable non-`.json` file's format is the sniffer's verdict on no bytes, whatever its content |
| MediaFile.JpegRejectedAsWritten | src/media_file.rs:136-152 | as written, a JPEG named `photo.jpg` is Unsupported |
| MediaFile.GuessUsesLeadingBytes | src/media_file.rs:136-152 | with the intended read, a non-`.json` file's format is that of its first 36870 bytes |
| MediaFile.JpegRecognisedWithTake | src/media_file.rs:136-152 | with the intended read, the same JPEG is Jpg |
| MediaFile.JsonOverrideIgnoresCase | src/media_file.rs:143-145 | lowercasing the name never changes the guessed format |
| MediaFile.MediaFileInfoFromReadable | src/media_file.rs:72-107 | an error exactly for `Unsupported`; otherwise the name, format, EXIF and checksum are kept, and the desired path is present iff the checksum is, built with collision index 0 |
| MediaFile.UnreadableIsRejected | src/media_file.rs:78-81 | a file whose leading bytes cannot be read is rejected |
| MediaFile.AcceptedNeverBin | src/media_file.rs:78-81 | an accepted file never gets the `bin` extension |
| FileType.LastExtensionShape | src/file_type.rs:13-22 | the extension is a dot-free suffix of the name, preceded by a dot unless it is the whole name |
| FileType.LastExtensionAfterDot | src/file_type.rs:13-22 | the extension of `stem.ext` is `ext` for a dot-free `ext` |
| FileType.NoDotIsWholeName | src/file_type.rs:14 | a name without a dot is its own extension |
| FileType.OnlyLastExtensionCounts | src/file_type.rs:14 | `stem.ext` has the quick type of `ext` alone, so `te.s.jpg` is media |
| FileType.LastExtensionLower | src/file_type.rs:13-22 | the extension of the lowercased name is the lowercased extension |
| FileType.QuickTypeIgnoresCase | src/file_type.rs:13-22 | the quick type does not depend on letter case |
| FileType.ExtensionClassifies | src/file_type.rs:13-22 | a lowercase, dot-free extension alone decides the quick type |
| FileType.MediaByLastExtension | src/file_type.rs:129-141 | `.jpg` and `.mp4` names are media |
| FileType.OthersByLastExtension | src/file_type.rs:129-141 | `.abc` names are unknown and `.csv` names are albums |
| FileType.NameWithoutDot | src/file_type.rs:14 | a name with no dot is classified as if it were all extension |
| FileType.KnownFiles | src/file_type.rs:30-61 | the kept names are no more than the input and none is of unknown type |
| FileType.InKnownFiles | src/file_type.rs:30-61 | a name is kept exactly when it is listed and its type is known |
| FileType.QuickFileScan | src/file_type.rs:30-61 | the scan holds the known names in input order, no more than the input; each record has its name's type, a media file its detected sidecar and an album none |
| FileType.FileExtFromFileType | src/file_type.rs:75-86 | every type has a lowercase, dot-free extension of at least three letters |
| FileType.FileExtInjective | src/file_type.rs:75-86 | distinct types get distinct extensions |
| FileType.StoredExtensionIsRecognised | src/file_type.rs:75-86 | a file stored under its type's extension is classified again as media, album or unknown according to its type |
| FileType.FileTypeFromContentType | src/file_type.rs:88-100 | never `Json`; a supported type exactly for the known content types |
| FileType.ContentTypeInjective | src/file_type.rs:88-100 | distinct known content types give distinct types |
| FileType.DetermineFileType | src/file_type.rs:102-127 | a `.json` name in any case is `Json`; otherwise empty bytes, octet-stream and x-empty are `Unsupported`, and the sniffed type decides the rest |
| FileType.JsonOnlyByName | src/file_type.rs:102-127 | the type is `Json` iff the name ends in `.json` |
| FileType.EmptyFileIsUnsupported | src/file_type.rs:143-157 | an empty `bad.bad` is `Unsupported` |
| Exif.DigitCount | src/exif.rs:230-238 | a value has at least one digit |
| Exif.SubSecondTimeToMs | src/exif.rs:230-238 | the milliseconds never exceed 1000 |
| Exif.SubSecondRounding | src/exif.rs:230-238 | the result is the value read as a decimal fraction, times 1000, rounded half up |
| Exif.SubSecondExact | src/exif.rs:230-238 | a value below 1000 is scaled exactly by its digit count |
| Exif.SubSecondSamples | src/exif.rs:310-316 | 2 → 200, 23 → 230, 234 → 234, 2345 → 235 |
| Exif.SubSecondValue | src/exif.rs:160-175 | a sub-second value is kept only when the tag parses as u32; a non-numeric tag is ignored |
| Exif.NormalizeSeconds | src/exif.rs:204-207 | carrying preserves `mm*60+ss`, leaves seconds at most 60, and changes nothing when they already are |
| Exif.NormalizeSecondsUnique | src/exif.rs:204-207 | the carried result is the unique one with seconds in 1..60 |
| Exif.ParseExifDatetime | src/exif.rs:180-224 | the loop computes the date-time text that `ExifDatetime` defines |
| Exif.ParseExifDatetimeWithMs | src/exif.rs:160-175 | the date-time tag is read with its sub-second tag, when numeric |
| Exif.DateOnlyIsMidnight | src/exif.rs:193-199 | a date with no time part is midnight at whole-second precision |
| Exif.BadDateIsNone | src/exif.rs:181-192 | a date part that is not `%Y-%m-%d` gives nothing |
| Exif.PrecisionFollowsSubSecond | src/exif.rs:219-223 | with a time part the output has millisecond precision iff a sub-second value was given; a date alone is at whole seconds |
| Exif.ExifDatetimeReadsBack | src/exif.rs:180-224 | the result exists iff the carried time is in range, and it parses back to the date with the carried fields |
| Exif.ExifDatetimeOfFields | src/exif.rs:200-216 | `date h:m:s` formats as its carried fields when in range, and gives nothing otherwise |
| Exif.SampleWithSubSecond | src/exif.rs:267-276 | `10:21:59` with sub-second 123 is 10:21:59.123 |
| Exif.SampleSecondsOverflow | src/exif.rs:277-282 | `18:04:98` with sub-second 2000 is 18:05:38.200 |
| Exif.ParseExifDate | src/exif.rs:240-259 | an absent tag gives nothing |
| Exif.ExifDateReparses | src/exif.rs:240-259 | the rewritten date reads back as the same calendar date as the colon form |
| Exif.ExifDateOfFormat | src/exif.rs:240-259 | `YYYY:MM:DD` with an optional trailing time becomes `YYYY-MM-DD` |
| Exif.SampleGpsDate | src/exif.rs:284-288 | `2019:04:04` becomes `2019-04-04` |
| Exif.ParseExif | src/exif.rs:35-92 | nothing for types without EXIF; a result iff EXIF is present, with each date read with its own sub-second tag, the GPS date rewritten and the unique id kept |
| ExifUtil.FieldToOptString | src/exif_util.rs:77-91 | text exactly for a decoded, defined value |
| ExifUtil.TagMapKeys | src/exif_util.rs:44-57 | a key is present iff some entry with that tag is admitted: recognised, textual, at most 1024 bytes |
| ExifUtil.TagMapLastWins | src/exif_util.rs:56 | for a duplicated tag, the last admitted entry's value is kept |
| ExifUtil.TagMapDuplicateKeepsKeys | src/exif_util.rs:56 | a repeated tag adds no key |
| ExifUtil.TagMapSize | src/exif_util.rs:44-57 | there are no more keys than entries |
| ExifUtil.ParseExifInfo | src/exif_util.rs:28-75 | nothing without EXIF; unparseable EXIF gives empty tags and no GPS; otherwise the filtered tag map and the GPS text |
| ExifUtil.FieldValue | src/exif_util.rs:93-95 | a value exactly for a present tag |
| ExifUtil.BestGuessTakenExif | src/exif_util.rs:97-113 | DateTimeOriginal, else ModifyDate, else GPSDateStamp, else nothing; nothing without EXIF |
| ExifUtil.BestGuessIsFirstPresent | src/exif_util.rs:97-113 | the guess is the first present of the three tags |
| ExifUtil.NoDateTags | src/exif_util.rs:106-109 | no date tag gives no guess |
| Media.MediaFileInfoFromReadable | src/media.rs:41-82 | an error when unreadable or `Unsupported`; otherwise `original_path` is the one scanned name, the detected type and scan data are kept, and EXIF is read only for types whose metadata are EXIF tags |
| Media.SuppTime | src/media.rs:112-146 | no supplemental info gives no time |
| Media.BestGuessIsFirstCandidate | src/media.rs:112-146 | the guess is the first available of photo-taken, EXIF, supplemental creation, file created, file modified; nothing iff all five are absent |
| Media.CreatedBeforeModified | src/media.rs:133-144 | the file's created time is taken before its modified time |
| Media.GetDesiredMediaPath | src/media.rs:150-180 | no datetime, or an unparseable one, gives `undated/<checksum>` |
| Media.DesiredPathOfFormat | src/media.rs:159-168 | a datetime the program formatted gives `yyyy/MM/DD/HHMM-SSmmm`, zero-padded, with millis zero at whole-second precision |
| Media.DesiredPathOfParsed | src/media.rs:156-168 | any text that parses as RFC 3339 (year 1000 to 9999) gives `yyyy/MM/DD/HHMM-SSmmm` of the parsed fields, zero-padded |
| Media.DatedPathIsNotUndated | src/media.rs:159-179 | a dated path is 21 characters long and never an undated one |
| Media.SamplePathSeconds | src/media.rs:207-231 | 2008-05-30 15:56:01 gives `2008/05/30/1556-01000` |
| Media.SamplePathMillis | src/media.rs:207-231 | 2008-05-30 15:56:01.009 gives `2008/05/30/1556-01009` |
| Media.MediaFileDerivedFromMediaInfo | src/media.rs:84-96 | derivation always succeeds with a path, and the extension is that of the detected type |
| Media.ExtensionIgnoresName | src/media.rs:87 | two files of the same detected type get the same extension, whatever their names |
| Media.UndatedWithoutTime | src/media.rs:169-178 | without a capture time the path is `undated/<short checksum>` |
| Markdown.MfmFromMediaFileInfo | src/markdown.rs:8-31 | the front-matter records the original paths, plus the EXIF dates and unique id when EXIF was parsed |
| Markdown.SplitFrontmatter | src/markdown.rs:70-149 | input not opening with `---` after leading line breaks is all body; empty front-matter means the body is the input; front-matter never contains `---` nor ends in a line break; a split shortens the body |
| Markdown.SplitClosing | src/markdown.rs:88-149 | after the opening line, the same guarantees hold |
| Markdown.SplitAtClosing | src/markdown.rs:90-146 | at the first closing `---`, the same guarantees hold |
| Markdown.ClosingBody | src/markdown.rs:95-143 | the body is shorter than the text from the closing delimiter on |
| Markdown.FrontMatterFacts | src/markdown.rs:90-103 | non-blank text before the first `---`, with line breaks trimmed, is clean front-matter |
| Markdown.SplitDelimited | src/markdown.rs:80-124 | a well-delimited sidecar splits into its front-matter and the text after the closing line ending |
| Markdown.SplitOpening | src/markdown.rs:80-87 | after leading line breaks, the opening `---` and its line ending are consumed |
| Markdown.SplitOpeningLineOnly | src/markdown.rs:84-87 | an empty input, or one with only the opening line, gives empty front-matter and the input as body |
| Markdown.SplitTitleSample | src/markdown.rs:376-415 | the valid-front-matter tests, with and without leading blank lines, LF and CRLF |
| Markdown.SplitClosingShape | src/markdown.rs:95-143 | after `---\n` or `---\r\n` the body is the rest; a bare `---` at end of file gives an empty body |
| Markdown.IndexOfKey | src/markdown.rs:215-245 | the first index holding the key, or the length when there is none |
| Markdown.HashGet | src/markdown.rs:215-245 | a value exactly when the key is present |
| Markdown.RemoveKey | src/markdown.rs:215-245 | the key is absent afterwards, no entry is added, and a mapping without the key is unchanged |
| Markdown.RemoveKeyMembers | src/markdown.rs:215-245 | exactly the entries under other keys are kept |
| Markdown.RemoveKeyAppend | src/markdown.rs:215-245 | removal works piece by piece, so kept entries stay in order |
| Markdown.RemoveKeyGet | src/markdown.rs:215-245 | removing a key leaves every other key's value unchanged |
| Markdown.HashGetAppend | src/markdown.rs:215-245 | a lookup finds an earlier entry first, else the appended one |
| Markdown.Insert | src/markdown.rs:215-245 | the key maps to the value, placed last after the other entries in their order |
| Markdown.ArrayMerged | src/markdown.rs:215-245 | a missing key is inserted with all values; a non-array value is untouched; an array keeps its key order, every other entry, and gains only new values |
| Markdown.MergeKeepsOtherKeys | src/markdown.rs:215-245 | every other front-matter key keeps its value through the merge |
| Markdown.NewItemsMembers | src/markdown.rs:219-228 | a value is appended iff it is given and absent from the original array |
| Markdown.NewItemsOfPresent | src/markdown.rs:219-228 | nothing is appended when every value is already present |
| Markdown.ArrayMergeIdempotent | src/markdown.rs:215-245 | merging the same paths twice changes nothing more |
| Markdown.MergeSample | src/markdown.rs:278-293 | merging `p1`, `p2` into `[p0]` appends both |
| Markdown.YamlHash.constructor | src/markdown.rs:176-198 | the mapping starts with the given entries |
| Markdown.YamlHash.ArrayMerge | src/markdown.rs:215-245 | the in-place loop leaves the mapping equal to `ArrayMerged` of the old one |
| Markdown.FinishYaml | src/markdown.rs:206-212 | the merged text ends in exactly one newline |
| Markdown.MergeYaml | src/markdown.rs:176-213 | the imperative merge computes `MergedYaml`: unmergeable front-matter comes back as it was, otherwise the emitted mapping with the paths merged in |
| Markdown.AssembleMarkdown | src/markdown.rs:151-174 | the accumulated string is the body alone when the YAML is empty or unchanged, otherwise `---\n` + yaml + `---\n` + body |
| Markdown.BodyIsSuffix | src/markdown.rs:151-174 | the body always ends the sidecar text |
| Markdown.BodyOnlyIffUnmergeable | src/markdown.rs:151-213 | for split front-matter, only the body is returned iff the front-matter cannot take the merge; otherwise it is framed with the merged YAML |
| Markdown.MergedNotFrontMatter | src/markdown.rs:161-167 | merged YAML, which ends in a newline, never equals split front-matter |
| Markdown.NoFrontMatterStaysUnchanged | src/markdown.rs:151-174 | when the front-matter is empty and loads as no document, the sidecar text is the input |
| Markdown.NewSidecar | src/markdown.rs:151-213 | a new sidecar is the original paths' YAML framed by `---` lines with an empty body |
| Markdown.AssembledTextKeepingOriginal | src/markdown.rs:161-167 | corrected assembly: the result is the original sidecar, the body, or the merged YAML framed over the body |
| Markdown.AssembleMarkdownKeepingOriginal | src/markdown.rs:151-174 | the accumulated string is the corrected assembly |
| Markdown.KeepingOriginalNeverDropsFrontMatter | src/markdown.rs:151-174 | with the correction, unmergeable front-matter leaves the sidecar as it was, and mergeable front-matter is rewritten around the body |
| Markdown.UnmergeableFrontMatterIsDropped | src/markdown.rs:161-167 | as written, `---\nfoo\n---\nbody` is rewritten as `body` alone; the correction keeps it whole |
| Markdown.SyncMarkdown | src/markdown.rs:42-66 | no desired path: Ok with nothing written; an unreadable sidecar: an error and nothing written; otherwise the assembled text at the desired path, from an empty body when no sidecar existed, unless on a dry run |
| MarkdownCmd.MfmFromMediaFileInfo | src/markdown_cmd.rs:36-59 | the front-matter holds the path, plus the EXIF dates and id when EXIF was parsed |
| MarkdownCmd.GenerateYaml | src/markdown_cmd.rs:160-179 | the pushed string is the fixed-order YAML text |
| MarkdownCmd.GeneratedYamlText | src/markdown_cmd.rs:160-179 | `photo-sorter:` then the `path`, `datetime`, `original-datetime` and `gps-date` lines in that order, each only when present |
| MarkdownCmd.ReadShownOfYamlLines | src/markdown_cmd.rs:160-179 | the YAML lines determine the shown fields: reading them back gives those fields |
| MarkdownCmd.YamlLinesPlain | src/markdown_cmd.rs:160-179 | without line breaks in the values, no YAML line breaks or is a `---` line |
| MarkdownCmd.SameYamlIffSameShown | src/markdown_cmd.rs:160-179 | two front-matters give the same YAML iff they show the same fields |
| MarkdownCmd.YamlStartsWithHeader | src/markdown_cmd.rs:162 | the YAML begins `photo-sorter:\n` |
| MarkdownCmd.YamlIgnoresHiddenFields | src/markdown_cmd.rs:169-174 | the unique id is never emitted, and `original-datetime` is omitted when it equals `datetime` |
| MarkdownCmd.CloseIndex | src/markdown_cmd.rs:208-214 | the first `---` line, or the end when there is none |
| MarkdownCmd.SplitFrontmatter | src/markdown_cmd.rs:199-232 | the line loops compute the split that `SplitLines` defines |
| MarkdownCmd.TakeFrontMatter | src/markdown_cmd.rs:205-220 | the front-matter loop collects the lines up to the closing `---` and leaves the rest for the body |
| MarkdownCmd.PushLines | src/markdown_cmd.rs:221-231 | the body loop appends each remaining line with `\n` |
| MarkdownCmd.SplitOpened | src/markdown_cmd.rs:205-231 | after an opening `---`, front-matter is the lines before the next `---` and the body the lines after it |
| MarkdownCmd.SplitWithoutOpening | src/markdown_cmd.rs:205-231 | without an opening `---` everything is body; empty input gives two empty strings |
| MarkdownCmd.SplitUnclosed | src/markdown_cmd.rs:208-214 | with no closing `---`, all lines are front-matter and the body is empty |
| MarkdownCmd.SplitReassembles | src/markdown_cmd.rs:199-244 | a closed split framed again with `---` lines gives back the line-normalised input |
| MarkdownCmd.AssembledFraming | src/markdown_cmd.rs:234-244 | the sidecar starts `---\nphoto-sorter:\n` and ends with the body |
| MarkdownCmd.AssembleMarkdown | src/markdown_cmd.rs:234-244 | the pushed string is `---\n` + YAML + `---\n` + body |
| MarkdownCmd.SplitOfAssembled | src/markdown_cmd.rs:199-244 | splitting an assembled sidecar gives back the generated YAML and the line-normalised body |
| MarkdownCmd.RoundTrip | src/markdown_cmd.rs:199-244 | for break-free values and body lines, the split of the assembly gives back the YAML and the body |
| MarkdownCmd.SplitKeepsBlankLine | src/markdown_cmd.rs:266-287 | a body starting with a blank line, such as `\nHello world`, comes back as `\nHello world\n` |
| MarkdownCmd.ParseYaml | src/markdown_cmd.rs:181-197 | an error exactly when the YAML does not load; a missing `photo-sorter` section gives the empty front-matter |
| MarkdownCmd.ParseFrontmatter | src/markdown_cmd.rs:151-155 | an error iff the split front-matter does not load; the body is the split body |
| MarkdownCmd.SyncMarkdown | src/markdown_cmd.rs:108-149 | an error exactly when the plan fails, with nothing written; otherwise the planned write, unless on a dry run |
| MarkdownCmd.SyncSkipsIffSameFields | src/markdown_cmd.rs:114-146 | an existing sidecar is left alone iff it shows the same fields; otherwise its body is kept under the new YAML |
| MarkdownCmd.SyncIsIdempotent | src/markdown_cmd.rs:114-146 | a second sync after a write plans no change |
| MarkdownCmd.NewSidecarHasEmptyBody | src/markdown_cmd.rs:114-146 | with no sidecar yet, the new YAML is written over an empty body |
| Albums.FirstColumns | src/album.rs:80-98 | no more files than records |
| Albums.FirstColumnsAppend | src/album.rs:80-98 | collecting distributes over appended records, so order is kept |
| Albums.FirstColumnsEmpty | src/album.rs:80-102 | nothing is collected iff every record is an error or empty |
| Albums.AlbumName | src/album.rs:103-118 | nothing iff the name is empty; otherwise a prefix ending before the last dot, or the whole name when that dot is at index 0 or absent |
| Albums.ParseCsv | src/album.rs:60-130 | an album iff the header is `imagename`, files were collected and the name is non-empty; it holds the path, derived name and first columns |
| Albums.FirstFree | src/album.rs:30-48 | the first unused candidate from index k, every earlier one used; nothing iff all up to 100 are used |
| Albums.DecisionFacts | src/album.rs:30-48 | a chosen name is unused; the album keeps its own name iff it is unused; it is dropped iff all 101 candidates are taken |
| Albums.TakenHas | src/album.rs:28-48 | every chosen name is recorded as used |
| Albums.Decisions | src/album.rs:24-52 | one decision per album |
| Albums.Renamed | src/album.rs:24-52 | no more albums come out than went in |
| Albums.DeDuplicateAlbums | src/album.rs:24-52 | the loops compute `DeDuplicated` of the input |
| Albums.PlaceAlbum | src/album.rs:30-48 | one album is appended with its chosen name and the name recorded, or dropped with nothing changed |
| Albums.DecisionsStep | src/album.rs:30-48 | each decision is made against the names used by the earlier albums |
| Albums.DecisionsPrefix | src/album.rs:30-48 | later albums never change earlier decisions |
| Albums.DecisionAt | src/album.rs:30-48 | the i-th decision is that for its name against the names taken before it |
| Albums.DecisionsDistinct | src/album.rs:28-39 | no two albums are given the same name |
| Albums.KeepsNameIffUnused | src/album.rs:32-41 | an album keeps its name iff no earlier album took it |
| Albums.GivenUpOnlyWhenAllTaken | src/album.rs:42-47 | an album is dropped only when all 101 candidates are taken |
| Albums.RenamedNames | src/album.rs:30-48 | every output name is one of the chosen names |
| Albums.DistinctSnoc | src/album.rs:28-39 | appending an album with an unused name keeps the names distinct |
| Albums.DeDuplicatedDistinct | src/album.rs:28-39 | output names are pairwise distinct |
| Albums.RenamedAligned | src/album.rs:33-37 | when no album is dropped, the output keeps the input order and each album's path and files, changing only names |
| Albums.CandidateSample | src/album.rs:41 | candidates grow cumulatively: `A-1`, then `A-1-2` |
| Albums.Occurrences | src/album.rs:133-148 | one entry per occurrence of the file, each the album name |
| Albums.AlbumsToFilesMap | src/album.rs:133-148 | the nested loops compute `FilesMap` |
| Albums.AddFileLookup | src/album.rs:136-145 | adding a file appends the name to its list only |
| Albums.AddFilesLookup | src/album.rs:136-145 | adding an album's files appends the name once per occurrence |
| Albums.FilesMapIsNamesFor | src/album.rs:133-148 | each file maps to the album names in album order, once per occurrence |
| Albums.ListedSnoc | src/album.rs:133-148 | a file is listed by albums plus one iff listed before or in the new album |
| Albums.NamesForNonEmpty | src/album.rs:133-148 | a file has album names iff some album lists it |
| Albums.FilesMapKeys | src/album.rs:133-148 | the keys are exactly the files in some album, each mapped to its album names |
| Albums.BuildAlbumMd | src/album.rs:150-159 | the accumulated string is `# name` then one `\n- [f](f)` per file |
| Albums.LinksSnoc | src/album.rs:154-156 | each file adds its link line after the earlier ones |
| Albums.AlbumMdLines | src/album.rs:150-159 | for newline-free names, the markdown's lines are the heading then one link line per file, in order |
| Albums.LinkLineNoNewline | src/album.rs:155 | a link line of a newline-free file has no newline |
| Albums.SplitLinks | src/album.rs:150-159 | the link lines split back into one line per file |

## Left out

- Filesystem and zip I/O, directory walking and the process plumbing are not
  modelled. Containers are a map from path to stored bytes, or to text for the
  output directory. UTF-8 encoding and the lossy decoding of sidecars are not
  modelled.
- Checksums (SHA-256 and base64url) are not modelled. The short checksum is an
  opaque string.
- Foreign parsers and emitters are function parameters, modelled only by what
  they return:
  - the magic-byte sniffer (the sniffed content type);
  - the YAML loader and emitter;
  - the serde YAML and JSON readers;
  - the CSV reader (pre-split rows);
  - the nom_exif reader (decoded entries and tags).
  For the same reason `parse_ascii_tag`, `exif_info` and `all_tags` in
  `src/exif.rs` are not part of this model.
- chrono is abstracted as the `Rfc3339` record, with a formatter and a parser
  that round-trip. The parser takes `T`, `t` or a space between date and time,
  as chrono does, but only four-digit years. Leap seconds, time zones other than the written
  offset, `dt_as_epoch_ms` and `d_as_epoch_ms` are not modelled. The
  epoch-millisecond formatter is a parameter.
- Exif.SubSecondTimeToMs: the f64 `log10` and `round` are modelled as an
  integer digit count and exact half-up rounding. This agrees with the values
  in the source's unit test (src/exif.rs:311-316). It differs from the f64
  result where the quotient is not exact in binary: 5005 gives 500 in f64 and
  501 here (36 such values below 2000000).
- Exif.ParseExifDatetime: the u32 wrap-around of `mm += 1` (src/exif.rs:206)
  is not modelled; minutes are unbounded. A minute field near 4294967295 with
  more than 60 seconds wraps in a release build, where the model gives nothing.
  A sub-second value of 9995 or more rounds to 1000 ms; at second 59 chrono
  accepts that as a leap second, where the model gives nothing.
- Rfc3339.Parse: the leap second 60 that chrono accepts is rejected, so
  Media.GetDesiredMediaPath files such a text as undated.
- Supplemental geo data (f64 latitude and longitude), track information and the
  GPS position inside `parse_exif_info` are not modelled. The GPS position is
  passed through as given.
- `to_lowercase` is modelled as ASCII lowercasing. The names are compared
  against ASCII words only.
- `detect_album` in `src/album.rs` is I/O glue and is not modelled. The
  `?`-free `anyhow::Result` wrappers of `generate_yaml`, `split_frontmatter` and
  `assemble_markdown` in `src/markdown_cmd.rs` never fail, so they are plain
  values.
- `save_markdown`, `file_exists` and `main` in `src/markdown_cmd.rs` are not
  modelled. They are async network and CLI code.
- Albums.PlaceAlbum: the attempt loop of `de_duplicate_albums` is a method of its
  own. It returns where the source breaks out of the loop.
- Markdown.SyncMarkdown: it writes the corrected assembly (see Findings). The
  as-written assembly is kept as `Markdown.AssembleMarkdown` with its lemmas.

Where the documentation and the code disagree, the model follows the code:

- `best_guess_taken_dt` consults the file's created time before its modified
  time.
- A date-only EXIF value is formatted at whole-second precision even when a
  sub-second value is given.

## Findings

| source | as written | input that shows it | evidently intended | confidence | as-written member | corrected member |
|---|---|---|---|---|---|---|
| src/markdown.rs:161-167 | when the merged YAML equals the existing front-matter, only the body is returned. This happens only when the front-matter does not load as a YAML mapping, so the front-matter is lost | an existing sidecar `---\nfoo\n---\nnotes` is rewritten as `notes` | the branch's own message says "returning original content": the existing sidecar should be kept whole | medium, not executed | Markdown.UnmergeableFrontMatterIsDropped | Markdown.KeepingOriginalNeverDropsFrontMatter |
| src/media_file.rs:57-65 | `take` creates an empty `Vec` and calls `read` into it, so zero bytes are read and the sniffer in `guess_file_format` (src/media_file.rs:136-152) always sees an empty buffer | a readable `photo.jpg` starting `FF D8 FF E0` is guessed Unsupported when the sniffer calls no bytes `application/octet-stream` | read up to `limit` bytes with `read_to_end` on the limited reader, as the zip reader's `take` does (src/zip_reader.rs:44-63), so the sniffer sees the file's leading bytes | high, not executed | MediaFile.JpegRejectedAsWritten | MediaFile.GuessUsesLeadingBytes |
