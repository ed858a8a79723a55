/**
  * The markdown sidecar written beside each archived media file: a YAML
  * front-matter block between `---` lines, followed by the user's notes. Syncing
  * merges the file's original paths into the existing front-matter and keeps the
  * notes.
  */
module Markdown {
  import opened Wrappers
  import opened Text
  import opened Container
  import opened Exif

  // ---------------------------------------------------------------------------
  // Front-matter of a media file

  /** What the sidecar records about a media file. */
  datatype PhotoSorterFrontMatter = PhotoSorterFrontMatter(
    path_original: seq<string>,
    datetime_original: Option<string>,
    datetime: Option<string>,
    gps_date: Option<string>,
    unique_id: Option<string>)

  /** The fields of a media file that the sidecar code reads. */
  datatype MarkdownMediaFile = MarkdownMediaFile(
    original_path: seq<string>,
    parsed_exif: Option<ParsedExif>,
    desired_markdown_path: Option<string>)

  /** The front-matter of a media file: its original paths and whatever dates and id its EXIF gave. */
  function MfmFromMediaFileInfo(m: MarkdownMediaFile): (fm: PhotoSorterFrontMatter)
    ensures fm.path_original == m.original_path
    ensures m.parsed_exif.None? ==> fm == PhotoSorterFrontMatter(m.original_path, None, None, None, None)
    ensures m.parsed_exif.Some? ==>
              && fm.datetime_original == m.parsed_exif.value.datetime_original
              && fm.datetime == m.parsed_exif.value.datetime
              && fm.gps_date == m.parsed_exif.value.gps_date
              && fm.unique_id == m.parsed_exif.value.unique_id
  {
    var mfm := PhotoSorterFrontMatter(m.original_path, None, None, None, None);
    match m.parsed_exif
    case None => mfm
    case Some(exif) =>
      mfm.(datetime_original := exif.datetime_original, datetime := exif.datetime,
           gps_date := exif.gps_date, unique_id := exif.unique_id)
  }

  // ---------------------------------------------------------------------------
  // Splitting a sidecar into front-matter and body

  const DELIMITER: string := "---"

  /**
    * The front-matter (between the opening `---` line and the next `---`) and the
    * body of a sidecar. Leading line breaks are skipped; every malformed case (no
    * opening `---` line, no closing `---`, blank front-matter) gives no front-matter
    * and the whole input as body. Front-matter loses its trailing line breaks.
    */
  function SplitFrontmatter(contents: string): (r: (string, string))
    ensures !StartsWith(TrimStart(contents, IsLineBreak), DELIMITER) ==> r == ("", contents)
    ensures r.0 == [] ==> r.1 == contents
    ensures CleanFrontMatter(r.0)
    ensures r.0 != [] ==> |r.1| < |contents|
  {
    var trimmed := TrimStart(contents, IsLineBreak);
    if !StartsWith(trimmed, DELIMITER) then ("", contents)
    else if !StartsWith(trimmed, "---\r\n") && !StartsWith(trimmed, "---\n") then ("", contents)
    else
      var lineEnding := if StartsWith(trimmed, "---\r\n") then "\r\n" else "\n";
      SplitClosing(contents, lineEnding, trimmed[3 + |lineEnding|..])
  }

  /**
    * The split once the opening `---` line is consumed: `after` is the rest of the
    * input and `lineEnding` the opening line's ending.
    */
  function SplitClosing(contents: string, lineEnding: string, after: string): (r: (string, string))
    requires |after| + 4 <= |contents| && 1 <= |lineEnding| <= 2
    ensures r.0 == [] ==> r.1 == contents
    ensures CleanFrontMatter(r.0)
    ensures r.0 != [] ==> |r.1| < |contents|
  {
    match Find(after, DELIMITER)
    case None => ("", contents)
    case Some(endPos) => SplitAtClosing(contents, lineEnding, after, endPos)
  }

  /** The split once the closing `---` is found at `endPos` of `after`. */
  function SplitAtClosing(contents: string, lineEnding: string, after: string, endPos: nat): (r: (string, string))
    requires |after| + 4 <= |contents| && 1 <= |lineEnding| <= 2
    requires Find(after, DELIMITER) == Some(endPos)
    ensures r.0 == [] ==> r.1 == contents
    ensures CleanFrontMatter(r.0)
    ensures r.0 != [] ==> |r.1| < |contents|
  {
    assert endPos + 3 <= |after|;
    var potential := after[..endPos];
    var afterEndDelim := after[endPos..];
    // The three closing forms below each first reject blank front-matter.
    if IsBlank(potential) then
      EmptyHasNoDelimiter();
      ("", contents)
    else
      var fm := TrimEnd(potential, IsLineBreak);
      FrontMatterFacts(after, endPos, fm);
      assert StartsWith(afterEndDelim, DELIMITER) by {
        assert afterEndDelim[..3] == after[endPos..endPos + 3];
      }
      (fm, ClosingBody(afterEndDelim, lineEnding))
  }

  lemma EmptyHasNoDelimiter()
    ensures CleanFrontMatter("")
  {
  }

  /**
    * The body after the closing delimiter `afterEndDelim` starts with: the rest after
    * a `---\r\n` or `---\n` line (that line ending alone when nothing follows), or
    * the opening line ending and the text right after `---` (nothing at end of input).
    */
  function ClosingBody(afterEndDelim: string, lineEnding: string): (body: string)
    requires StartsWith(afterEndDelim, DELIMITER) && 1 <= |lineEnding| <= 2
    ensures |body| < |afterEndDelim|
  {
    if StartsWith(afterEndDelim, "---\r\n") then
      var remaining := afterEndDelim[5..];
      if remaining == [] then "\r\n" else remaining
    else if StartsWith(afterEndDelim, "---\n") then
      var remaining := afterEndDelim[4..];
      if remaining == [] then "\n" else remaining
    else
      var afterClosing := afterEndDelim[3..];
      if afterClosing != [] then lineEnding + afterClosing else ""
  }

  /** Front-matter as a split returns it: no `---` in it and, unless empty, not blank and not ending in a line break. */
  predicate CleanFrontMatter(fm: string) {
    !Contains(fm, DELIMITER) && (fm != [] ==> !IsBlank(fm) && !IsLineBreak(fm[|fm| - 1]))
  }

  /** The text before the first `---`, without trailing line breaks, holds no `---` and is not blank. */
  lemma FrontMatterFacts(after: string, endPos: nat, fm: string)
    requires Find(after, DELIMITER) == Some(endPos) && !IsBlank(after[..endPos])
    requires fm == TrimEnd(after[..endPos], IsLineBreak)
    ensures fm != [] && CleanFrontMatter(fm)
  {
    var potential := after[..endPos];
    NoMatchInPrefix(after, DELIMITER, endPos, |fm|);
    assert fm == after[..|fm|];
    NotBlankAfterTrimEnd(potential);
  }

  lemma NoMatchInPrefix(s: string, pat: string, e: nat, k: nat)
    requires |pat| > 0 && k <= e <= |s|
    requires forall j: nat :: j < e ==> !OccursAt(s, pat, j)
    ensures !Contains(s[..k], pat)
  {
    forall i: nat | i <= k
      ensures !OccursAt(s[..k], pat, i)
    {
      if i + |pat| <= k {
        assert s[..k][i..i + |pat|] == s[i..i + |pat|];
        assert !OccursAt(s, pat, i);
      }
    }
  }

  lemma NotBlankAfterTrimEnd(p: string)
    requires !IsBlank(p)
    ensures !IsBlank(TrimEnd(p, IsLineBreak))
  {
    var j :| 0 <= j < |p| && !IsWhitespace(p[j]);
    LineBreakIsWhitespace(p[j]);
    var f := TrimEnd(p, IsLineBreak);
    assert j < |f| && f[j] == p[j];
  }

  lemma LineBreakIsWhitespace(c: char)
    ensures IsLineBreak(c) ==> IsWhitespace(c)
  {
  }

  lemma {:induction false} TrimLeadingLineBreaks(lead: string, s: string)
    requires forall j :: 0 <= j < |lead| ==> IsLineBreak(lead[j])
    requires s != [] && !IsLineBreak(s[0])
    ensures TrimStart(lead + s, IsLineBreak) == s
  {
    if lead == [] {
      assert lead + s == s;
    } else {
      assert (lead + s)[1..] == lead[1..] + s;
      TrimLeadingLineBreaks(lead[1..], s);
    }
  }

  /** When `fm` has no `---` and does not end in `-`, the first `---` after it is the one that follows it. */
  lemma NoEarlyDelimiter(fm: string, tail: string)
    requires !Contains(fm, DELIMITER) && (fm == [] || fm[|fm| - 1] != '-')
    ensures Find(fm + DELIMITER + tail, DELIMITER) == Some(|fm|)
  {
    var s := fm + DELIMITER + tail;
    forall j: nat | j < |fm|
      ensures !OccursAt(s, DELIMITER, j)
    {
      if j + 3 <= |fm| {
        assert s[j..j + 3] == fm[j..j + 3];
        assert !OccursAt(fm, DELIMITER, j);
      } else {
        assert s[j..j + 3][|fm| - 1 - j] == s[|fm| - 1] == fm[|fm| - 1];
      }
    }
    assert s[|fm|..|fm| + 3] == DELIMITER;
    assert OccursAt(s, DELIMITER, |fm|);
  }

  /**
    * The shape of a well-formed sidecar: after optional leading line breaks, an
    * opening `---` line, the front-matter text `fm`, and a closing `---` followed by
    * `\r\n`, `\n` or directly by text. A blank `fm` makes the whole input the body.
    * Otherwise the front-matter is `fm` without trailing line breaks and the body is
    * what follows the closing line (that line ending alone when nothing follows),
    * or, for a closing `---` followed directly by text, the opening line ending and
    * that text (nothing at end of input).
    */
  lemma SplitDelimited(lead: string, le: string, fm: string, close: string, rest: string)
    requires forall j :: 0 <= j < |lead| ==> IsLineBreak(lead[j])
    requires le == "\n" || le == "\r\n"
    requires !Contains(fm, DELIMITER) && (fm == [] || fm[|fm| - 1] != '-')
    requires close == "\r\n" || close == "\n" || (close == [] && !StartsWith(rest, "\n") && !StartsWith(rest, "\r\n"))
    ensures var contents := lead + DELIMITER + le + (fm + DELIMITER + close + rest);
            SplitFrontmatter(contents)
            == if IsBlank(fm) then ("", contents)
               else (TrimEnd(fm, IsLineBreak),
                     if close != [] then (if rest == [] then close else rest)
                     else if rest == [] then "" else le + rest)
  {
    var after := fm + DELIMITER + close + rest;
    SplitOpening(lead, le, after);
    SplitClosingShape(lead + DELIMITER + le + after, le, fm, close, rest);
  }

  /** After leading line breaks and an opening `---` line, the split is decided by what follows. */
  lemma SplitOpening(lead: string, le: string, after: string)
    requires forall j :: 0 <= j < |lead| ==> IsLineBreak(lead[j])
    requires le == "\n" || le == "\r\n"
    ensures SplitFrontmatter(lead + DELIMITER + le + after)
            == SplitClosing(lead + DELIMITER + le + after, le, after)
  {
    var trimmed := DELIMITER + le + after;
    assert lead + DELIMITER + le + after == lead + trimmed;
    assert trimmed[0] == '-';
    TrimLeadingLineBreaks(lead, trimmed);
    OpeningLine(le, after);
  }

  /** An opening `---` line ending in `le`: its ending is recognised and `after` follows it. */
  lemma OpeningLine(le: string, after: string)
    requires le == "\n" || le == "\r\n"
    ensures var t := DELIMITER + le + after;
            StartsWith(t, DELIMITER) && (StartsWith(t, "---\r\n") <==> le == "\r\n")
            && (le == "\n" ==> StartsWith(t, "---\n")) && t[3 + |le|..] == after
  {
    var t := DELIMITER + le + after;
    assert t == DELIMITER + (le + after);
    assert t[..3] == DELIMITER;
    StartsWithShared(DELIMITER, le + after, "\r\n");
    StartsWithShared(DELIMITER, le + after, "\n");
    assert DELIMITER + "\r\n" == "---\r\n" && DELIMITER + "\n" == "---\n";
    if le == "\n" {
      assert (le + after)[0] == '\n';
      assert StartsWith(le + after, "\n");
    } else {
      assert (le + after)[..2] == "\r\n";
    }
    assert t[3 + |le|..] == after;
  }

  /** `StartsWith` of a shared prefix is decided by what follows it. */
  lemma StartsWithShared(p: string, x: string, q: string)
    ensures StartsWith(p + x, p + q) <==> StartsWith(x, q)
  {
    if |q| <= |x| {
      assert (p + x)[..|p + q|] == p + x[..|q|];
      assert (p + x[..|q|])[|p|..] == x[..|q|];
      assert (p + q)[|p|..] == q;
    }
  }

  /** The closing `---` right after `fm`, followed by `close` and `rest`. */
  lemma SplitClosingShape(contents: string, le: string, fm: string, close: string, rest: string)
    requires le == "\n" || le == "\r\n"
    requires |fm + DELIMITER + close + rest| + 4 <= |contents|
    requires !Contains(fm, DELIMITER) && (fm == [] || fm[|fm| - 1] != '-')
    requires close == "\r\n" || close == "\n" || (close == [] && !StartsWith(rest, "\n") && !StartsWith(rest, "\r\n"))
    ensures SplitClosing(contents, le, fm + DELIMITER + close + rest)
            == if IsBlank(fm) then ("", contents)
               else (TrimEnd(fm, IsLineBreak),
                     if close != [] then (if rest == [] then close else rest)
                     else if rest == [] then "" else le + rest)
  {
    var tail := close + rest;
    var after := fm + DELIMITER + close + rest;
    Assoc3(fm + DELIMITER, close, rest);
    FoundAfterFrontMatter(fm, tail);
    SplitAtFound(contents, le, after, |fm|, fm, DELIMITER + tail);
    ClosingBodyShape(le, close, rest);
  }

  /** The first `---` after delimiter-free `fm` is the one right after it. */
  lemma FoundAfterFrontMatter(fm: string, tail: string)
    requires !Contains(fm, DELIMITER) && (fm == [] || fm[|fm| - 1] != '-')
    ensures var after := fm + DELIMITER + tail;
            Find(after, DELIMITER) == Some(|fm|) && after[..|fm|] == fm && after[|fm|..] == DELIMITER + tail
  {
    NoEarlyDelimiter(fm, tail);
    assert fm + DELIMITER + tail == fm + (DELIMITER + tail);
  }

  /** The split when the closing `---` is found at `endPos`, with `fm` before it and `ade` from it on. */
  lemma SplitAtFound(contents: string, le: string, after: string, endPos: nat, fm: string, ade: string)
    requires |after| + 4 <= |contents| && 1 <= |le| <= 2
    requires Find(after, DELIMITER) == Some(endPos) && endPos <= |after|
    requires after[..endPos] == fm && after[endPos..] == ade
    ensures StartsWith(ade, DELIMITER)
    ensures SplitClosing(contents, le, after)
            == if IsBlank(fm) then ("", contents) else (TrimEnd(fm, IsLineBreak), ClosingBody(ade, le))
  {
    assert ade[..3] == after[endPos..endPos + 3];
  }

  lemma ClosingBodyShape(le: string, close: string, rest: string)
    requires le == "\n" || le == "\r\n"
    requires close == "\r\n" || close == "\n" || (close == [] && !StartsWith(rest, "\n") && !StartsWith(rest, "\r\n"))
    ensures StartsWith(DELIMITER + (close + rest), DELIMITER)
    ensures ClosingBody(DELIMITER + (close + rest), le)
            == if close != [] then (if rest == [] then close else rest)
               else if rest == [] then "" else le + rest
  {
    var afterEnd := DELIMITER + (close + rest);
    assert afterEnd[..3] == DELIMITER;
    StartsWithShared(DELIMITER, close + rest, "\r\n");
    StartsWithShared(DELIMITER, close + rest, "\n");
    assert DELIMITER + "\r\n" == "---\r\n" && DELIMITER + "\n" == "---\n";
    if close == "\r\n" {
      assert StartsWith(close + rest, "\r\n");
      assert afterEnd[5..] == rest;
    } else if close == "\n" {
      assert !StartsWith(close + rest, "\r\n") by {
        if |close + rest| >= 2 {
          assert (close + rest)[..2][0] == '\n';
        }
      }
      assert StartsWith(close + rest, "\n");
      assert afterEnd[4..] == rest;
    } else {
      assert close + rest == rest;
      assert afterEnd[3..] == rest;
    }
  }

  /**
    * The source's tests with nothing valid after the opening delimiter, and more
    * generally an opening `---` line, after any leading line breaks, with nothing
    * after it: the input is all body.
    */
  lemma SplitOpeningLineOnly(lead: string, le: string)
    requires forall j :: 0 <= j < |lead| ==> IsLineBreak(lead[j])
    requires le == "\n" || le == "\r\n"
    ensures SplitFrontmatter("") == ("", "")
    ensures SplitFrontmatter(lead + DELIMITER + le) == ("", lead + DELIMITER + le)
  {
    var t := lead + DELIMITER + le;
    assert t == lead + DELIMITER + le + [];
    SplitOpening(lead, le, []);
    assert !Contains([], DELIMITER);
  }

  /** The source's test `---\ntitle: dummy_title---\ndummy_body`, with leading line breaks of either kind. */
  lemma SplitTitleSample(lead: string, le: string)
    requires lead == "" || lead == "\n\n\n" || lead == "\r\n\r\n\r\n"
    requires le == "\n" || le == "\r\n"
    ensures SplitFrontmatter(lead + "---" + le + "title: dummy_title---" + le + "dummy_body")
            == ("title: dummy_title", "dummy_body")
  {
    var fm := "title: dummy_title";
    NoDashes(fm);
    assert !IsWhitespace(fm[0]);
    assert lead + "---" + le + "title: dummy_title---" + le + "dummy_body"
           == lead + DELIMITER + le + (fm + DELIMITER + le + "dummy_body");
    assert forall j :: 0 <= j < |lead| ==> IsLineBreak(lead[j]);
    assert TrimEnd(fm, IsLineBreak) == fm;
    SplitDelimited(lead, le, fm, le, "dummy_body");
  }

  lemma NoDashes(s: string)
    requires forall j :: 0 <= j < |s| ==> s[j] != '-'
    ensures !Contains(s, DELIMITER)
  {
    forall i: nat | i <= |s|
      ensures !OccursAt(s, DELIMITER, i)
    {
      if i + 3 <= |s| {
        assert s[i..i + 3][0] == s[i];
      }
    }
  }

  // ---------------------------------------------------------------------------
  // YAML, as loaded by the YAML library

  /** A YAML node; a mapping keeps its entries in insertion order. */
  datatype Yaml = Str(s: string) | Arr(items: seq<Yaml>) | Hash(entries: seq<(Yaml, Yaml)>) | BadValue | Scalar(text: string)

  /** The position of key `k` in a mapping, or its length when absent. */
  function IndexOfKey(entries: seq<(Yaml, Yaml)>, k: Yaml): (i: nat)
    ensures i <= |entries|
    ensures i < |entries| ==> entries[i].0 == k
    ensures forall j :: 0 <= j < i ==> entries[j].0 != k
  {
    if entries == [] then 0
    else if entries[0].0 == k then 0
    else 1 + IndexOfKey(entries[1..], k)
  }

  /** The value under key `k`. */
  function HashGet(entries: seq<(Yaml, Yaml)>, k: Yaml): (r: Option<Yaml>)
    ensures r.Some? <==> exists j :: 0 <= j < |entries| && entries[j].0 == k
  {
    var i := IndexOfKey(entries, k);
    if i < |entries| then Some(entries[i].1) else None
  }

  /** The mapping without key `k`: exactly the other entries are kept (in order, by `RemoveKeyAppend`). */
  function RemoveKey(entries: seq<(Yaml, Yaml)>, k: Yaml): (r: seq<(Yaml, Yaml)>)
    ensures forall j :: 0 <= j < |r| ==> r[j].0 != k
    ensures |r| <= |entries|
    ensures (forall j :: 0 <= j < |entries| ==> entries[j].0 != k) ==> r == entries
  {
    if entries == [] then []
    else
      var rest := RemoveKey(entries[1..], k);
      if entries[0].0 == k then rest
      else
        assert entries == [entries[0]] + entries[1..];
        [entries[0]] + rest
  }

  /** Exactly the entries under other keys are kept. */
  lemma {:induction false} RemoveKeyMembers(entries: seq<(Yaml, Yaml)>, k: Yaml)
    ensures forall e :: e in RemoveKey(entries, k) <==> e in entries && e.0 != k
  {
    if entries != [] {
      RemoveKeyMembers(entries[1..], k);
      RemoveKeyCons(entries, k);
      assert forall e :: e in entries <==> e == entries[0] || e in entries[1..];
    }
  }

  /** Removing a key works piece by piece, so the kept entries stay in their order. */
  lemma {:induction false} RemoveKeyAppend(a: seq<(Yaml, Yaml)>, b: seq<(Yaml, Yaml)>, k: Yaml)
    ensures RemoveKey(a + b, k) == RemoveKey(a, k) + RemoveKey(b, k)
  {
    if a == [] {
      assert a + b == b;
    } else {
      var head: seq<(Yaml, Yaml)> := if a[0].0 == k then [] else [a[0]];
      RemoveKeyAppend(a[1..], b, k);
      assert (a + b)[0] == a[0];
      assert (a + b)[1..] == a[1..] + b;
      RemoveKeyCons(a + b, k);
      RemoveKeyCons(a, k);
      Assoc3(head, RemoveKey(a[1..], k), RemoveKey(b, k));
    }
  }

  lemma RemoveKeyCons(entries: seq<(Yaml, Yaml)>, k: Yaml)
    requires entries != []
    ensures RemoveKey(entries, k) == (if entries[0].0 == k then [] else [entries[0]]) + RemoveKey(entries[1..], k)
  {
    if entries[0].0 == k {
      assert [] + RemoveKey(entries[1..], k) == RemoveKey(entries[1..], k);
    }
  }

  /** A lookup inspects the first entry, then the rest. */
  lemma HashGetCons(entries: seq<(Yaml, Yaml)>, k: Yaml)
    requires entries != []
    ensures HashGet(entries, k) == if entries[0].0 == k then Some(entries[0].1) else HashGet(entries[1..], k)
  {
  }

  /** A lookup in a mapping with one more entry at the end. */
  lemma {:induction false} HashGetAppend(entries: seq<(Yaml, Yaml)>, e: (Yaml, Yaml), k: Yaml)
    ensures HashGet(entries + [e], k)
            == if HashGet(entries, k).Some? then HashGet(entries, k) else if e.0 == k then Some(e.1) else None
  {
    if entries == [] {
      assert entries + [e] == [e];
      HashGetCons([e], k);
    } else {
      HashGetCons(entries, k);
      HashGetCons(entries + [e], k);
      assert (entries + [e])[1..] == entries[1..] + [e];
      HashGetAppend(entries[1..], e, k);
    }
  }

  /** Removing one key leaves every other key's value as it was. */
  lemma {:induction false} RemoveKeyGet(entries: seq<(Yaml, Yaml)>, k: Yaml, other: Yaml)
    requires other != k
    ensures HashGet(RemoveKey(entries, k), other) == HashGet(entries, other)
  {
    if entries != [] {
      HashGetCons(entries, other);
      RemoveKeyGet(entries[1..], k, other);
      var rest := RemoveKey(entries[1..], k);
      if entries[0].0 != k {
        assert RemoveKey(entries, k) == [entries[0]] + rest;
        HashGetCons([entries[0]] + rest, other);
        assert ([entries[0]] + rest)[1..] == rest;
      }
    }
  }

  /** Two mappings with the same keys in the same places find a key at the same place. */
  lemma SameKeysSameIndex(a: seq<(Yaml, Yaml)>, b: seq<(Yaml, Yaml)>, k: Yaml)
    requires |a| == |b| && forall j :: 0 <= j < |a| ==> a[j].0 == b[j].0
    ensures IndexOfKey(a, k) == IndexOfKey(b, k)
  {
    if a != [] {
      SameKeysSameIndex(a[1..], b[1..], k);
    }
  }

  /** Inserting a key puts it last, with the new value, and drops any earlier entry for it. */
  function Insert(entries: seq<(Yaml, Yaml)>, k: Yaml, v: Yaml): (r: seq<(Yaml, Yaml)>)
    ensures HashGet(r, k) == Some(v)
    ensures r[|r| - 1] == (k, v)
    ensures r == RemoveKey(entries, k) + [(k, v)]
  {
    var removed := RemoveKey(entries, k);
    assert forall j :: 0 <= j < |removed| ==> (removed + [(k, v)])[j] == removed[j];
    assert (removed + [(k, v)])[|removed|] == (k, v);
    removed + [(k, v)]
  }

  /** The items of `arr` that `po` does not hold, in order, as YAML strings. */
  function NewItems(po: seq<Yaml>, arr: seq<string>): seq<Yaml>
  {
    if arr == [] then []
    else NewItems(po, arr[..|arr| - 1]) + (if Str(arr[|arr| - 1]) in po then [] else [Str(arr[|arr| - 1])])
  }

  function Strs(arr: seq<string>): (r: seq<Yaml>)
    ensures |r| == |arr| && forall j :: 0 <= j < |arr| ==> r[j] == Str(arr[j])
  {
    seq(|arr|, j requires 0 <= j < |arr| => Str(arr[j]))
  }

  /**
    * The mapping after merging `arr` into the array under `key`: an array gains, at
    * its end and in order, the values the original array lacks, and keeps its place
    * in the mapping; a value that is neither an array nor bad is left alone; a
    * missing (or bad) key is inserted last holding all the values.
    */
  function ArrayMerged(entries: seq<(Yaml, Yaml)>, key: string, arr: seq<string>): (r: seq<(Yaml, Yaml)>)
    ensures HashGet(entries, Str(key)).None? ==> r == RemoveKey(entries, Str(key)) + [(Str(key), Arr(Strs(arr)))]
    ensures (HashGet(entries, Str(key)).Some? && !HashGet(entries, Str(key)).value.Arr?
             && !HashGet(entries, Str(key)).value.BadValue?) ==> r == entries
    ensures HashGet(entries, Str(key)).Some? && HashGet(entries, Str(key)).value.Arr? ==>
              && |r| == |entries|
              && (forall j :: 0 <= j < |r| ==> r[j].0 == entries[j].0)
              && (forall j :: 0 <= j < |r| && j != IndexOfKey(entries, Str(key)) ==> r[j] == entries[j])
              && HashGet(r, Str(key)) == Some(Arr(HashGet(entries, Str(key)).value.items
                                                  + NewItems(HashGet(entries, Str(key)).value.items, arr)))
  {
    var i := IndexOfKey(entries, Str(key));
    if i < |entries| && entries[i].1.Arr? then
      var r := entries[i := (Str(key), Arr(entries[i].1.items + NewItems(entries[i].1.items, arr)))];
      assert IndexOfKey(r, Str(key)) == i by {
        var k := IndexOfKey(r, Str(key));
        assert forall j :: 0 <= j < |r| ==> r[j].0 == entries[j].0;
      }
      r
    else if i < |entries| && !entries[i].1.BadValue? then entries
    else Insert(entries, Str(key), Arr(Strs(arr)))
  }

  /** Merging the original paths leaves the value under every other key as it was. */
  lemma MergeKeepsOtherKeys(entries: seq<(Yaml, Yaml)>, key: string, arr: seq<string>, other: Yaml)
    requires other != Str(key)
    ensures HashGet(ArrayMerged(entries, key, arr), other) == HashGet(entries, other)
  {
    var r := ArrayMerged(entries, key, arr);
    var i := IndexOfKey(entries, Str(key));
    if i < |entries| && entries[i].1.Arr? {
      SameKeysSameIndex(r, entries, other);
      var m := IndexOfKey(entries, other);
      if m < |entries| {
        assert m != i;
        assert r[m] == entries[m];
      }
    } else if i < |entries| && !entries[i].1.BadValue? {
    } else {
      var v := Arr(Strs(arr));
      assert r == RemoveKey(entries, Str(key)) + [(Str(key), v)];
      HashGetAppend(RemoveKey(entries, Str(key)), (Str(key), v), other);
      RemoveKeyGet(entries, Str(key), other);
    }
  }

  /** A value is new exactly when `arr` holds it and the original array does not. */
  lemma {:induction false} NewItemsMembers(po: seq<Yaml>, arr: seq<string>, y: Yaml)
    ensures y in NewItems(po, arr) <==> y !in po && exists j :: 0 <= j < |arr| && y == Str(arr[j])
  {
    if arr != [] {
      var init := arr[..|arr| - 1];
      NewItemsMembers(po, init, y);
      if exists j :: 0 <= j < |init| && y == Str(init[j]) {
        var j :| 0 <= j < |init| && y == Str(init[j]);
        assert arr[j] == init[j];
      }
      if exists j :: 0 <= j < |arr| && y == Str(arr[j]) {
        var j :| 0 <= j < |arr| && y == Str(arr[j]);
        if j < |init| {
          assert init[j] == arr[j];
        }
      }
    }
  }

  /** Values already in the array add nothing. */
  lemma {:induction false} NewItemsOfPresent(po: seq<Yaml>, arr: seq<string>)
    requires forall j :: 0 <= j < |arr| ==> Str(arr[j]) in po
    ensures NewItems(po, arr) == []
  {
    if arr != [] {
      NewItemsOfPresent(po, arr[..|arr| - 1]);
    }
  }

  /** Merging the same paths a second time changes nothing: a re-sync never duplicates a path. */
  lemma ArrayMergeIdempotent(entries: seq<(Yaml, Yaml)>, key: string, arr: seq<string>)
    ensures ArrayMerged(ArrayMerged(entries, key, arr), key, arr) == ArrayMerged(entries, key, arr)
  {
    var once := ArrayMerged(entries, key, arr);
    var i := IndexOfKey(entries, Str(key));
    if i < |entries| && entries[i].1.Arr? {
      var po := entries[i].1.items;
      var merged := po + NewItems(po, arr);
      forall j | 0 <= j < |arr|
        ensures Str(arr[j]) in merged
      {
        NewItemsMembers(po, arr, Str(arr[j]));
      }
      NewItemsOfPresent(merged, arr);
      assert merged + [] == merged;
      assert once[IndexOfKey(once, Str(key))] == (Str(key), Arr(merged));
    } else if i < |entries| && !entries[i].1.BadValue? {
    } else {
      var all := Strs(arr);
      forall j | 0 <= j < |arr|
        ensures Str(arr[j]) in all
      {
        assert all[j] == Str(arr[j]);
      }
      NewItemsOfPresent(all, arr);
      assert all + [] == all;
      assert once[IndexOfKey(once, Str(key))] == (Str(key), Arr(all));
    }
  }

  /** The source's test: `p1` and `p2` are added after the existing `p0`. */
  lemma MergeSample()
    ensures NewItems([Str("p0")], ["p1", "p2"]) == [Str("p1"), Str("p2")]
  {
    assert ["p1", "p2"][..1] == ["p1"];
    assert NewItems([Str("p0")], ["p1"]) == [Str("p1")];
  }

  /** A YAML mapping updated in place. */
  class YamlHash {
    var entries: seq<(Yaml, Yaml)>

    constructor(entries: seq<(Yaml, Yaml)>)
      ensures this.entries == entries
    {
      this.entries := entries;
    }

    /** Merges `arr` into the array under `key` (`yaml_array_merge`). */
    method ArrayMerge(key: string, arr: seq<string>)
      modifies this
      ensures entries == ArrayMerged(old(entries), key, arr)
    {
      var found := HashGet(entries, Str(key));
      if found.Some? {
        match found.value
        case Arr(po) =>
          var newPo := po;
          var i := 0;
          while i < |arr|
            invariant 0 <= i <= |arr|
            invariant newPo == po + NewItems(po, arr[..i])
          {
            assert arr[..i + 1][..i] == arr[..i];
            if Str(arr[i]) !in po {
              newPo := newPo + [Str(arr[i])];
            }
            i := i + 1;
          }
          assert arr[..i] == arr;
          var k := IndexOfKey(entries, Str(key));
          entries := entries[k := (Str(key), Arr(newPo))];
          return;
        case BadValue =>
        case _ =>
          return;
      }
      var arrY := seq(|arr|, j requires 0 <= j < |arr| => Str(arr[j]));
      entries := Insert(entries, Str(key), Arr(arrY));
    }
  }

  // ---------------------------------------------------------------------------
  // Merging and assembling

  const ORIGINAL_PATHS: string := "original-paths"

  predicate IsNewline(c: char) { c == '\n' }

  /** The emitted YAML without its document marker and outer newlines, ending in one newline. */
  function FinishYaml(out: string): (r: string)
    ensures |r| >= 1 && r[|r| - 1] == '\n'
    ensures r[..|r| - 1] == [] || r[|r| - 2] != '\n'
  {
    TrimEnd(TrimStart(TrimStartPattern(out, DELIMITER), IsNewline), IsNewline) + "\n"
  }

  /**
    * The mapping of an existing front-matter text, when it can take the merge: it
    * loads, has a first document, and that document is a mapping. A new sidecar
    * starts from the empty mapping.
    */
  function MergeRoot(existing: Option<string>, load: string -> Option<seq<Yaml>>): Option<seq<(Yaml, Yaml)>>
  {
    match existing
    case None => Some([])
    case Some(s) =>
      match load(s)
      case None => None
      case Some(docs) => if docs != [] && docs[0].Hash? then Some(docs[0].entries) else None
  }

  /**
    * The merged front-matter text. `load` and `emit` stand for the YAML library's
    * loader (nothing on a parse error) and emitter. Existing front-matter that cannot
    * take the merge comes back unchanged; otherwise the result is the emitted mapping
    * with the original paths merged in, and ends in exactly one newline.
    */
  function MergedYaml(existing: Option<string>, fm: PhotoSorterFrontMatter,
                      load: string -> Option<seq<Yaml>>, emit: Yaml -> string): string
  {
    match MergeRoot(existing, load)
    case None => existing.value
    case Some(root) => FinishYaml(emit(Hash(ArrayMerged(root, ORIGINAL_PATHS, fm.path_original))))
  }

  /** `merge_yaml`: the merged front-matter text, built on a mapping updated in place. */
  method MergeYaml(existing: Option<string>, fm: PhotoSorterFrontMatter,
                   load: string -> Option<seq<Yaml>>, emit: Yaml -> string) returns (out: string)
    ensures out == MergedYaml(existing, fm, load, emit)
  {
    var root: YamlHash;
    if existing.Some? {
      var docs := load(existing.value);
      if docs.None? {
        return existing.value;
      }
      if docs.value == [] {
        return existing.value;
      }
      if !docs.value[0].Hash? {
        return existing.value;
      }
      root := new YamlHash(docs.value[0].entries);
    } else {
      root := new YamlHash([]);
    }
    root.ArrayMerge(ORIGINAL_PATHS, fm.path_original);
    out := emit(Hash(root.entries));
    out := TrimStartPattern(out, DELIMITER);
    out := TrimStart(out, IsNewline);
    out := TrimEnd(out, IsNewline);
    out := out + "\n";
  }

  /**
    * The sidecar text: only the body when the merged YAML is empty or equals the
    * existing front-matter; otherwise the merged YAML between `---` lines, then the body.
    */
  function AssembledText(mfm: PhotoSorterFrontMatter, existing: Option<string>, content: string,
                         load: string -> Option<seq<Yaml>>, emit: Yaml -> string): (r: string)
  {
    var newYaml := MergedYaml(existing, mfm, load, emit);
    if newYaml == [] then content
    else if existing.Some? && newYaml == existing.value then content
    else "---\n" + newYaml + "---\n" + content
  }

  /** Both assemblies in terms of the merged YAML `y`. */
  lemma AssembledOfMerged(mfm: PhotoSorterFrontMatter, existing: Option<string>, content: string, original: string,
                          load: string -> Option<seq<Yaml>>, emit: Yaml -> string, y: string)
    requires y == MergedYaml(existing, mfm, load, emit)
    ensures AssembledText(mfm, existing, content, load, emit)
            == if y == [] || (existing.Some? && y == existing.value) then content else "---\n" + y + "---\n" + content
    ensures AssembledTextKeepingOriginal(mfm, existing, content, original, load, emit)
            == if y == [] then content else if existing.Some? && y == existing.value then original
               else "---\n" + y + "---\n" + content
  {
  }

  /** `assemble_markdown`: the sidecar text, accumulated piece by piece. */
  method AssembleMarkdown(mfm: PhotoSorterFrontMatter, existing: Option<string>, content: string,
                          load: string -> Option<seq<Yaml>>, emit: Yaml -> string) returns (r: Result<string>)
    ensures r == Ok(AssembledText(mfm, existing, content, load, emit))
  {
    var newYaml := MergeYaml(existing, mfm, load, emit);
    AssembledOfMerged(mfm, existing, content, content, load, emit, newYaml);
    if newYaml == [] || (existing.Some? && newYaml == existing.value) {
      r := Ok(content);
    } else {
      var s := "";
      EmptyConcat("---\n");
      s := s + "---\n";
      s := s + newYaml;
      s := s + "---\n";
      s := s + content;
      r := Ok(s);
    }
  }

  /** The body always ends the sidecar text. */
  lemma BodyIsSuffix(mfm: PhotoSorterFrontMatter, existing: Option<string>, content: string,
                     load: string -> Option<seq<Yaml>>, emit: Yaml -> string)
    ensures EndsWith(AssembledText(mfm, existing, content, load, emit), content)
  {
    var r := AssembledText(mfm, existing, content, load, emit);
    assert r[|r| - |content|..] == content;
  }

  /**
    * For non-empty front-matter `fm` as a split returns it, and any body, the text
    * comes back as the body alone exactly when `fm` cannot take the merge; otherwise
    * it is rewritten with the merged front-matter.
    */
  lemma BodyOnlyIffUnmergeable(fm: string, body: string, mfm: PhotoSorterFrontMatter,
                               load: string -> Option<seq<Yaml>>, emit: Yaml -> string)
    requires fm != [] && CleanFrontMatter(fm)
    ensures AssembledText(mfm, Some(fm), body, load, emit) == body <==> MergeRoot(Some(fm), load).None?
    ensures MergeRoot(Some(fm), load).Some? ==>
              AssembledText(mfm, Some(fm), body, load, emit) == "---\n" + MergedYaml(Some(fm), mfm, load, emit) + "---\n" + body
  {
    var y := MergedYaml(Some(fm), mfm, load, emit);
    if MergeRoot(Some(fm), load).Some? {
      MergedNotFrontMatter(y, fm);
      assert |"---\n" + y + "---\n" + body| > |body|;
    }
  }

  /** Merged YAML, which ends in a newline, is never front-matter as a split returns it. */
  lemma MergedNotFrontMatter(y: string, fm: string)
    requires |y| >= 1 && y[|y| - 1] == '\n' && CleanFrontMatter(fm)
    ensures y != fm
  {
    assert |y| != |fm| || y[|y| - 1] != fm[|fm| - 1];
  }

  /**
    * A sidecar without front-matter is written back unchanged when the YAML loader
    * finds no document in empty text: it never gains a front-matter block.
    */
  lemma NoFrontMatterStaysUnchanged(t: string, mfm: PhotoSorterFrontMatter,
                                    load: string -> Option<seq<Yaml>>, emit: Yaml -> string)
    requires load("") == Some([])
    requires SplitFrontmatter(t).0 == []
    ensures AssembledText(mfm, Some(SplitFrontmatter(t).0), SplitFrontmatter(t).1, load, emit) == t
  {
  }

  /** Merging into the empty mapping gives the one entry holding all the paths. */
  lemma EmptyMerge(arr: seq<string>)
    ensures ArrayMerged([], ORIGINAL_PATHS, arr) == [(Str(ORIGINAL_PATHS), Arr(Strs(arr)))]
  {
    assert IndexOfKey([], Str(ORIGINAL_PATHS)) == 0;
    assert RemoveKey([], Str(ORIGINAL_PATHS)) == [];
  }

  /** A new sidecar is the merged YAML of the paths alone, between `---` lines, with an empty body. */
  lemma NewSidecar(mfm: PhotoSorterFrontMatter, load: string -> Option<seq<Yaml>>, emit: Yaml -> string)
    ensures AssembledText(mfm, None, "", load, emit)
            == "---\n" + FinishYaml(emit(Hash([(Str(ORIGINAL_PATHS), Arr(Strs(mfm.path_original)))]))) + "---\n"
  {
    var merged := [(Str(ORIGINAL_PATHS), Arr(Strs(mfm.path_original)))];
    assert ArrayMerged([], ORIGINAL_PATHS, mfm.path_original) == merged by {
      EmptyMerge(mfm.path_original);
    }
    var y := FinishYaml(emit(Hash(merged)));
    assert MergedYaml(None, mfm, load, emit) == y;
    AssembledOfMerged(mfm, None, "", "", load, emit, y);
    assert "---\n" + y + "---\n" + "" == "---\n" + y + "---\n";
  }

  // ---------------------------------------------------------------------------
  // Keeping unmergeable front-matter

  /**
    * The sidecar text as the "returning original content" branch intends: when the
    * merged YAML is the existing front-matter, the existing sidecar `original` is
    * kept whole.
    */
  function AssembledTextKeepingOriginal(mfm: PhotoSorterFrontMatter, existing: Option<string>, content: string,
                                        original: string,
                                        load: string -> Option<seq<Yaml>>, emit: Yaml -> string): (r: string)
    ensures r == original || r == content || r == "---\n" + MergedYaml(existing, mfm, load, emit) + "---\n" + content
  {
    var newYaml := MergedYaml(existing, mfm, load, emit);
    if newYaml == [] then content
    else if existing.Some? && newYaml == existing.value then original
    else "---\n" + newYaml + "---\n" + content
  }

  /**
    * The corrected `assemble_markdown`, which the sync uses: when the merged YAML is
    * the existing front-matter, the existing sidecar text `original` is returned whole.
    */
  method AssembleMarkdownKeepingOriginal(mfm: PhotoSorterFrontMatter, existing: Option<string>, content: string,
                                         original: string,
                                         load: string -> Option<seq<Yaml>>, emit: Yaml -> string)
    returns (r: Result<string>)
    ensures r == Ok(AssembledTextKeepingOriginal(mfm, existing, content, original, load, emit))
  {
    var newYaml := MergeYaml(existing, mfm, load, emit);
    AssembledOfMerged(mfm, existing, content, original, load, emit, newYaml);
    if newYaml == [] {
      r := Ok(content);
    } else if existing.Some? && newYaml == existing.value {
      r := Ok(original);
    } else {
      var s := "";
      EmptyConcat("---\n");
      s := s + "---\n";
      s := s + newYaml;
      s := s + "---\n";
      s := s + content;
      r := Ok(s);
    }
  }

  /**
    * With the correction no sidecar loses its front-matter: a sidecar whose
    * front-matter cannot take the merge is kept exactly as it was, and any other is
    * rewritten around its body.
    */
  lemma KeepingOriginalNeverDropsFrontMatter(t: string, mfm: PhotoSorterFrontMatter,
                                             load: string -> Option<seq<Yaml>>, emit: Yaml -> string)
    requires SplitFrontmatter(t).0 != []
    ensures var (fm, body) := SplitFrontmatter(t);
            var r := AssembledTextKeepingOriginal(mfm, Some(fm), body, t, load, emit);
            (MergeRoot(Some(fm), load).None? ==> r == t)
            && (MergeRoot(Some(fm), load).Some? ==> r == "---\n" + MergedYaml(Some(fm), mfm, load, emit) + "---\n" + body)
  {
    var (fm, body) := SplitFrontmatter(t);
    var y := MergedYaml(Some(fm), mfm, load, emit);
    if MergeRoot(Some(fm), load).Some? {
      MergedNotFrontMatter(y, fm);
    }
  }

  /**
    * As written, a sidecar whose front-matter is one line that does not load as a
    * mapping (a plain string such as `foo`) is rewritten as its body alone: the
    * front-matter is lost. The correction keeps the sidecar whole.
    */
  lemma UnmergeableFrontMatterIsDropped(line: string, body: string, mfm: PhotoSorterFrontMatter,
                                        load: string -> Option<seq<Yaml>>, emit: Yaml -> string)
    requires forall j :: 0 <= j < |line| ==> line[j] != '-' && !IsLineBreak(line[j])
    requires !IsBlank(line) && body != []
    requires MergeRoot(Some(line), load).None?
    ensures var t := "---\n" + (line + "\n---\n" + body);
            && SplitFrontmatter(t) == (line, body)
            && AssembledText(mfm, Some(line), body, load, emit) == body
            && AssembledTextKeepingOriginal(mfm, Some(line), body, t, load, emit) == t
  {
    SplitOneLine(line, body);
    UnmergeableIsKept(line, mfm, load, emit);
  }

  /** The split of `---\n`, one front-matter line, `---\n` and a body. */
  lemma SplitOneLine(line: string, body: string)
    requires forall j :: 0 <= j < |line| ==> line[j] != '-' && !IsLineBreak(line[j])
    requires !IsBlank(line) && body != []
    ensures SplitFrontmatter("---\n" + (line + "\n---\n" + body)) == (line, body)
  {
    var fm := line + "\n";
    OneLineFrontMatter(line);
    assert "---\n" + (line + "\n---\n" + body) == [] + DELIMITER + "\n" + (fm + DELIMITER + "\n" + body) by {
      assert [] + DELIMITER + "\n" == "---\n";
      assert fm + DELIMITER + "\n" == line + "\n---\n" by {
        assert "\n" + DELIMITER + "\n" == "\n---\n";
      }
    }
    SplitDelimited([], "\n", fm, "\n", body);
  }

  /** One line without dashes or line breaks, and its line ending, as front-matter text. */
  lemma OneLineFrontMatter(line: string)
    requires forall j :: 0 <= j < |line| ==> line[j] != '-' && !IsLineBreak(line[j])
    requires !IsBlank(line)
    ensures var fm := line + "\n";
            !Contains(fm, DELIMITER) && fm[|fm| - 1] != '-' && !IsBlank(fm) && TrimEnd(fm, IsLineBreak) == line
  {
    var fm := line + "\n";
    assert !Contains(fm, DELIMITER) by {
      NoDashes(fm);
    }
    assert !IsBlank(fm) by {
      var j :| 0 <= j < |line| && !IsWhitespace(line[j]);
      assert fm[j] == line[j];
    }
    assert TrimEnd(fm, IsLineBreak) == line by {
      assert fm[..|fm| - 1] == line;
      assert line == [] || !IsLineBreak(line[|line| - 1]);
    }
  }

  /** Front-matter that does not load as a mapping is its own merge result. */
  lemma UnmergeableIsKept(fm: string, mfm: PhotoSorterFrontMatter,
                          load: string -> Option<seq<Yaml>>, emit: Yaml -> string)
    requires MergeRoot(Some(fm), load).None?
    ensures MergedYaml(Some(fm), mfm, load, emit) == fm
  {
  }

  // ---------------------------------------------------------------------------
  // Syncing a sidecar into the output directory

  /** The text a sync writes at `path`, given the output directory's files. */
  function SyncText(mfm: PhotoSorterFrontMatter, files: map<string, Stored>, path: string,
                    load: string -> Option<seq<Yaml>>, emit: Yaml -> string): string
    requires path in files ==> files[path].Text?
  {
    if path in files then
      var (fm, body) := SplitFrontmatter(files[path].content);
      AssembledTextKeepingOriginal(mfm, Some(fm), body, files[path].content, load, emit)
    else AssembledTextKeepingOriginal(mfm, None, "", "", load, emit)
  }

  /**
    * `sync_markdown`: without a desired markdown path nothing happens; an existing
    * sidecar that cannot be read is an error and nothing is written; otherwise the
    * assembled text (from the existing sidecar, or from an empty body) is written at
    * the desired path, unless this is a dry run. The text is assembled by the
    * corrected `AssembleMarkdownKeepingOriginal`, so an existing sidecar whose
    * front-matter cannot take the merge is written back unchanged.
    */
  method SyncMarkdown(dryRun: bool, mediaFile: MarkdownMediaFile, outputC: DirectoryContainer,
                      load: string -> Option<seq<Yaml>>, emit: Yaml -> string) returns (r: Result<()>)
    modifies outputC
    ensures mediaFile.desired_markdown_path.None? ==> r.Ok? && outputC.files == old(outputC.files)
    ensures mediaFile.desired_markdown_path.Some? ==>
              var path := mediaFile.desired_markdown_path.value;
              if path in old(outputC.files) && old(outputC.files)[path].Unreadable? then
                r.Err? && outputC.files == old(outputC.files)
              else
                && r.Ok?
                && outputC.files
                   == if dryRun then old(outputC.files)
                      else old(outputC.files)[path := Stored.Text(SyncText(MfmFromMediaFileInfo(mediaFile),
                                                                           old(outputC.files), path, load, emit))]
  {
    if mediaFile.desired_markdown_path.None? {
      return Ok(());
    }
    var outputPath := mediaFile.desired_markdown_path.value;
    var mfm := MfmFromMediaFileInfo(mediaFile);
    var eMd := "";
    var eYaml: Option<string> := None;
    var eFull := "";
    if outputC.Exists(outputPath) {
      var existing := outputC.FileText(outputPath);
      if existing.Err? {
        return Err("Could not read existing markdown file at " + outputPath);
      }
      eFull := existing.value;
      var (eYamlI, eMdI) := SplitFrontmatter(existing.value);
      eYaml := Some(eYamlI);
      eMd := eMdI;
    }
    var mdStr := AssembleMarkdownKeepingOriginal(mfm, eYaml, eMd, eFull, load, emit);
    outputC.Write(dryRun, outputPath, mdStr.value);
    return Ok(());
  }
}
