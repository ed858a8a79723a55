/**
  * Albums exported as CSV files, one image name per row under an `imagename`
  * header: reading one from its rows, giving every album a name of its own,
  * inverting albums into a map from file to album names, and the markdown page
  * of an album.
  */
module Albums {
  import opened Wrappers
  import opened Text

  /** An album: the CSV file it came from, its name, and its files in order. */
  datatype Album = Album(path: string, name: string, files: seq<string>)

  // ---------------------------------------------------------------------------
  // Reading an album from CSV rows

  /** A CSV record as the reader yields it: its fields, or an error. */
  type Record = Result<seq<string>>

  /** The first field of every readable, non-empty record, in order. */
  function FirstColumns(records: seq<Record>): (files: seq<string>)
    ensures |files| <= |records|
  {
    if records == [] then []
    else
      var r := records[|records| - 1];
      FirstColumns(records[..|records| - 1]) + (if r.Ok? && r.value != [] then [r.value[0]] else [])
  }

  /** Collecting first fields is compositional: the records of two parts, in order. */
  lemma {:induction false} FirstColumnsAppend(a: seq<Record>, b: seq<Record>)
    ensures FirstColumns(a + b) == FirstColumns(a) + FirstColumns(b)
  {
    if b != [] {
      var n := |b| - 1;
      assert (a + b)[..|a + b| - 1] == a + b[..n];
      assert (a + b)[|a + b| - 1] == b[n];
      FirstColumnsAppend(a, b[..n]);
    } else {
      assert a + b == a;
    }
  }

  /** No file is collected exactly when every record is unreadable or empty. */
  lemma {:induction false} FirstColumnsEmpty(records: seq<Record>)
    ensures FirstColumns(records) == [] <==> forall i :: 0 <= i < |records| ==> records[i].Err? || records[i].value == []
  {
    if records != [] {
      var init := records[..|records| - 1];
      FirstColumnsEmpty(init);
      assert forall i :: 0 <= i < |init| ==> init[i] == records[i];
    }
  }

  const IMAGE_NAME: string := "imagename"

  /** The header row marks an album: its first field, trimmed and lower-cased, is `imagename`. */
  predicate IsAlbumHeader(headers: Result<seq<string>>) {
    headers.Ok? && headers.value != [] && Lower(Trim(headers.value[0])) == IMAGE_NAME
  }

  /**
    * The album name of a CSV file name: the text before the last `.`, or the whole
    * name when it has no `.` or its last `.` is its first character; none for an
    * empty name.
    */
  function AlbumName(name: string): (r: Option<string>)
    ensures r.None? <==> name == []
    ensures r.Some? ==> StartsWith(name, r.value)
    ensures r.Some? && |r.value| < |name| ==>
              && 0 < |r.value|
              && name[|r.value|] == '.'
              && forall j :: |r.value| < j < |name| ==> name[j] != '.'
    ensures r.Some? && r.value == name ==> forall j :: 0 < j < |name| ==> name[j] != '.'
  {
    var dotIdx := match RFind(name, '.') case None => 0 case Some(i) => i;
    if dotIdx > 0 then
      var nameWithoutExt := name[..dotIdx];
      if nameWithoutExt == [] then None else Some(nameWithoutExt)
    else if name == [] then None
    else Some(name)
  }

  /**
    * `parse_csv` over rows already read: no album unless the header row marks one,
    * at least one file is collected and the file has a name; otherwise the album
    * of the collected files, named after the file.
    */
  method ParseCsv(headers: Result<seq<string>>, records: seq<Record>, name: string) returns (r: Option<Album>)
    ensures r.Some? <==> IsAlbumHeader(headers) && FirstColumns(records) != [] && name != []
    ensures r.Some? ==> r.value == Album(name, AlbumName(name).value, FirstColumns(records))
  {
    if headers.Err? {
      return None;
    }
    var s := headers.value;
    if s == [] {
      return None;
    }
    var col0 := s[0];
    if Lower(Trim(col0)) != IMAGE_NAME {
      return None;
    }
    var files: seq<string> := [];
    var i := 0;
    while i < |records|
      invariant 0 <= i <= |records|
      invariant files == FirstColumns(records[..i])
    {
      assert records[..i + 1][..i] == records[..i];
      var result := records[i];
      if result.Ok? {
        var record := result.value;
        if record != [] {
          files := files + [record[0]];
        }
      }
      i := i + 1;
    }
    assert records[..i] == records;
    if files == [] {
      return None;
    }
    var dotIdx := match RFind(name, '.') case None => 0 case Some(i) => i;
    var nameWithoutExt;
    if dotIdx > 0 {
      nameWithoutExt := name[..dotIdx];
      if nameWithoutExt == [] {
        return None;
      }
    } else {
      nameWithoutExt := name;
      if nameWithoutExt == [] {
        return None;
      }
    }
    return Some(Album(name, nameWithoutExt, files));
  }

  // ---------------------------------------------------------------------------
  // Giving every album a name of its own

  /** The attempts after the first before an album is given up. */
  const MAX_ATTEMPTS: nat := 100

  /**
    * The name tried at attempt `k + 1`: the album's name for the first attempt,
    * then the previous try followed by `-k` (so `A`, `A-1`, `A-1-2`, …).
    */
  function Candidate(name: string, k: nat): string {
    if k == 0 then name else Candidate(name, k - 1) + "-" + NatToString(k)
  }

  /** The index of the first try from `k` on whose name is not yet used, if one is left. */
  function FirstFree(name: string, used: set<string>, k: nat): (r: Option<nat>)
    requires k <= MAX_ATTEMPTS + 1
    ensures r.Some? ==> k <= r.value <= MAX_ATTEMPTS && Candidate(name, r.value) !in used
    ensures r.Some? ==> forall l :: k <= l < r.value ==> Candidate(name, l) in used
    ensures r.None? <==> forall l :: k <= l <= MAX_ATTEMPTS ==> Candidate(name, l) in used
    decreases MAX_ATTEMPTS + 1 - k
  {
    if k > MAX_ATTEMPTS then None
    else if Candidate(name, k) !in used then Some(k)
    else FirstFree(name, used, k + 1)
  }

  /** The name an album called `name` is given when `used` are taken; none when it is given up. */
  function Decision(name: string, used: set<string>): Option<string> {
    match FirstFree(name, used, 0)
    case Some(j) => Some(Candidate(name, j))
    case None => None
  }

  /**
    * The name given is never one already used; it is the album's own name exactly
    * when that is unused; and the album is given up exactly when its name and all
    * 100 suffixed names are used.
    */
  lemma DecisionFacts(name: string, used: set<string>)
    ensures Decision(name, used).Some? ==> Decision(name, used).value !in used
    ensures Decision(name, used) == Some(name) <==> name !in used
    ensures Decision(name, used).None? <==> forall l :: 0 <= l <= MAX_ATTEMPTS ==> Candidate(name, l) in used
  {
    if name !in used {
      assert Candidate(name, 0) == name;
      assert FirstFree(name, used, 0) == Some(0);
      assert Decision(name, used) == Some(name);
    }
    match FirstFree(name, used, 0)
    case Some(j) =>
      assert Decision(name, used) == Some(Candidate(name, j));
      assert j <= MAX_ATTEMPTS && Candidate(name, j) !in used;
    case None =>
      assert Decision(name, used) == None;
  }

  /** The names handed out so far. */
  function Taken(d: seq<Option<string>>): set<string> {
    if d == [] then {}
    else
      var n := |d| - 1;
      Taken(d[..n]) + (if d[n].Some? then {d[n].value} else {})
  }

  lemma {:induction false} TakenHas(d: seq<Option<string>>, k: nat)
    requires k < |d| && d[k].Some?
    ensures d[k].value in Taken(d)
  {
    var n := |d| - 1;
    if k < n {
      TakenHas(d[..n], k);
    }
  }

  /** The name each album ends up with, in input order; none for an album given up. */
  function Decisions(albums: seq<Album>): (d: seq<Option<string>>)
    ensures |d| == |albums|
  {
    if albums == [] then []
    else
      var prev := Decisions(albums[..|albums| - 1]);
      prev + [Decision(albums[|albums| - 1].name, Taken(prev))]
  }

  /** The albums that got a name, in input order, each under that name. */
  function Renamed(albums: seq<Album>, d: seq<Option<string>>): (r: seq<Album>)
    requires |d| == |albums|
    ensures |r| <= |albums|
  {
    if albums == [] then []
    else
      var n := |albums| - 1;
      Renamed(albums[..n], d[..n]) + (if d[n].Some? then [albums[n].(name := d[n].value)] else [])
  }

  /** The output of `de_duplicate_albums`. */
  function DeDuplicated(albums: seq<Album>): seq<Album> {
    Renamed(albums, Decisions(albums))
  }

  /**
    * `de_duplicate_albums`: for each album, tries its name and then ever longer
    * suffixed names until one is unused, and gives the album up after the try of
    * attempt 101.
    */
  method DeDuplicateAlbums(albums: seq<Album>) returns (cleanAlbums: seq<Album>)
    ensures cleanAlbums == DeDuplicated(albums)
  {
    cleanAlbums := [];
    var usedNames: set<string> := {};
    var i := 0;
    while i < |albums|
      invariant 0 <= i <= |albums|
      invariant cleanAlbums == Renamed(albums[..i], Decisions(albums[..i]))
      invariant usedNames == Taken(Decisions(albums[..i]))
    {
      cleanAlbums, usedNames := PlaceAlbum(albums[i], cleanAlbums, usedNames);
      DecisionsStep(albums, i);
      i := i + 1;
    }
    assert albums[..i] == albums;
  }

  /**
    * The body of the loop of `de_duplicate_albums` for one album: the search for
    * an unused name, pushing the album under the first one found.
    */
  method PlaceAlbum(album: Album, clean0: seq<Album>, used0: set<string>) returns (cleanAlbums: seq<Album>, usedNames: set<string>)
    ensures var decided := Decision(album.name, used0);
            && cleanAlbums == clean0 + (if decided.Some? then [album.(name := decided.value)] else [])
            && usedNames == used0 + (if decided.Some? then {decided.value} else {})
  {
    cleanAlbums, usedNames := clean0, used0;
    ghost var decided := Decision(album.name, used0);
    var name := album.name;
    var attempt := 0;
    while true
      invariant 0 <= attempt <= MAX_ATTEMPTS
      invariant name == Candidate(album.name, attempt)
      invariant FirstFree(album.name, used0, attempt) == FirstFree(album.name, used0, 0)
      invariant cleanAlbums == clean0 && usedNames == used0
      decreases MAX_ATTEMPTS - attempt
    {
      attempt := attempt + 1;
      if name !in usedNames {
        cleanAlbums := cleanAlbums + [Album(album.path, name, album.files)];
        usedNames := usedNames + {name};
        assert decided == Some(name) by {
          assert FirstFree(album.name, used0, attempt - 1) == Some(attempt - 1);
        }
        return;
      }
      name := name + "-" + NatToString(attempt);
      if attempt > MAX_ATTEMPTS {
        assert decided == None by {
          assert FirstFree(album.name, used0, attempt) == None;
        }
        return;
      }
    }
  }

  /** One more album extends the decisions, the output and the names handed out by its own decision. */
  lemma DecisionsStep(albums: seq<Album>, i: nat)
    requires i < |albums|
    ensures var d := Decisions(albums[..i]);
            var found := Decision(albums[i].name, Taken(d));
            && Decisions(albums[..i + 1]) == d + [found]
            && Renamed(albums[..i + 1], d + [found])
               == Renamed(albums[..i], d) + (if found.Some? then [albums[i].(name := found.value)] else [])
            && Taken(d + [found]) == Taken(d) + (if found.Some? then {found.value} else {})
  {
    var d := Decisions(albums[..i]);
    var found := Decision(albums[i].name, Taken(d));
    assert albums[..i + 1][..i] == albums[..i];
    assert (d + [found])[..i] == d;
  }

  /** The decisions for a prefix of the albums are a prefix of the decisions. */
  lemma {:induction false} DecisionsPrefix(albums: seq<Album>, i: nat)
    requires i <= |albums|
    ensures Decisions(albums[..i]) == Decisions(albums)[..i]
    decreases |albums|
  {
    if i < |albums| {
      var init := albums[..|albums| - 1];
      DecisionsPrefix(init, i);
      assert init[..i] == albums[..i];
    } else {
      assert albums[..i] == albums;
    }
  }

  /** Each album's decision is taken against the names handed out to the albums before it. */
  lemma DecisionAt(albums: seq<Album>, i: nat)
    requires i < |albums|
    ensures var d := Decisions(albums);
            d[i] == Decision(albums[i].name, Taken(d[..i]))
  {
    DecisionsPrefix(albums, i);
    DecisionsPrefix(albums, i + 1);
    DecisionsStep(albums, i);
  }

  /** No two albums are given the same name. */
  lemma DecisionsDistinct(albums: seq<Album>, i: nat, j: nat)
    requires i < j < |albums|
    requires Decisions(albums)[i].Some? && Decisions(albums)[j].Some?
    ensures Decisions(albums)[i] != Decisions(albums)[j]
  {
    var d := Decisions(albums);
    var before := d[..j];
    assert before[i] == d[i];
    TakenHas(before, i);
    DecisionAt(albums, j);
    DecisionFacts(albums[j].name, Taken(before));
  }

  /**
    * An album keeps its own name exactly when no earlier album was given that name;
    * in particular the first album always keeps its name.
    */
  lemma KeepsNameIffUnused(albums: seq<Album>, i: nat)
    requires i < |albums|
    ensures Decisions(albums)[i] == Some(albums[i].name) <==> albums[i].name !in Taken(Decisions(albums)[..i])
  {
    DecisionAt(albums, i);
    DecisionFacts(albums[i].name, Taken(Decisions(albums)[..i]));
  }

  /** An album is given up only when its name and all its 100 suffixed names are taken. */
  lemma GivenUpOnlyWhenAllTaken(albums: seq<Album>, i: nat)
    requires i < |albums|
    ensures Decisions(albums)[i].None?
            <==> forall l :: 0 <= l <= MAX_ATTEMPTS ==> Candidate(albums[i].name, l) in Taken(Decisions(albums)[..i])
  {
    DecisionAt(albums, i);
    DecisionFacts(albums[i].name, Taken(Decisions(albums)[..i]));
  }

  /** The names of the output albums are among the names handed out. */
  lemma {:induction false} RenamedNames(albums: seq<Album>, d: seq<Option<string>>)
    requires |d| == |albums|
    ensures forall k :: 0 <= k < |Renamed(albums, d)| ==> Renamed(albums, d)[k].name in Taken(d)
  {
    if albums != [] {
      var n := |albums| - 1;
      RenamedNames(albums[..n], d[..n]);
      var r := Renamed(albums, d);
      var init := Renamed(albums[..n], d[..n]);
      forall k | 0 <= k < |r|
        ensures r[k].name in Taken(d)
      {
        if k < |init| {
          assert r[k] == init[k];
        }
      }
    }
  }

  /** No two albums in `r` share a name. */
  predicate DistinctNames(r: seq<Album>) {
    forall a, b :: 0 <= a < b < |r| ==> r[a].name != r[b].name
  }

  lemma DistinctSnoc(prev: seq<Album>, x: Album, used: set<string>)
    requires DistinctNames(prev)
    requires forall k :: 0 <= k < |prev| ==> prev[k].name in used
    requires x.name !in used
    ensures DistinctNames(prev + [x])
  {
    var r := prev + [x];
    forall a, b | 0 <= a < b < |r|
      ensures r[a].name != r[b].name
    {
      assert r[a] == prev[a];
      if b < |prev| {
        assert r[b] == prev[b];
      }
    }
  }

  /** The output albums have pairwise distinct names. */
  lemma {:induction false} DeDuplicatedDistinct(albums: seq<Album>)
    ensures DistinctNames(DeDuplicated(albums))
  {
    if albums != [] {
      var n := |albums| - 1;
      var init := albums[..n];
      DeDuplicatedDistinct(init);
      DecisionsStep(albums, n);
      assert albums[..n + 1] == albums;
      var d := Decisions(init);
      var found := Decision(albums[n].name, Taken(d));
      RenamedNames(init, d);
      DecisionFacts(albums[n].name, Taken(d));
      if found.Some? {
        DistinctSnoc(DeDuplicated(init), albums[n].(name := found.value), Taken(d));
      } else {
        ConcatEmpty(DeDuplicated(init));
      }
    }
  }

  /** When no album is given up, the output is the input in order, each album with its path and files, renamed. */
  lemma {:induction false} RenamedAligned(albums: seq<Album>, d: seq<Option<string>>)
    requires |d| == |albums|
    requires forall k :: 0 <= k < |d| ==> d[k].Some?
    ensures |Renamed(albums, d)| == |albums|
    ensures forall k :: 0 <= k < |albums| ==> Renamed(albums, d)[k] == albums[k].(name := d[k].value)
  {
    if albums != [] {
      var n := |albums| - 1;
      RenamedAligned(albums[..n], d[..n]);
      var r := Renamed(albums, d);
      forall k | 0 <= k < |albums|
        ensures r[k] == albums[k].(name := d[k].value)
      {
        if k < n {
          assert r[k] == Renamed(albums[..n], d[..n])[k];
          assert albums[..n][k] == albums[k] && d[..n][k] == d[k];
        }
      }
    }
  }

  /** The tries are cumulative: the second suffix is added after the first. */
  lemma CandidateSample(name: string)
    ensures Candidate(name, 1) == name + "-1"
    ensures Candidate(name, 2) == name + "-1" + "-2"
  {
    assert NatToString(1) == "1" && NatToString(2) == "2";
  }

  // ---------------------------------------------------------------------------
  // From albums to the albums of each file

  /** `[name]` once for every occurrence of `f` in `files`. */
  function Occurrences(files: seq<string>, f: string, name: string): (r: seq<string>)
    ensures |r| == multiset(files)[f]
    ensures forall k :: 0 <= k < |r| ==> r[k] == name
  {
    if files == [] then []
    else
      var n := |files| - 1;
      assert files == files[..n] + [files[n]];
      Occurrences(files[..n], f, name) + (if files[n] == f then [name] else [])
  }

  /** The album names a file is listed under: once per occurrence in each album, in album order. */
  function NamesFor(albums: seq<Album>, f: string): seq<string> {
    if albums == [] then []
    else
      var a := albums[|albums| - 1];
      NamesFor(albums[..|albums| - 1], f) + Occurrences(a.files, f, a.name)
  }

  /** `get_mut` and `push`, or `insert` of a one-name list. */
  function AddFile(m: map<string, seq<string>>, f: string, name: string): map<string, seq<string>> {
    if f in m then m[f := m[f] + [name]] else m[f := [name]]
  }

  function AddFiles(m: map<string, seq<string>>, files: seq<string>, name: string): map<string, seq<string>> {
    if files == [] then m
    else AddFile(AddFiles(m, files[..|files| - 1], name), files[|files| - 1], name)
  }

  /** The map `albums_to_files_map` builds. */
  function FilesMap(albums: seq<Album>): map<string, seq<string>> {
    if albums == [] then map[]
    else
      var a := albums[|albums| - 1];
      AddFiles(FilesMap(albums[..|albums| - 1]), a.files, a.name)
  }

  /** `albums_to_files_map`: for every file of every album, appends the album's name to the file's list. */
  method AlbumsToFilesMap(albums: seq<Album>) returns (m: map<string, seq<string>>)
    ensures m == FilesMap(albums)
  {
    m := map[];
    var i := 0;
    while i < |albums|
      invariant 0 <= i <= |albums|
      invariant m == FilesMap(albums[..i])
    {
      var album := albums[i];
      ghost var m0 := m;
      var j := 0;
      while j < |album.files|
        invariant 0 <= j <= |album.files|
        invariant m == AddFiles(m0, album.files[..j], album.name)
      {
        var f := album.files[j];
        assert album.files[..j + 1][..j] == album.files[..j];
        if f in m {
          m := m[f := m[f] + [album.name]];
        } else {
          m := m[f := [album.name]];
        }
        j := j + 1;
      }
      assert album.files[..j] == album.files;
      assert albums[..i + 1][..i] == albums[..i];
      i := i + 1;
    }
    assert albums[..i] == albums;
  }

  /** The names listed for `f`, none when it is not a key. */
  function Lookup(m: map<string, seq<string>>, f: string): seq<string> {
    if f in m then m[f] else []
  }

  predicate NonEmptyValues(m: map<string, seq<string>>) {
    forall f :: f in m ==> m[f] != []
  }

  /** Adding one file appends the album's name to that file's list only. */
  lemma AddFileLookup(m: map<string, seq<string>>, g: string, name: string, f: string)
    requires NonEmptyValues(m)
    ensures NonEmptyValues(AddFile(m, g, name))
    ensures Lookup(AddFile(m, g, name), f) == Lookup(m, f) + (if g == f then [name] else [])
  {
    if g != f {
      assert Lookup(m, f) + [] == Lookup(m, f);
    }
  }

  /** Adding an album's files appends the album's name once per occurrence, and keeps every list non-empty. */
  lemma {:induction false} AddFilesLookup(m: map<string, seq<string>>, files: seq<string>, name: string, f: string)
    requires NonEmptyValues(m)
    ensures NonEmptyValues(AddFiles(m, files, name))
    ensures Lookup(AddFiles(m, files, name), f) == Lookup(m, f) + Occurrences(files, f, name)
  {
    if files != [] {
      var n := |files| - 1;
      var prev := AddFiles(m, files[..n], name);
      AddFilesLookup(m, files[..n], name, f);
      AddFileLookup(prev, files[n], name, f);
      Assoc3(Lookup(m, f), Occurrences(files[..n], f, name), if files[n] == f then [name] else []);
    } else {
      ConcatEmpty(Lookup(m, f));
    }
  }

  /** The list of a file is the names of the albums listing it, once per occurrence, in album order. */
  lemma {:induction false} FilesMapIsNamesFor(albums: seq<Album>, f: string)
    ensures NonEmptyValues(FilesMap(albums))
    ensures Lookup(FilesMap(albums), f) == NamesFor(albums, f)
  {
    if albums != [] {
      var init := albums[..|albums| - 1];
      var a := albums[|albums| - 1];
      FilesMapIsNamesFor(init, f);
      AddFilesLookup(FilesMap(init), a.files, a.name, f);
    }
  }

  /** Some album lists `f`. */
  predicate Listed(albums: seq<Album>, f: string) {
    exists i :: 0 <= i < |albums| && f in albums[i].files
  }

  lemma ListedSnoc(albums: seq<Album>, f: string)
    requires albums != []
    ensures Listed(albums, f) <==> Listed(albums[..|albums| - 1], f) || f in albums[|albums| - 1].files
  {
    var init := albums[..|albums| - 1];
    if Listed(albums, f) {
      var i :| 0 <= i < |albums| && f in albums[i].files;
      if i < |init| {
        assert init[i] == albums[i];
      }
    }
    if Listed(init, f) {
      var i :| 0 <= i < |init| && f in init[i].files;
      assert init[i] == albums[i];
    }
  }

  /** A file has album names listed exactly when it appears in some album. */
  lemma {:induction false} NamesForNonEmpty(albums: seq<Album>, f: string)
    ensures NamesFor(albums, f) != [] <==> Listed(albums, f)
  {
    if albums != [] {
      var init := albums[..|albums| - 1];
      var a := albums[|albums| - 1];
      NamesForNonEmpty(init, f);
      ListedSnoc(albums, f);
      assert f in a.files <==> multiset(a.files)[f] > 0;
    }
  }

  /**
    * The keys of the map are exactly the files appearing in some album, and each
    * lists the names of the albums holding it, once per occurrence, in album order.
    */
  lemma FilesMapKeys(albums: seq<Album>, f: string)
    ensures f in FilesMap(albums) <==> Listed(albums, f)
    ensures f in FilesMap(albums) ==> FilesMap(albums)[f] == NamesFor(albums, f)
  {
    FilesMapIsNamesFor(albums, f);
    NamesForNonEmpty(albums, f);
  }

  // ---------------------------------------------------------------------------
  // The markdown page of an album

  /** The list item linking one file. */
  function LinkLine(f: string): string {
    "- [" + f + "](" + f + ")"
  }

  /** Each file's list item on a line of its own. */
  function Links(files: seq<string>): string {
    if files == [] then "" else "\n" + LinkLine(files[0]) + Links(files[1..])
  }

  /** The text `build_album_md` writes: a `# name` heading and a list item per file, in order. */
  function AlbumMd(album: Album): string {
    "# " + album.name + Links(album.files)
  }

  /** `build_album_md`: pushes the heading and then one list item per file. */
  method BuildAlbumMd(album: Album) returns (md: string)
    ensures md == AlbumMd(album)
  {
    md := "";
    md := md + ("# " + album.name);
    md := md + "";
    var i := 0;
    while i < |album.files|
      invariant 0 <= i <= |album.files|
      invariant md == "# " + album.name + Links(album.files[..i])
    {
      var f := album.files[i];
      var item := "\n- [" + f + "](" + f + ")";
      assert item == "\n" + LinkLine(f);
      LinksSnoc(album.files[..i], f);
      assert album.files[..i + 1] == album.files[..i] + [f];
      Assoc3("# " + album.name, Links(album.files[..i]), item);
      md := md + item;
      i := i + 1;
    }
    md := md + "";
    assert album.files[..i] == album.files;
  }

  lemma {:induction false} LinksSnoc(files: seq<string>, f: string)
    ensures Links(files + [f]) == Links(files) + ("\n" + LinkLine(f))
  {
    if files == [] {
      assert [f][1..] == [];
      assert Links([f]) == "\n" + LinkLine(f) + "";
    } else {
      assert (files + [f])[1..] == files[1..] + [f];
      LinksSnoc(files[1..], f);
      Assoc("\n" + LinkLine(files[0]), Links(files[1..]), "\n" + LinkLine(f), []);
    }
  }

  /** The list item of every file, in order. */
  function LinkLines(files: seq<string>): seq<string> {
    if files == [] then [] else [LinkLine(files[0])] + LinkLines(files[1..])
  }

  predicate NoNewline(s: string) {
    forall j :: 0 <= j < |s| ==> s[j] != '\n'
  }

  /**
    * With no line break in the name or the file names, the lines of the page are
    * the heading and one list item per file.
    */
  lemma AlbumMdLines(album: Album)
    requires NoNewline(album.name)
    requires forall k :: 0 <= k < |album.files| ==> NoNewline(album.files[k])
    ensures Split(AlbumMd(album), '\n') == ["# " + album.name] + LinkLines(album.files)
  {
    var heading := "# " + album.name;
    assert NoNewline(heading) by {
      forall j | 0 <= j < |heading|
        ensures heading[j] != '\n'
      {
        if j >= 2 {
          assert heading[j] == album.name[j - 2];
        }
      }
    }
    SplitLinks(heading, album.files);
  }

  lemma LinkLineNoNewline(f: string)
    requires NoNewline(f)
    ensures NoNewline(LinkLine(f))
  {
    var l := LinkLine(f);
    forall j | 0 <= j < |l|
      ensures l[j] != '\n'
    {
      if 3 <= j < 3 + |f| {
        assert l[j] == f[j - 3];
      } else if 5 + |f| <= j < 5 + 2 * |f| {
        assert l[j] == f[j - 5 - |f|];
      }
    }
  }

  lemma {:induction false} SplitLinks(t: string, files: seq<string>)
    requires NoNewline(t)
    requires forall k :: 0 <= k < |files| ==> NoNewline(files[k])
    ensures Split(t + Links(files), '\n') == [t] + LinkLines(files)
    decreases |files|
  {
    if files == [] {
      ConcatEmpty(t);
      SplitNoSeparator(t, '\n');
    } else {
      var l := LinkLine(files[0]);
      var rest := Links(files[1..]);
      LinkLineNoNewline(files[0]);
      assert Split(l + rest, '\n') == [l] + LinkLines(files[1..]) by {
        SplitLinks(l, files[1..]);
      }
      assert t + Links(files) == t + ['\n'] + (l + rest) by {
        Assoc(t, "\n", l, rest);
        Assoc3(t + "\n", l, rest);
      }
      SplitFirst(t, '\n', l + rest);
    }
  }
}
