/**
  * The file stores the program reads from and writes to: an input tree of files
  * (a directory or an archive) and the output directory that receives sidecars.
  */
module Container {
  import opened Wrappers

  newtype byte = x: int | 0 <= x < 256

  /** A file as the input store sees it: its bytes, or present but unreadable. */
  datatype Entry = Readable(bytes: seq<byte>) | Unreadable

  /** An input store: the files it holds, by path. */
  type FileTree = map<string, Entry>

  predicate Exists(tree: FileTree, path: string) {
    path in tree
  }

  /** The bytes of a file, or an error when it is missing or cannot be read. */
  function FileBytes(tree: FileTree, path: string): (r: Result<seq<byte>>)
    ensures r.Ok? <==> path in tree && tree[path].Readable?
    ensures r.Ok? ==> r.value == tree[path].bytes
  {
    if path in tree && tree[path].Readable? then Ok(tree[path].bytes)
    else Err("could not read " + path)
  }

  /** The suffixes Google Takeout gives the supplemental-metadata file of a media file, most specific first. */
  const SUPPLEMENTAL_SUFFIXES: seq<string> :=
    [".supplemental-metadata.json", ".supplemental-metad.json", ".suppl.json"]

  /**
    * The first `path + suffixes[k]` that exists in the store, trying the suffixes in
    * order (the probing loop shared by the sidecar detectors).
    */
  function FirstExisting(tree: FileTree, path: string, suffixes: seq<string>): (r: Option<string>)
    ensures r.Some? ==> exists k :: 0 <= k < |suffixes| && r.value == path + suffixes[k]
                          && Exists(tree, r.value)
                          && forall j :: 0 <= j < k ==> !Exists(tree, path + suffixes[j])
    ensures r.None? <==> forall k :: 0 <= k < |suffixes| ==> !Exists(tree, path + suffixes[k])
  {
    if suffixes == [] then None
    else if Exists(tree, path + suffixes[0]) then Some(path + suffixes[0])
    else
      var rest := FirstExisting(tree, path, suffixes[1..]);
      if rest.Some? then
        var k :| 0 <= k < |suffixes[1..]| && rest.value == path + suffixes[1..][k]
                 && Exists(tree, rest.value)
                 && forall j :: 0 <= j < k ==> !Exists(tree, path + suffixes[1..][j]);
        assert 0 <= k + 1 < |suffixes| && rest.value == path + suffixes[k + 1];
        rest
      else rest
  }

  /** A file in the output directory: its text, or present but unreadable. */
  datatype Stored = Text(content: string) | Unreadable

  /** The output directory, whose files are replaced in place by `Write`. */
  class DirectoryContainer {
    var files: map<string, Stored>

    constructor(files: map<string, Stored>)
      ensures this.files == files
    {
      this.files := files;
    }

    predicate Exists(path: string)
      reads this
    {
      path in files
    }

    /** The text of a file, or an error when it is missing or cannot be read. */
    function FileText(path: string): (r: Result<string>)
      reads this
      ensures r.Ok? <==> path in files && files[path].Text?
      ensures r.Ok? ==> r.value == files[path].content
    {
      if path in files && files[path].Text? then Ok(files[path].content)
      else Err("could not read " + path)
    }

    /** Writes `content` at `path`, or does nothing on a dry run. */
    method Write(dryRun: bool, path: string, content: string)
      modifies this
      ensures dryRun ==> files == old(files)
      ensures !dryRun ==> files == old(files)[path := Text(content)]
    {
      if !dryRun {
        files := files[path := Text(content)];
      }
    }
  }
}
