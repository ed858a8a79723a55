/** Discovery and reading of the JSON sidecar that accompanies a media file. */
module ExtraInfo {
  import opened Wrappers
  import opened Container

  /**
    * The sidecar of `path`: the first of `path` + `.supplemental-metadata.json`,
    * `.supplemental-metad.json`, `.suppl.json` that exists in the store.
    */
  function DetectExtraInfo(path: string, tree: FileTree): (r: Option<string>)
    ensures Exists(tree, path + SUPPLEMENTAL_SUFFIXES[0]) ==> r == Some(path + SUPPLEMENTAL_SUFFIXES[0])
    ensures !Exists(tree, path + SUPPLEMENTAL_SUFFIXES[0]) && Exists(tree, path + SUPPLEMENTAL_SUFFIXES[1])
            ==> r == Some(path + SUPPLEMENTAL_SUFFIXES[1])
    ensures (!Exists(tree, path + SUPPLEMENTAL_SUFFIXES[0]) && !Exists(tree, path + SUPPLEMENTAL_SUFFIXES[1])
             && Exists(tree, path + SUPPLEMENTAL_SUFFIXES[2]))
            ==> r == Some(path + SUPPLEMENTAL_SUFFIXES[2])
    ensures r.None? <==> forall k :: 0 <= k < 3 ==> !Exists(tree, path + SUPPLEMENTAL_SUFFIXES[k])
  {
    FirstExisting(tree, path, SUPPLEMENTAL_SUFFIXES)
  }

  /**
    * The sidecar's JSON re-encoded as compact text: nothing when its bytes cannot be
    * read, when they are not JSON (`parse`), or when re-encoding fails (`encode`).
    */
  function ReadExtraInfo<J>(bytes: Result<seq<byte>>, parse: seq<byte> -> Option<J>,
                            encode: J -> Option<string>): (r: Option<string>)
    ensures bytes.Err? ==> r.None?
    ensures r.Some? <==> bytes.Ok? && parse(bytes.value).Some? && encode(parse(bytes.value).value).Some?
    ensures r.Some? ==> r.value == encode(parse(bytes.value).value).value
  {
    if bytes.Err? then None
    else
      match parse(bytes.value)
      case None => None
      case Some(j) => encode(j)
  }
}
