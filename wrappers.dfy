/** Rust's `Option` and `Result`, for the optional values and the errors of the source. */
module Wrappers {

  /** Rust's Option: a value or nothing. */
  datatype Option<+T> = None | Some(value: T)

  /** Rust's anyhow::Result: a value, or an error carrying its message. */
  datatype Result<+T> = Ok(value: T) | Err(message: string)

  /** The value of a non-empty Option, or `default` (Rust's unwrap_or). */
  function UnwrapOr<T>(o: Option<T>, default: T): T {
    match o
    case Some(v) => v
    case None => default
  }

  /** The first present value of a list of alternatives tried in order. */
  function FirstSome<T(==)>(os: seq<Option<T>>): (r: Option<T>)
    ensures r.Some? ==> exists i :: 0 <= i < |os| && os[i] == r && forall j :: 0 <= j < i ==> os[j].None?
    ensures r.None? <==> forall i :: 0 <= i < |os| ==> os[i].None?
  {
    if os == [] then None
    else if os[0].Some? then os[0]
    else
      var r := FirstSome(os[1..]);
      if r.Some? then
        var i :| 0 <= i < |os[1..]| && os[1..][i] == r && forall j :: 0 <= j < i ==> os[1..][j].None?;
        assert os[i + 1] == r;
        r
      else r
  }

  /** Trying `o` first, then the rest in order. */
  lemma FirstSomeCons<T>(o: Option<T>, os: seq<Option<T>>)
    ensures FirstSome([o] + os) == if o.Some? then o else FirstSome(os)
  {
    assert ([o] + os)[1..] == os;
  }
}
