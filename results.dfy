/** The failures of the parser and the result type that carries them. */
module Results {

  datatype Option<+T> = None | Some(value: T)

  /** Each failure is an exception the parser raises. */
  datatype Error =
    | NotFlac                 // the file does not start with the marker "fLaC"
    | HeaderPastEnd(pos: nat) // the block walk reached a cursor at or past the end of the file
    | MissingStreamInfo       // no STREAMINFO block was recorded
    | MissingVorbisComment    // no VORBIS_COMMENT block was recorded
    | MissingPicture          // no PICTURE block was recorded
    | InvalidUtf8             // a string field does not decode as UTF-8
    | TagWithoutSeparator     // a comment does not match name=value
    | VendorNameInComment     // a comment named "vendor" meets the vendor string, which is not a set
    | MimeWithoutSubtype      // a MIME type does not match type/subtype

  datatype Result<+T> = Ok(value: T) | Err(error: Error) {
    predicate IsFailure() { Err? }

    function PropagateFailure<U>(): Result<U>
      requires Err?
    {
      Err(error)
    }

    function Extract(): T
      requires Ok?
    {
      value
    }
  }

  /** Puts xs in front of a successful list; a failure stays the same failure. */
  function Prepend<T>(xs: seq<T>, r: Result<seq<T>>): Result<seq<T>>
  {
    match r
    case Ok(ys) => Ok(xs + ys)
    case Err(e) => Err(e)
  }

  lemma PrependPrepend<T>(xs: seq<T>, ys: seq<T>, r: Result<seq<T>>)
    ensures Prepend(xs, Prepend(ys, r)) == Prepend(xs + ys, r)
  {
    if r.Ok? {
      assert xs + (ys + r.value) == xs + ys + r.value;
    }
  }
}
