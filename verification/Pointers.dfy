/** Go's optional fields (pointers), and the two string conversions that every client package applies. */
module Pointers {

  datatype Option<+T> = None | Some(value: T)

  /** The empty string has no pointer form, so an empty value leaves the request field out. */
  function ToPtrValue(v: string): (p: Option<string>)
    ensures FromPtrValue(p) == v
    ensures p != Some("")
  {
    if v == "" then None else Some(v)
  }

  function FromPtrValue(p: Option<string>): string {
    match p
    case None => ""
    case Some(v) => v
  }

  /** A stored pointer survives the round trip exactly when it does not point to an empty string. */
  lemma PtrRoundTrip(p: Option<string>)
    ensures ToPtrValue(FromPtrValue(p)) == p <==> p != Some("")
  {
  }

  /** How a Go function ends: it returns, or it panics on a nil dereference, a bad index or a zero divisor. */
  datatype Outcome = Returned | Panicked
}
