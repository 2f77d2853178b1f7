/** Optional values, for the generators' `??` and `||` defaults. */
module Options {

  datatype Option<T> = None | Some(value: T)

  /** `x ?? d`: the value when there is one, `d` otherwise. */
  function GetOr<T>(x: Option<T>, d: T): T {
    match x
    case Some(v) => v
    case None => d
  }

  /** `x || d` on an optional string: empty strings count as missing. */
  function StringOr(x: Option<string>, d: string): (r: string)
    ensures r == d || (x.Some? && r == x.value && r != "")
    ensures x.Some? && x.value != "" ==> r == x.value
  {
    if x.Some? && x.value != "" then x.value else d
  }
}
