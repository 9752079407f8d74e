/**
  FreeType status codes (src/ft/mod.rs): an `FT_Error` of 0 is success, anything else
  is the error itself.
*/
module FreeTypeError {
  import opened Wrappers

  newtype i32 = x: int | -0x8000_0000 <= x < 0x8000_0000

  /** `get_err`. */
  function GetErr(code: i32): (r: Option<i32>)
    ensures r.None? <==> code == 0
    ensures r.Some? ==> r.value == code
  {
    if code == 0 then None else Some(code)
  }

  /** `as_result`: the given value on success, the unchanged code otherwise. */
  function AsResult<T>(code: i32, result: T): (r: Result<T, i32>)
    ensures r.Ok? <==> code == 0
    ensures r.Ok? ==> r.value == result
    ensures r.Err? ==> r.error == code
  {
    match GetErr(code)
    case Some(err) => Err(err)
    case None => Ok(result)
  }

  /** `map_result`: the closure's value on success; on failure the closure's value is
      never part of the result. */
  function MapResult<T>(code: i32, f: () -> T): (r: Result<T, i32>)
    ensures r.Ok? <==> code == 0
    ensures r.Ok? ==> r.value == f()
    ensures r.Err? ==> r.error == code
  {
    match GetErr(code)
    case Some(err) => Err(err)
    case None => Ok(f())
  }

  /** The two conversions succeed on the same codes and fail with the same error. */
  lemma AsResultAgreesWithMapResult<T>(code: i32, f: () -> T)
    ensures AsResult(code, f()) == MapResult(code, f)
  {
  }

  /** On failure `map_result` does not depend on the closure. */
  lemma MapResultIgnoresClosureOnError<T>(code: i32, f: () -> T, g: () -> T)
    requires code != 0
    ensures MapResult(code, f) == MapResult(code, g)
  {
  }
}
