/** Optional values, and the options the source reads with `positiveInteger`. */
module Options {
  datatype Option<+T> = None | Some(value: T)

  const MAX_SAFE_INTEGER: int := 9007199254740991

  /** A positive safe integer, or the fallback; a value that is not an integer is absent. */
  function PositiveInteger(value: Option<int>, fallback: nat): nat {
    if value.Some? && 0 < value.value <= MAX_SAFE_INTEGER then value.value else fallback
  }
}
