/** Option and Result for the library's null-like values and its exceptions; the byte type. */
module Wrappers {

  /** A .NET `byte`: colour channels and the bytes of the binary formats. */
  type Byte = x: int | 0 <= x < 256

  datatype Option<+T> = None | Some(value: T)

  /** The .NET exceptions that the modelled members raise. */
  datatype Exception =
    | ArgumentException
    | ArgumentOutOfRangeException
    | InvalidOperationException
    | FormatException
    | OverflowException
    | GeneralException

  datatype Result<+T> = Ok(value: T) | Err(error: Exception)
}
