/**
 * Small shared vocabulary: an optional value standing for a C# nullable
 * reference, and the 32-bit signed integer range of C# `int`.
 */
module Common {

  /** `None` is C#'s `null`. */
  datatype Option<+T> = None | Some(value: T) {
    function GetOr(default: T): T {
      match this
      case Some(v) => v
      case None => default
    }
  }

  /** The values of a C# `int`. */
  type int32 = x: int | -0x8000_0000 <= x < 0x8000_0000

  function Min(a: int, b: int): int {
    if a <= b then a else b
  }
}
