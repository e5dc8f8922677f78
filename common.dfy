/** Small wrappers shared by every module of the model. */
module Common {

  /** A value that may be absent: a C# `null` reference or a missing JSON property. */
  datatype Option<+T> = None | Some(value: T)

  /** The outcome of a call that may throw: either its value, or an exception
      that propagates to the caller. */
  datatype Fetch<+T> = Ok(value: T) | Threw

  /** An 8-bit unsigned byte (C# `byte`). */
  newtype byte = x: int | 0 <= x < 256

  /** A value a C# `int` can hold. */
  predicate IsInt32(x: int) {
    -0x8000_0000 <= x < 0x8000_0000
  }

  /** Unchecked C# `int` arithmetic: the result is reduced into the `int` range
      modulo 2^32. */
  function Wrap32(x: int): (r: int)
    ensures IsInt32(r)
    ensures (r - x) % 0x1_0000_0000 == 0
    ensures IsInt32(x) ==> r == x
  {
    (x + 0x8000_0000) % 0x1_0000_0000 - 0x8000_0000
  }
}
