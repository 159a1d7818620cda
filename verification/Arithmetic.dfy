/** Arithmetic on the unsigned numbers the program counts with. */
module Arithmetic {
  /** The largest 64-bit number, which stands for a time or a frame that never comes. */
  const NEVER: nat := 0xFFFF_FFFF_FFFF_FFFF

  /** A difference that stops at zero. */
  function SaturatingSub(n: nat, less: nat): nat {
    if n < less then 0 else n - less
  }

  function Min(a: nat, b: nat): nat {
    if a < b then a else b
  }

  function Max(a: nat, b: nat): nat {
    if a < b then b else a
  }
}
