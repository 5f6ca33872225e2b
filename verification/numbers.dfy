/** Arithmetic on natural numbers as the program does it. */
module Numbers {
  const U32_MAX: nat := 0xFFFF_FFFF

  function Min(a: nat, b: nat): nat {
    if a <= b then a else b
  }

  /** Subtraction that stops at zero. */
  function Minus(a: nat, b: nat): nat {
    if a >= b then a - b else 0
  }
}
