/** Division as C++ does it. */
module Division {
  /** Toward zero. */
  function Quotient(x: int, d: int): int
    requires d > 0
  {
    if x >= 0 then x / d else -(-x / d)
  }
}
