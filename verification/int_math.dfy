/** Python's built-in min and max on integers, and the facts about
    multiplication and floor division the models' arithmetic relies on. */
module IntMath {
  function Min(a: int, b: int): int {
    if a <= b then a else b
  }

  function Max(a: int, b: int): int {
    if a >= b then a else b
  }

  /** Multiplying by a non-negative factor preserves order. */
  lemma MulMono(a: int, b: int, n: int)
    requires a <= b && 0 <= n
    ensures a * n <= b * n
  {
  }

  /** Multiplication distributes over a successor and over negation. */
  lemma MulFacts(k: int, n: int)
    ensures (k + 1) * n == k * n + n
    ensures (-k) * n == -(k * n)
  {
  }

  /** Floor division by a positive divisor brackets the dividend. */
  lemma DivFloor(s: int, n: int)
    requires n > 0
    ensures (s / n) * n <= s < (s / n) * n + n
    ensures 0 <= s ==> 0 <= s / n
  {
  }
}
