/** `Math.Min`, and facts about multiplication, division and remainder that the solver does not find unaided. */
module Arith {

  /** `Math.Min(a, b)`. */
  function Min(a: int, b: int): (m: int)
    ensures m <= a && m <= b && (m == a || m == b)
  {
    if a < b then a else b
  }

  lemma MulMonotone(a: int, b: int, c: nat)
    requires a <= b
    ensures a * c <= b * c
  {
  }

  /** Positional notation is unambiguous: a leading digit and a remainder below the base. */
  lemma DigitsEqual(hi: int, lo: int, hi': int, lo': int, base: int)
    requires 0 <= lo < base && 0 <= lo' < base
    requires hi * base + lo == hi' * base + lo'
    ensures hi == hi' && lo == lo'
  {
    if hi < hi' {
      MulMonotone(hi + 1, hi', base);
    } else if hi' < hi {
      MulMonotone(hi' + 1, hi, base);
    }
  }

  /** Division by d undoes q * d + s for a remainder s below d. */
  lemma QuotRem(q: int, s: int, d: int)
    requires 0 <= s < d
    ensures (q * d + s) / d == q && (q * d + s) % d == s
  {
    var n := q * d + s;
    DigitsEqual(n / d, n % d, q, s, d);
  }
}
