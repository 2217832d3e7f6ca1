/** Small facts about products and floored quotients, for a positive divisor. */
module Arith {
  lemma {:induction false} MulMono(a: int, b: int, e: int)
    requires a <= b && e >= 0
    ensures a * e <= b * e
  {
  }

  lemma {:induction false} MulNext(a: int, e: int)
    ensures (a + 1) * e == a * e + e
    ensures (a - 1) * e == a * e - e
  {
  }

  lemma {:induction false} DivFloor(x: int, e: int)
    requires e >= 1
    ensures (x / e) * e <= x < (x / e) * e + e
  {
    assert x == (x / e) * e + x % e;
  }

  /** The quotient is the greatest number of divisors that fits. */
  lemma {:induction false} DivGreatest(x: int, e: int, k: int)
    requires e >= 1
    ensures k <= x / e <==> k * e <= x
  {
    DivFloor(x, e);
    if k <= x / e {
      MulMono(k, x / e, e);
    } else {
      MulMono(x / e + 1, k, e);
      MulNext(x / e, e);
    }
  }

  lemma {:induction false} DivShift(x: int, e: int)
    requires e >= 1
    ensures (x - e) / e == x / e - 1
  {
    var q := x / e;
    DivFloor(x, e);
    MulNext(q, e);
    DivGreatest(x - e, e, q - 1);
    DivGreatest(x - e, e, q);
  }
}
