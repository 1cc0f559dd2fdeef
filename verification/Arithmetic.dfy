/** Powers of two, the width of a word, and division by a variable. */
module Arithmetic {
  const U64: nat := 0x1_0000_0000_0000_0000

  function Pow2(n: nat): (p: nat)
    ensures p >= 1
  {
    if n == 0 then 1 else 2 * Pow2(n - 1)
  }

  lemma MultiplesGrow(m: nat, a: nat, b: nat)
    ensures a <= b ==> m * a <= m * b
    ensures a + 1 <= b ==> m * a + m <= m * b
  {
    if a + 1 <= b {
      assert m * b == m * (a + 1) + m * (b - (a + 1));
    }
  }

  lemma DivisionIsUnique(x: nat, c: nat, q: nat, r: nat)
    requires c > 0 && r < c && x == c * q + r
    ensures x / c == q && x % c == r
  {
    var p := x / c;
    assert x == c * p + x % c;
    MultiplesGrow(c, p, q);
    MultiplesGrow(c, q, p);
  }

  lemma DivisionGrows(a: nat, b: nat, c: nat)
    requires c > 0 && a <= b
    ensures a / c <= b / c
  {
    assert a == c * (a / c) + a % c && b == c * (b / c) + b % c;
    MultiplesGrow(c, b / c, a / c);
  }

  lemma DivisionByWholeStep(a: nat, c: nat)
    requires c > 0
    ensures (a + c) / c == a / c + 1
  {
    assert a == c * (a / c) + a % c;
    assert c * (a / c + 1) == c * (a / c) + c;
    DivisionIsUnique(a + c, c, a / c + 1, a % c);
  }
}
