/** Facts about products, quotients and remainders that the solver needs spelled out. */
module Arith {

  lemma MulMono(a: int, b: int, m: nat)
    requires a <= b
    ensures a * m <= b * m
  {
  }

  lemma MulStep(k: int, m: int)
    ensures (k + 1) * m == k * m + m
  {
  }

  lemma MulOrder(a: int, b: int, m: nat)
    ensures a <= b ==> a * m <= b * m
  {
  }

  lemma MulAway(k: int, b: nat)
    ensures k >= 1 ==> k * b >= b
    ensures k <= -1 ==> k * b + b <= 0
  {
  }

  lemma DivModUnique(p: int, q: int, r: nat, b: nat)
    requires r < b && p == q * b + r
    ensures p / b == q && p % b == r
  {
    var k := p / b - q;
    assert k * b == r - p % b by {
      assert p == (p / b) * b + p % b;
      assert k * b == (p / b) * b - q * b;
    }
    MulAway(k, b);
  }

  lemma DivBelow(p: nat, n: nat, b: nat)
    requires b > 0 && p < n * b
    ensures p / b < n
  {
    assert p == (p / b) * b + p % b;
    MulOrder(n, p / b, b);
  }

  lemma DivModSame(c: nat, d: nat, b: nat)
    requires b > 0 && c / b == d / b && c % b == d % b
    ensures c == d
  {
    assert c == (c / b) * b + c % b;
    assert d == (d / b) * b + d % b;
  }

  /** The product as repeated addition, which keeps proofs about steps of a fixed size linear. */
  function Times(a: nat, m: nat): nat {
    if a == 0 then 0 else m + Times(a - 1, m)
  }

  lemma {:induction false} TimesIs(a: nat, m: nat)
    ensures Times(a, m) == a * m
  {
    if a > 0 {
      TimesIs(a - 1, m);
      MulStep(a - 1, m);
    }
  }

  lemma {:induction false} TimesMono(a: nat, b: nat, m: nat)
    requires a <= b
    ensures Times(a, m) <= Times(b, m)
  {
    if a < b { TimesMono(a, b - 1, m); }
  }

  lemma TimesLess(a: nat, b: nat, m: nat)
    requires Times(a, m) < Times(b, m)
    ensures a < b
  {
    if b <= a { TimesMono(b, a, m); }
  }

  function Pow2(n: nat): (r: nat)
    ensures r > 0
  {
    if n == 0 then 1 else 2 * Pow2(n - 1)
  }

  lemma {:induction false} Pow2Add(m: nat, n: nat)
    ensures Pow2(m + n) == Pow2(m) * Pow2(n)
  {
    if m > 0 {
      Pow2Add(m - 1, n);
      MulTwice(Pow2(m - 1), Pow2(n));
    }
  }

  lemma MulTwice(a: int, b: int)
    ensures 2 * (a * b) == (2 * a) * b
  {
  }

  /** Unsigned 32-bit arithmetic. */
  function U32(x: int): nat { x % 0x1_0000_0000 }
}
