/** Facts of multiplication and integer division that the solver needs to be told. */
module Arithmetic {

  lemma MulMono(b: nat, x: int, y: int)
    requires x <= y
    ensures x * b <= y * b
  {}

  lemma Distribute(x: int, y: int, m: int)
    ensures (x - y) * m == x * m - y * m
  {}

  lemma Sum(x: int, y: int, m: int)
    ensures (x + y) * m == x * m + y * m
  {}

  lemma MulStep(x: int, y: int, m: nat)
    ensures x < y ==> x * m + m <= y * m
  {
    if x < y {
      MulMono(m, x + 1, y);
      Sum(x, 1, m);
    }
  }

  /** Quotient and remainder are determined by what they satisfy. */
  lemma DivModUnique(a: int, m: nat, q: int, r: nat)
    requires m > 0 && a == q * m + r && r < m
    ensures a / m == q && a % m == r
  {
    var p := a / m;
    assert a == m * p + a % m;
    MulStep(p, q, m);
    MulStep(q, p, m);
  }

  lemma Mod8(n: nat)
    ensures n % 4 == n % 8 % 4 && n % 2 == n % 8 % 2
  {
    var k, r := n / 8, n % 8;
    assert n == 8 * k + r;
    DivModUnique(n, 4, 2 * k + r / 4, r % 4);
    DivModUnique(n, 2, 4 * k + r / 2, r % 2);
  }

  /** A product that proofs about offsets can treat as a name. */
  function Times(n: nat, size: nat): nat {
    n * size
  }

  lemma TimesIs(n: nat, size: nat)
    ensures Times(n, size) == n * size
  {}

  lemma TimesSum(m: nat, n: nat, size: nat)
    ensures Times(m + n, size) == Times(m, size) + Times(n, size)
  {
    Sum(m, n, size);
  }

  lemma TimesSucc(n: nat, size: nat)
    ensures Times(n + 1, size) == Times(n, size) + size
    ensures Times(0, size) == 0 && Times(1, size) == size
  {
    Sum(n, 1, size);
  }

  lemma TimesMono(m: nat, n: nat, size: nat)
    ensures m <= n ==> Times(m, size) <= Times(n, size)
    ensures m < n ==> Times(m, size) + size <= Times(n, size)
  {
    if m < n {
      MulMono(size, m + 1, n);
      Sum(m, 1, size);
    }
  }

  lemma TimesOrder(m: nat, n: nat, size: nat)
    requires size > 0
    ensures m < n <==> Times(m, size) < Times(n, size)
  {
    TimesMono(m, n, size);
    TimesMono(n, m, size);
  }
}
