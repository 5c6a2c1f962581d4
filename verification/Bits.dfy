/** Unsigned machine words as natural numbers, with the bitwise operators of C written out as
    recursions on binary digits. A word of `w` bits is a number below `Pow2(w)`. */
module Bits {

  function Pow2(n: nat): (r: nat)
    ensures r > 0
  {
    if n == 0 then 1 else 2 * Pow2(n - 1)
  }

  /** The value of a single binary digit. */
  function Digit(b: bool): nat {
    if b then 1 else 0
  }

  /** Bit `k` of `n`, bit 0 being the least significant. */
  predicate BitOf(n: nat, k: nat) {
    if k == 0 then n % 2 == 1 else BitOf(n / 2, k - 1)
  }

  /** `a & b` */
  function And(a: nat, b: nat): nat {
    if a == 0 || b == 0 then 0
    else 2 * And(a / 2, b / 2) + Digit(a % 2 == 1 && b % 2 == 1)
  }

  /** `a | b` */
  function Or(a: nat, b: nat): nat {
    if a == 0 then b
    else if b == 0 then a
    else 2 * Or(a / 2, b / 2) + Digit(a % 2 == 1 || b % 2 == 1)
  }

  /** `~a` on `w`-bit words */
  function Not(a: nat, w: nat): nat {
    if w == 0 then 0 else 2 * Not(a / 2, w - 1) + Digit(a % 2 == 0)
  }

  /** `a >> k` */
  function Shr(a: nat, k: nat): nat {
    if k == 0 then a else Shr(a / 2, k - 1)
  }

  /** `a << k` without truncation */
  function Shl(a: nat, k: nat): nat {
    if k == 0 then a else 2 * Shl(a, k - 1)
  }

  /** The `k` low bits of `a`, that is `a` truncated to a `k`-bit word. */
  function Low(a: nat, k: nat): (r: nat)
    ensures r < Pow2(k)
  {
    if k == 0 then 0 else a % 2 + 2 * Low(a / 2, k - 1)
  }

  // ----- bits of the operators -----

  lemma BitOfZero(k: nat)
    ensures !BitOf(0, k)
  {}

  lemma AndBit(a: nat, b: nat, k: nat)
    ensures BitOf(And(a, b), k) == (BitOf(a, k) && BitOf(b, k))
  {
    if a == 0 || b == 0 {
      BitOfZero(k);
    } else if k > 0 {
      AndBit(a / 2, b / 2, k - 1);
    }
  }

  lemma {:induction false} Pow2Bit(b: nat, k: nat)
    ensures BitOf(Pow2(b), k) == (k == b)
  {
    if b > 0 {
      if k > 0 {
        assert Pow2(b) / 2 == Pow2(b - 1);
        Pow2Bit(b - 1, k - 1);
      }
    } else if k > 0 {
      BitOfZero(k - 1);
    }
  }

  lemma OrBit(a: nat, b: nat, k: nat)
    ensures BitOf(Or(a, b), k) == (BitOf(a, k) || BitOf(b, k))
  {
    if a == 0 || b == 0 {
      BitOfZero(k);
    } else if k > 0 {
      OrBit(a / 2, b / 2, k - 1);
    }
  }

  lemma NotBit(a: nat, w: nat, k: nat)
    ensures BitOf(Not(a, w), k) == (k < w && !BitOf(a, k))
  {
    if w == 0 {
      BitOfZero(k);
    } else if k > 0 {
      NotBit(a / 2, w - 1, k - 1);
    }
  }

  lemma ShrBit(a: nat, j: nat, k: nat)
    ensures BitOf(Shr(a, j), k) == BitOf(a, j + k)
  {
    if j > 0 {
      ShrBit(a / 2, j - 1, k);
    }
  }

  lemma ShlBit(a: nat, j: nat, k: nat)
    ensures BitOf(Shl(a, j), k) == (k >= j && BitOf(a, k - j))
  {
    if j > 0 && k > 0 {
      ShlBit(a, j - 1, k - 1);
    }
  }

  lemma LowBit(a: nat, j: nat, k: nat)
    ensures BitOf(Low(a, j), k) == (k < j && BitOf(a, k))
  {
    if j == 0 {
      BitOfZero(k);
    } else if k > 0 {
      LowBit(a / 2, j - 1, k - 1);
    }
  }

  // ----- words are determined by their bits -----

  lemma HighBitsZero(a: nat, w: nat, k: nat)
    requires a < Pow2(w) && k >= w
    ensures !BitOf(a, k)
  {
    if w == 0 {
      BitOfZero(k);
    } else {
      HighBitsZero(a / 2, w - 1, k - 1);
    }
  }

  lemma SameBits(a: nat, b: nat)
    requires forall k: nat :: BitOf(a, k) == BitOf(b, k)
    ensures a == b
    decreases a + b
  {
    if a != 0 || b != 0 {
      assert BitOf(a, 0) == BitOf(b, 0);
      forall k: nat ensures BitOf(a / 2, k) == BitOf(b / 2, k) {
        assert BitOf(a, k + 1) == BitOf(b, k + 1);
      }
      SameBits(a / 2, b / 2);
    }
  }

  lemma SameLowBits(a: nat, b: nat, w: nat)
    requires a < Pow2(w) && b < Pow2(w)
    requires forall k: nat :: k < w ==> BitOf(a, k) == BitOf(b, k)
    ensures a == b
  {
    forall k: nat ensures BitOf(a, k) == BitOf(b, k) {
      if k >= w {
        HighBitsZero(a, w, k);
        HighBitsZero(b, w, k);
      }
    }
    SameBits(a, b);
  }

  lemma BitsBound(a: nat, w: nat)
    requires forall k: nat :: k >= w ==> !BitOf(a, k)
    ensures a < Pow2(w)
  {
    forall k: nat ensures BitOf(a, k) == BitOf(Low(a, w), k) {
      LowBit(a, w, k);
    }
    SameBits(a, Low(a, w));
  }

  lemma LowId(a: nat, w: nat)
    requires a < Pow2(w)
    ensures Low(a, w) == a
  {
    if w > 0 {
      LowId(a / 2, w - 1);
    }
  }

  lemma LowLow(a: nat, j: nat, k: nat)
    requires j <= k
    ensures Low(Low(a, k), j) == Low(a, j)
  {
    if j > 0 {
      assert Low(a, k) / 2 == Low(a / 2, k - 1);
      LowLow(a / 2, j - 1, k - 1);
    }
  }

  lemma LowAddPow2(a: nat, k: nat)
    ensures Low(a + Pow2(k), k) == Low(a, k)
  {
    if k > 0 {
      assert (a + Pow2(k)) / 2 == a / 2 + Pow2(k - 1);
      LowAddPow2(a / 2, k - 1);
    }
  }

  /** Numbers that agree on their `k` low bits are at least `1 << k` apart. */
  lemma LowApart(a: nat, b: nat, k: nat)
    requires a < b && Low(a, k) == Low(b, k)
    ensures a + Pow2(k) <= b
  {
    if k > 0 {
      assert a % 2 == b % 2;
      LowApart(a / 2, b / 2, k - 1);
    }
  }

  /** `a & ((1 << k) - 1)` keeps the `k` low bits. */
  lemma AndMask(a: nat, k: nat)
    ensures And(a, Pow2(k) - 1) == Low(a, k)
  {
    if k > 0 {
      AndMask(a / 2, k - 1);
      assert (Pow2(k) - 1) / 2 == Pow2(k - 1) - 1;
      if a == 0 {
        LowId(0, k);
      }
    }
  }

  // ----- the operators as arithmetic -----

  lemma Pow2Add(a: nat, b: nat)
    ensures Pow2(a + b) == Pow2(a) * Pow2(b)
  {
    if a > 0 {
      Pow2Add(a - 1, b);
      assert Pow2(a + b) == 2 * Pow2((a - 1) + b);
    }
  }

  lemma Pow2Mono(a: nat, b: nat)
    requires a <= b
    ensures Pow2(a) <= Pow2(b)
  {
    if a < b {
      Pow2Mono(a, b - 1);
    }
  }

  lemma ShlIsMul(a: nat, k: nat)
    ensures Shl(a, k) == a * Pow2(k)
  {
    if k > 0 {
      ShlIsMul(a, k - 1);
    }
  }

  lemma ShrBound(a: nat, k: nat, w: nat)
    requires a < Pow2(k + w)
    ensures Shr(a, k) < Pow2(w)
  {
    if k > 0 {
      ShrBound(a / 2, k - 1, w);
    }
  }

  /** `x >> k < e` compares `x` with `e << k`: the preshifted comparison. */
  lemma ShrLess(x: nat, k: nat, e: nat)
    ensures Shr(x, k) < e <==> x < Shl(e, k)
  {
    if k > 0 {
      ShrLess(x / 2, k - 1, e);
    }
  }

  lemma ShrShr(a: nat, j: nat, k: nat)
    ensures Shr(Shr(a, j), k) == Shr(a, j + k)
  {
    if j > 0 {
      ShrShr(a / 2, j - 1, k);
    }
  }

  // ----- bit reversal -----

  /** The first `n` bits of `v`, least significant first, read as a most-significant-first number. */
  function Msb(v: nat, n: nat): (r: nat)
    ensures r < Pow2(n)
  {
    if n == 0 then 0 else 2 * Msb(v, n - 1) + Digit(BitOf(v, n - 1))
  }

  lemma MsbBit(v: nat, n: nat, k: nat)
    ensures BitOf(Msb(v, n), k) == (k < n && BitOf(v, n - 1 - k))
  {
    if n == 0 {
      BitOfZero(k);
    } else if k > 0 {
      assert Msb(v, n) / 2 == Msb(v, n - 1);
      MsbBit(v, n - 1, k - 1);
    }
  }

  /** Dropping the last bits read. */
  lemma MsbShr(v: nat, n: nat, k: nat)
    requires k <= n
    ensures Shr(Msb(v, n), k) == Msb(v, n - k)
  {
    if k > 0 {
      assert Msb(v, n) / 2 == Msb(v, n - 1);
      MsbShr(v, n - 1, k - 1);
    }
  }

  lemma MsbLow(v: nat, n: nat, w: nat)
    requires n <= w
    ensures Msb(Low(v, w), n) == Msb(v, n)
  {
    if n > 0 {
      LowBit(v, w, n - 1);
      MsbLow(v, n - 1, w);
    }
  }

  /** Reversal is an involution on `n`-bit words. */
  lemma MsbMsb(v: nat, n: nat)
    ensures Msb(Msb(v, n), n) == Low(v, n)
  {
    forall k: nat ensures BitOf(Msb(Msb(v, n), n), k) == BitOf(Low(v, n), k) {
      MsbBit(Msb(v, n), n, k);
      LowBit(v, n, k);
      if k < n {
        MsbBit(v, n, n - 1 - k);
      }
    }
    SameBits(Msb(Msb(v, n), n), Low(v, n));
  }
}
