/** The 16-bit reversal by four rounds of masked swaps (stb_image, `stbi__bitreverse16`). */
module BitReverse {
  import opened Bits

  /** One round: the bits under `hi` move down by `d`, those under `lo` move up by `d`. */
  function SwapRound(n: nat, hi: nat, lo: nat, d: nat): nat {
    Or(Shr(And(n, hi), d), Shl(And(n, lo), d))
  }

  function BitReverse16(n: nat): nat {
    var n1 := SwapRound(n, 0xAAAA, 0x5555, 1);
    var n2 := SwapRound(n1, 0xCCCC, 0x3333, 2);
    var n3 := SwapRound(n2, 0xF0F0, 0x0F0F, 4);
    SwapRound(n3, 0xFF00, 0x00FF, 8)
  }

  function BitReverseC(v: nat, bits: nat): nat
    requires bits <= 16
  {
    Shr(BitReverse16(v), 16 - bits)
  }

  /** Bit `k` of a 16-bit constant written with the hexadecimal digits `h3 h2 h1 h0`. */
  lemma HexBit(h3: nat, h2: nat, h1: nat, h0: nat, k: nat)
    requires h0 < 16 && h1 < 16 && h2 < 16 && h3 < 16
    ensures BitOf(h0 + 16 * h1 + 256 * h2 + 4096 * h3, k)
         == if k < 4 then BitOf(h0, k) else if k < 8 then BitOf(h1, k - 4)
            else if k < 12 then BitOf(h2, k - 8) else BitOf(h3, k - 12)
  {
    NibbleBit(h0, h1 + 16 * h2 + 256 * h3, k);
    if k >= 4 {
      NibbleBit(h1, h2 + 16 * h3, k - 4);
      if k >= 8 {
        NibbleBit(h2, h3, k - 8);
      }
    }
  }

  lemma NibbleBit(h: nat, q: nat, k: nat)
    requires h < 16
    ensures BitOf(h + 16 * q, k) == if k < 4 then BitOf(h, k) else BitOf(q, k - 4)
  {
    var n := h + 16 * q;
    assert n / 2 == h / 2 + 8 * q && n / 2 / 2 == h / 2 / 2 + 4 * q;
    assert n / 2 / 2 / 2 == h / 2 / 2 / 2 + 2 * q && n / 2 / 2 / 2 / 2 == q;
    if k == 0 {
    } else if k == 1 {
      assert BitOf(n, 1) == BitOf(n / 2, 0);
    } else if k == 2 {
      assert BitOf(n, 2) == BitOf(n / 2, 1) == BitOf(n / 2 / 2, 0);
      assert BitOf(h, 2) == BitOf(h / 2, 1) == BitOf(h / 2 / 2, 0);
    } else if k == 3 {
      assert BitOf(n, 3) == BitOf(n / 2, 2) == BitOf(n / 2 / 2, 1) == BitOf(n / 2 / 2 / 2, 0);
      assert BitOf(h, 3) == BitOf(h / 2, 2) == BitOf(h / 2 / 2, 1) == BitOf(h / 2 / 2 / 2, 0);
    } else {
      assert BitOf(n, k) == BitOf(n / 2, k - 1) == BitOf(n / 2 / 2, k - 2) == BitOf(n / 2 / 2 / 2, k - 3);
    }
  }

  lemma Digits()
    ensures !BitOf(0, 0) && !BitOf(0, 1) && !BitOf(0, 2) && !BitOf(0, 3)
    ensures BitOf(3, 0) && BitOf(3, 1) && !BitOf(3, 2) && !BitOf(3, 3)
    ensures BitOf(5, 0) && !BitOf(5, 1) && BitOf(5, 2) && !BitOf(5, 3)
    ensures !BitOf(10, 0) && BitOf(10, 1) && !BitOf(10, 2) && BitOf(10, 3)
    ensures !BitOf(12, 0) && !BitOf(12, 1) && BitOf(12, 2) && BitOf(12, 3)
    ensures BitOf(15, 0) && BitOf(15, 1) && BitOf(15, 2) && BitOf(15, 3)
  {}

  lemma Pow2Sixteen()
    ensures Pow2(8) == 0x100 && Pow2(16) == 0x10000
  {
    assert Pow2(4) == 16;
    assert Pow2(8) == 16 * Pow2(4);
    assert Pow2(12) == 16 * Pow2(8);
    assert Pow2(16) == 16 * Pow2(12);
  }

  /** A round takes bit `k` from `k + d` or from `k - d`, as the masks say. */
  lemma RoundBit(n: nat, hi: nat, lo: nat, d: nat, k: nat)
    ensures BitOf(SwapRound(n, hi, lo, d), k)
         == ((BitOf(hi, k + d) && BitOf(n, k + d)) || (k >= d && BitOf(lo, k - d) && BitOf(n, k - d)))
  {
    OrBit(Shr(And(n, hi), d), Shl(And(n, lo), d), k);
    ShrBit(And(n, hi), d, k);
    AndBit(n, hi, d + k);
    ShlBit(And(n, lo), d, k);
    if k >= d {
      AndBit(n, lo, k - d);
    }
  }

  lemma HighMask(m: nat, k: nat)
    requires m < 0x10000 && k >= 16
    ensures !BitOf(m, k)
  {
    Pow2Sixteen();
    HighBitsZero(m, 16, k);
  }

  function FromByte(k: nat): nat { if k >= 8 then k - 8 else k + 8 }

  function FromNibble(k: nat): nat { if k % 8 >= 4 then k - 4 else k + 4 }

  function FromPair(k: nat): nat { if k % 4 >= 2 then k - 2 else k + 2 }

  function FromBit(k: nat): nat { if k % 2 == 1 then k - 1 else k + 1 }

  lemma SwapBits(n: nat, k: nat)
    requires k < 16
    ensures BitOf(SwapRound(n, 0xAAAA, 0x5555, 1), k) == BitOf(n, FromBit(k))
  {
    RoundBit(n, 0xAAAA, 0x5555, 1, k);
    Digits();
    HexBit(10, 10, 10, 10, k + 1);
    if k == 15 {
      HighMask(0xAAAA, 16);
    }
    if k >= 1 {
      HexBit(5, 5, 5, 5, k - 1);
    }
  }

  lemma SwapPairs(n: nat, k: nat)
    requires k < 16
    ensures BitOf(SwapRound(n, 0xCCCC, 0x3333, 2), k) == BitOf(n, FromPair(k))
  {
    RoundBit(n, 0xCCCC, 0x3333, 2, k);
    Digits();
    HexBit(12, 12, 12, 12, k + 2);
    if k >= 14 {
      HighMask(0xCCCC, k + 2);
    }
    if k >= 2 {
      HexBit(3, 3, 3, 3, k - 2);
    }
  }

  lemma SwapNibbles(n: nat, k: nat)
    requires k < 16
    ensures BitOf(SwapRound(n, 0xF0F0, 0x0F0F, 4), k) == BitOf(n, FromNibble(k))
  {
    RoundBit(n, 0xF0F0, 0x0F0F, 4, k);
    Digits();
    HexBit(15, 0, 15, 0, k + 4);
    if k >= 12 {
      HighMask(0xF0F0, k + 4);
    }
    if k >= 4 {
      HexBit(0, 15, 0, 15, k - 4);
    }
  }

  lemma SwapBytes(n: nat, k: nat)
    ensures BitOf(SwapRound(n, 0xFF00, 0x00FF, 8), k)
         == (k < 16 && BitOf(n, FromByte(k)))
  {
    RoundBit(n, 0xFF00, 0x00FF, 8, k);
    Digits();
    HexBit(15, 15, 0, 0, k + 8);
    if k >= 8 {
      HighMask(0xFF00, k + 8);
      Pow2Sixteen();
      if k < 16 {
        HexBit(0, 0, 15, 15, k - 8);
      } else {
        HighBitsZero(0x00FF, 8, k - 8);
      }
    }
  }

  lemma FlipAll(k: nat)
    requires k < 16
    ensures FromByte(k) < 16 && FromNibble(FromByte(k)) < 16 && FromPair(FromNibble(FromByte(k))) < 16
    ensures FromBit(FromPair(FromNibble(FromByte(k)))) == 15 - k
  {}

  /** The four rounds reverse the 16 low bits, whatever lies above them. */
  lemma ReverseBit(n: nat, k: nat)
    ensures BitOf(BitReverse16(n), k) == (k < 16 && BitOf(n, 15 - k))
  {
    var n1 := SwapRound(n, 0xAAAA, 0x5555, 1);
    var n2 := SwapRound(n1, 0xCCCC, 0x3333, 2);
    var n3 := SwapRound(n2, 0xF0F0, 0x0F0F, 4);
    SwapBytes(n3, k);
    if k < 16 {
      FlipAll(k);
      SwapNibbles(n2, FromByte(k));
      SwapPairs(n1, FromNibble(FromByte(k)));
      SwapBits(n, FromPair(FromNibble(FromByte(k))));
    }
  }

  /** `stbi__bit_reverse` reads the low `bits` bits of `v` in the opposite order. */
  lemma {:induction false} BitReverseIsMsb(v: nat, bits: nat)
    requires bits <= 16 && v < Pow2(bits)
    ensures BitReverseC(v, bits) == Msb(v, bits)
  {
    forall k: nat ensures BitOf(BitReverseC(v, bits), k) == BitOf(Msb(v, bits), k) {
      ShrBit(BitReverse16(v), 16 - bits, k);
      ReverseBit(v, 16 - bits + k);
      MsbBit(v, bits, k);
    }
    SameBits(BitReverseC(v, bits), Msb(v, bits));
  }

  /** At the full width the bits above the 16th are ignored: a 32-bit reservoir can be passed as is. */
  lemma {:induction false} BitReverse16IsMsb(v: nat)
    ensures BitReverseC(v, 16) == Msb(v, 16)
  {
    forall k: nat ensures BitOf(BitReverse16(v), k) == BitOf(Msb(v, 16), k) {
      ReverseBit(v, k);
      MsbBit(v, 16, k);
    }
    SameBits(BitReverse16(v), Msb(v, 16));
  }
}
