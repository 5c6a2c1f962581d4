/** A byte sequence read as an endless bit stream, least significant bit of each byte first and
    zero bytes past the end (RFC 1951 section 3.1.1 for the packing order). */
module BitStream {
  import opened Bits

  type Byte = n: nat | n < 256

  function ByteAt(input: seq<Byte>, i: nat): Byte {
    if i < |input| then input[i] else 0
  }

  predicate StreamBit(input: seq<Byte>, p: nat) {
    BitOf(ByteAt(input, p / 8), p % 8)
  }

  /** The `n` bits from position `p`, first bit least significant. */
  function Lsb(input: seq<Byte>, p: nat, n: nat): (r: nat)
    ensures r < Pow2(n)
    decreases n, p
  {
    if n == 0 then 0 else Digit(StreamBit(input, p)) + 2 * Lsb(input, p + 1, n - 1)
  }

  lemma {:induction false} LsbBit(input: seq<Byte>, p: nat, n: nat, k: nat)
    ensures BitOf(Lsb(input, p, n), k) == (k < n && StreamBit(input, p + k))
    decreases n
  {
    if n == 0 {
      BitOfZero(k);
    } else if k > 0 {
      LsbBit(input, p + 1, n - 1, k - 1);
    }
  }

  lemma {:induction false} LsbByte(input: seq<Byte>, f: nat)
    ensures Lsb(input, 8 * f, 8) == ByteAt(input, f)
  {
    assert Pow2(4) == 16 && Pow2(8) == 16 * Pow2(4);
    forall k: nat | k < 8
      ensures BitOf(Lsb(input, 8 * f, 8), k) == BitOf(ByteAt(input, f), k)
    {
      LsbBit(input, 8 * f, 8, k);
      assert (8 * f + k) / 8 == f && (8 * f + k) % 8 == k;
    }
    SameLowBits(Lsb(input, 8 * f, 8), ByteAt(input, f), 8);
  }

  lemma {:induction false} LsbShr(input: seq<Byte>, p: nat, n: nat, k: nat)
    requires k <= n
    ensures Shr(Lsb(input, p, n), k) == Lsb(input, p + k, n - k)
    decreases n
  {
    if k > 0 {
      assert Lsb(input, p, n) / 2 == Lsb(input, p + 1, n - 1);
      LsbShr(input, p + 1, n - 1, k - 1);
    }
  }

  lemma {:induction false} LsbLow(input: seq<Byte>, p: nat, n: nat, k: nat)
    requires k <= n
    ensures Low(Lsb(input, p, n), k) == Lsb(input, p, k)
    decreases n
  {
    if k > 0 {
      assert Lsb(input, p, n) / 2 == Lsb(input, p + 1, n - 1);
      LsbLow(input, p + 1, n - 1, k - 1);
    }
  }

  /** Or-ing the next bits above the ones held appends them. */
  lemma {:induction false} LsbAppend(input: seq<Byte>, p: nat, n: nat, m: nat)
    ensures Or(Lsb(input, p, n), Shl(Lsb(input, p + n, m), n)) == Lsb(input, p, n + m)
  {
    var a, b := Lsb(input, p, n), Lsb(input, p + n, m);
    forall k: nat ensures BitOf(Or(a, Shl(b, n)), k) == BitOf(Lsb(input, p, n + m), k) {
      OrBit(a, Shl(b, n), k);
      ShlBit(b, n, k);
      LsbBit(input, p, n, k);
      LsbBit(input, p, n + m, k);
      if k >= n {
        LsbBit(input, p + n, m, k - n);
      }
    }
    SameBits(Or(a, Shl(b, n)), Lsb(input, p, n + m));
  }

  lemma {:induction false} LsbSplit(input: seq<Byte>, p: nat, n: nat, m: nat)
    ensures Lsb(input, p, n + m) == Lsb(input, p, n) + Shl(Lsb(input, p + n, m), n)
    decreases n
  {
    hide Pow2, ByteAt, StreamBit;
    if n > 0 {
      LsbSplit(input, p + 1, n - 1, m);
      assert Lsb(input, p, n + m) == Digit(StreamBit(input, p)) + 2 * Lsb(input, p + 1, n - 1 + m);
    }
  }

  lemma ShlByte(b: nat)
    ensures Shl(b, 8) == 256 * b
  {
    assert Pow2(4) == 16 && Pow2(8) == 16 * Pow2(4);
    ShlIsMul(b, 8);
  }

  /** Two bytes on a byte boundary form a little-endian 16-bit number. */
  lemma {:induction false} LsbWord(input: seq<Byte>, f: nat)
    ensures Lsb(input, 8 * f, 16) == ByteAt(input, f + 1) * 256 + ByteAt(input, f)
  {
    LsbByte(input, f);
    LsbByte(input, f + 1);
    LsbSplit(input, 8 * f, 8, 8);
    ShlByte(ByteAt(input, f + 1));
  }

  /** A byte or-ed above the bits held extends them by eight. */
  lemma {:induction false} AppendByte(input: seq<Byte>, f: nat, n: nat)
    requires n <= 8 * f
    ensures Or(Lsb(input, 8 * f - n, n), Shl(ByteAt(input, f), n)) == Lsb(input, 8 * f - n, n + 8)
  {
    LsbByte(input, f);
    LsbAppend(input, 8 * f - n, n, 8);
  }
}
