/** A zlib stream with one block in the fixed codes, decoded by hand: `a`, then a copy of length 3 and distance 1. */
module InflateExample {
  import opened Bits
  import opened BitStream
  import opened HuffmanCode
  import opened Deflate
  import opened DeflateTables
  import InflateFailure
  import opened Inflate

  function Input(): seq<Byte> {
    [0x78, 0x01, 0x4b, 0x04, 0x02, 0x00, 0x03, 0xce, 0x01, 0x85]
  }

  lemma ThirdByte()
    ensures BitOf(0x4b, 0) && BitOf(0x4b, 1) && !BitOf(0x4b, 2) && BitOf(0x4b, 3)
    ensures !BitOf(0x4b, 4) && !BitOf(0x4b, 5) && BitOf(0x4b, 6) && !BitOf(0x4b, 7)
  {}

  lemma LaterBytes(j: nat, k: nat)
    requires j < 3 && k < 8
    ensures BitOf([4, 2, 0][j], k) == (k == 2 - j && j < 2)
  {
    assert Pow2(0) == 1 && Pow2(1) == 2 && Pow2(2) == 4;
    if j == 2 {
      BitOfZero(k);
    } else {
      Pow2Bit(2 - j, k);
    }
  }

  /** The bits from the block header to the end of the block. */
  lemma InputBit(k: nat)
    requires 16 <= k < 48
    ensures StreamBit(Input(), k) == (k in {16, 17, 19, 22, 26, 33})
  {
    if k < 24 {
      ThirdByte();
      assert ByteAt(Input(), k / 8) == 0x4b;
    } else {
      assert ByteAt(Input(), k / 8) == [4, 2, 0][k / 8 - 3];
      LaterBytes(k / 8 - 3, k % 8);
    }
  }

  function CodeAt(p: nat, n: nat): nat {
    if n == 0 then 0 else 2 * CodeAt(p, n - 1) + Digit(p + n - 1 in {16, 17, 19, 22, 26, 33})
  }

  lemma {:induction false} MsbIsCode(p: nat, n: nat)
    requires 16 <= p && p + n <= 48 && n <= 16
    ensures Msb(Lsb(Input(), p, 16), n) == CodeAt(p, n)
  {
    hide Lsb, StreamBit;
    if n > 0 {
      MsbIsCode(p, n - 1);
      LsbBit(Input(), p, 16, n - 1);
      InputBit(p + n - 1);
    }
  }

  lemma Symbol(p: nat, lens: seq<nat>, sym: nat)
    requires 16 <= p && sym < |lens| && 0 < lens[sym] <= 16 && p + lens[sym] <= 48
    requires CodeAt(p, lens[sym]) == Code(lens, sym)
    ensures SymAt(Input(), p, lens, sym)
  {
    hide Lsb, Code, CodeAt;
    MsbIsCode(p, lens[sym]);
  }

  lemma Codes()
    ensures CodeAt(19, 8) == 145 && CodeAt(27, 7) == 1 && CodeAt(34, 5) == 0 && CodeAt(39, 7) == 0
  {
    assert CodeAt(19, 4) == 9;
    assert CodeAt(27, 4) == 0;
    assert CodeAt(39, 4) == 0;
  }

  lemma {:induction false} Symbols()
    ensures SymAt(Input(), 19, FixedLit(), 97) && SymAt(Input(), 27, FixedLit(), 257)
    ensures SymAt(Input(), 34, FixedDist(), 0) && SymAt(Input(), 39, FixedLit(), END_OF_BLOCK)
  {
    hide SymAt, Code, CodeAt, FixedLit, FixedDist;
    Codes();
    FixedCodes(97);
    FixedCodes(257);
    FixedCodes(256);
    FixedDistances(0);
    Symbol(19, FixedLit(), 97);
    Symbol(27, FixedLit(), 257);
    Symbol(34, FixedDist(), 0);
    Symbol(39, FixedLit(), 256);
  }

  function Tokens(): seq<Token> {
    [Literal(97), Copy(257, 0, 0, 0)]
  }

  lemma {:induction false} DataHere()
    ensures DataAt(Input(), 19, FixedLit(), FixedDist(), Tokens()) && DataBits(FixedLit(), FixedDist(), Tokens()) == 27
  {
    hide SymAt, Code, FixedLit, FixedDist, LengthExtra, DistExtra;
    Symbols();
    FixedCodes(97);
    FixedCodes(257);
    FixedCodes(256);
    FixedDistances(0);
    LengthExtraRule(257);
    DistExtraRule(0);
    assert Lsb(Input(), 34, 0) == 0 && Lsb(Input(), 39, 0) == 0;
    var one := [Literal(97)];
    assert one[..0] == [] && Tokens()[..1] == one;
    assert TokensAt(Input(), 19, FixedLit(), FixedDist(), one) && TokensBits(FixedLit(), FixedDist(), one) == 8;
  }

  lemma {:induction false} DataMeans()
    ensures ApplyAll(Bytes([]), Tokens()) == Bytes([97, 97, 97, 97])
  {
    hide LengthBase, DistBase;
    LengthBaseRule(257);
    DistBaseRule(0);
    var one := [Literal(97)];
    assert one[..0] == [] && Tokens()[..1] == one;
    assert ApplyAll(Bytes([]), one) == Bytes([] + [97]) == Bytes([97]);
    var r := CopyFrom([97], 1, 3);
    assert r[0] == 97;
    assert r == [97, 97, 97, 97];
  }

  lemma Heads()
    ensures Lsb(Input(), 16, 1) == 1 && Lsb(Input(), 17, 2) == 1
    ensures ZlibHeader(Input()) && |Input()| == 10
  {
    InputBit(16);
    InputBit(17);
    InputBit(18);
    assert Lsb(Input(), 17, 0) == 0 && Lsb(Input(), 19, 0) == 0;
    assert !BitOf(1, 5);
  }

  /** The stream stands for four bytes `a`. */
  lemma {:induction false} ExampleDecodes()
    ensures Decodes(Input(), true, [Fixed(Tokens())], [97, 97, 97, 97])
  {
    hide Lsb, DataAt, DataBits, FixedLit, FixedDist, ApplyAll, Tokens, Input, ZlibHeader;
    var b := Fixed(Tokens());
    Heads();
    DataHere();
    DataMeans();
    assert [b][..0] == [];
    assert BlockAt(Input(), 16, true, b);
  }

  /** And it is decoded to them. */
  method Example() returns (r: Outcome, result: seq<Byte>)
    ensures r == Done && result == [97, 97, 97, 97]
  {
    hide Decodes, LargestFrom;
    ExampleDecodes();
    var bs := [Fixed(Tokens())];
    assert bs[..0] == [];
    assert InflateFailure.Turns(bs) == 4;
    RoomEnough();
    r, result := ZlibDecode(Input(), 16384, true, 4);
  }

  lemma RoomEnough()
    ensures LargestFrom(16384) >= 4
  {}
}
