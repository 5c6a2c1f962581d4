/** The inflate decoder of stb_image (`stbi__zbuf` and the functions on it), updating its bit
    reservoir, its tables and its output buffer in place. */
module Inflate {
  import opened Bits
  import opened BitReverse
  import opened BitStream
  import opened HuffmanCode
  import opened ZHuffmanTable
  import opened Deflate
  import opened DeflateUnique
  import opened InflateFailure
  import opened InflateRuns
  import opened InflateEndless

  const UINT_MAX: nat := 0xFFFF_FFFF

  /** How a decoding function ends: as in the source, or because the step budget ran out, or in the loop that grows
      the output buffer, which never ends on an empty buffer. */
  datatype Outcome = Done | Failed | OutOfSteps | GrowsForEver

  /** How one turn of the block loop ends. */
  datatype Turn = Emitted | BlockEnded | Broken | Hanging

  /** What comes of an attempt to grow the output buffer. */
  datatype Growth = Room | Full | Endless

  /** The specification gives these bytes, or the stream uses a reserved symbol, on which the
      decoder does not stop. */
  ghost predicate Agrees(o: Output, s: seq<Byte>) {
    o == Bytes(s) || o == Reserved
  }

  /** The largest size that doubling from `size` can reach. */
  ghost function Largest(size: nat): (r: nat)
    requires 0 < size <= UINT_MAX
    ensures size <= r && UINT_MAX / 2 < r <= UINT_MAX
    decreases UINT_MAX - size
  {
    if size > UINT_MAX / 2 then size else Largest(2 * size)
  }

  /** The most bytes that an expandable buffer can come to hold. An empty buffer is never found too small: the loop
      that doubles it does not end. */
  ghost function LargestFrom(size: nat): (r: nat)
    ensures size <= UINT_MAX ==> size <= r <= UINT_MAX
  {
    if 0 < size <= UINT_MAX then Largest(size) else UINT_MAX
  }

  function Doubled(limit: nat, k: nat): nat {
    if k == 0 then limit else 2 * Doubled(limit, k - 1)
  }

  /** The loop that doubles a buffer of `limit` bytes until it holds `need` goes through turn `k`. */
  ghost predicate DoublesOn(limit: nat, need: nat, k: nat) {
    forall i: nat :: i <= k ==> Doubled(limit, i) < need && Doubled(limit, i) <= UINT_MAX / 2
  }

  ghost predicate DoublesForEver(limit: nat, need: nat) {
    forall k: nat :: DoublesOn(limit, need, k)
  }

  lemma {:induction false} DoubledFrom(limit: nat, k: nat)
    ensures limit == 0 ==> Doubled(limit, k) == 0
    ensures limit > 0 ==> Doubled(limit, k) >= Pow2(k)
  {
    if k > 0 {
      DoubledFrom(limit, k - 1);
    }
  }

  /** It never ends exactly if the buffer is empty and something is needed. */
  lemma {:induction false} DoublingEnds(limit: nat, need: nat)
    ensures DoublesForEver(limit, need) <==> limit == 0 && need > 0
  {
    if limit == 0 {
      EmptyDoubles(need);
    } else {
      DoubledFrom(limit, 31);
      Pow2ThirtyOne();
      hide Doubled, Pow2;
      assert Doubled(limit, 31) > UINT_MAX / 2;
      assert !DoublesOn(limit, need, 31);
    }
  }

  lemma {:induction false} EmptyDoubles(need: nat)
    ensures DoublesForEver(0, need) <==> need > 0
  {
    forall k: nat ensures Doubled(0, k) == 0 {
      DoubledFrom(0, k);
    }
    hide Doubled;
    assert DoublesOn(0, need, 0) ==> Doubled(0, 0) < need;
  }

  lemma Pow2ThirtyOne()
    ensures Pow2(31) == 0x8000_0000
  {
    assert Pow2(4) == 16 && Pow2(8) == 16 * Pow2(4) && Pow2(12) == 16 * Pow2(8) && Pow2(16) == 16 * Pow2(12);
    assert Pow2(20) == 16 * Pow2(16) && Pow2(24) == 16 * Pow2(20) && Pow2(28) == 16 * Pow2(24);
    assert Pow2(31) == 8 * Pow2(28);
  }

  class ZBuf {
    const input: seq<Byte>
    var zbuffer: nat
    var numBits: nat
    var codeBuffer: nat
    /** Bytes taken from the input so far, counting the zero bytes supplied past its end. */
    ghost var fed: nat

    var out: array<Byte>
    var zout: nat
    const expandable: bool

    const zLength: ZHuffman
    const zDistance: ZHuffman

    /** The reservoir holds exactly the next bits of the stream, and nothing above them. */
    ghost predicate Reservoir()
      reads this`zbuffer, this`numBits, this`codeBuffer, this`fed
    {
      && zbuffer == (if fed <= |input| then fed else |input|)
      && numBits <= 8 * fed && numBits <= 32
      && codeBuffer == Lsb(input, 8 * fed - numBits, numBits)
    }

    /** The position in the stream of the next bit to be decoded. */
    ghost function BitPos(): nat
      requires Reservoir()
      reads this`zbuffer, this`numBits, this`codeBuffer, this`fed
    {
      8 * fed - numBits
    }

    ghost predicate Tables()
      reads this`out
    {
      && zLength.Shape() && zDistance.Shape()
      && zLength.Arrays() !! zDistance.Arrays()
      && (out as object) !in zLength.Arrays() + zDistance.Arrays()
    }

    ghost predicate Buffer()
      reads this`out, this`zout
    {
      zout <= out.Length <= UINT_MAX
    }

    ghost predicate Valid()
      reads this
    {
      Reservoir() && Tables() && Buffer()
    }

    /** The most bytes the output can come to hold. */
    ghost function Capacity(): nat
      reads this`out
    {
      if expandable then LargestFrom(out.Length) else out.Length
    }

    /** Growing the buffer would never end. */
    ghost predicate Hangable()
      reads this`out
    {
      expandable && out.Length == 0
    }

    /** Where the block loop stands, and what it decodes with. */
    ghost function Here(): State
      requires Reservoir()
      reads this`zbuffer, this`numBits, this`codeBuffer, this`fed, this`zout
    {
      State(BitPos(), numBits, zout)
    }

    ghost function With(ll: seq<nat>, dl: seq<nat>): Env
      reads this`out
    {
      Env(input, ll, dl, Capacity())
    }

    ghost function Written(): seq<Byte>
      requires zout <= out.Length
      reads this`out, this`zout, out
    {
      out[..zout]
    }

    constructor (buffer: seq<Byte>, obuf: array<Byte>, exp: bool)
      requires obuf.Length <= UINT_MAX
      ensures Valid() && input == buffer && out == obuf && expandable == exp
      ensures zout == 0 && fed == 0 && numBits == 0
      ensures fresh(zLength.Arrays()) && fresh(zDistance.Arrays())
    {
      input := buffer;
      zbuffer, numBits, codeBuffer, fed := 0, 0, 0, 0;
      out, zout, expandable := obuf, 0, exp;
      var l := new ZHuffman();
      var d := new ZHuffman();
      zLength, zDistance := l, d;
    }

    // ----- the bit reservoir -----

    method Zeof() returns (eof: bool)
      ensures eof == (zbuffer >= |input|)
    {
      eof := zbuffer >= |input|;
    }

    method Zget8() returns (b: Byte)
      requires zbuffer == if fed <= |input| then fed else |input|
      modifies this`zbuffer, this`fed
      ensures b == ByteAt(input, old(fed)) && fed == old(fed) + 1
      ensures zbuffer == if fed <= |input| then fed else |input|
    {
      var eof := Zeof();
      if eof {
        b := 0;
      } else {
        b := input[zbuffer];
        zbuffer := zbuffer + 1;
      }
      fed := fed + 1;
    }

    /** One more byte above the bits held. */
    method FillByte()
      requires Reservoir() && numBits <= 24
      modifies this`zbuffer, this`fed, this`numBits, this`codeBuffer
      ensures Reservoir() && BitPos() == old(BitPos()) && numBits == old(numBits) + 8
    {
      hide Lsb, ByteAt;
      ghost var p := BitPos();
      AppendByte(input, fed, numBits);
      var b := Zget8();
      codeBuffer := Or(codeBuffer, Shl(b, numBits));
      numBits := numBits + 8;
      assert 8 * fed - numBits == p;
    }

    lemma NothingAbove()
      requires Reservoir()
      ensures codeBuffer < Pow2(numBits)
    {}

    /** `stbi__fill_bits`: the position does not move, and at least 25 bits are available. */
    method FillBits()
      requires Reservoir() && numBits <= 24
      modifies this`zbuffer, this`fed, this`numBits, this`codeBuffer
      ensures Reservoir() && BitPos() == old(BitPos()) && numBits == Filled(old(numBits)) > 24
    {
      hide Reservoir, Pow2, Filled;
      while true
        invariant Reservoir() && BitPos() == old(BitPos()) && numBits <= 24
        invariant Filled(numBits) == Filled(old(numBits))
        decreases 24 - numBits
      {
        NothingAbove();
        FilledByte(numBits);
        if codeBuffer >= Pow2(numBits) {
          // the source gives up here by pretending that the input has ended
          assert false;
        }
        FillByte();
        if numBits > 24 {
          break;
        }
      }
    }

    /** Drop `n` bits that are in the reservoir. */
    method Consume(n: nat)
      requires Reservoir() && n <= numBits
      modifies this`numBits, this`codeBuffer
      ensures Reservoir() && BitPos() == old(BitPos()) + n && numBits == old(numBits) - n
    {
      hide Lsb;
      LsbShr(input, BitPos(), numBits, n);
      codeBuffer := Shr(codeBuffer, n);
      numBits := numBits - n;
    }

    /** `stbi__zreceive`: the next `n` bits of the stream, least significant first. */
    method Receive(n: nat) returns (k: nat)
      requires Reservoir() && n <= 24
      modifies this`zbuffer, this`fed, this`numBits, this`codeBuffer
      ensures Reservoir() && BitPos() == old(BitPos()) + n
      ensures k == Lsb(input, old(BitPos()), n)
      ensures n <= old(numBits) ==> fed == old(fed)
      ensures numBits == Received(old(numBits), n)
    {
      hide Lsb;
      if numBits < n {
        FillBits();
      }
      LsbLow(input, BitPos(), numBits, n);
      AndMask(codeBuffer, n);
      k := And(codeBuffer, Pow2(n) - 1);
      Consume(n);
    }

    // ----- one Huffman symbol -----

    /** `stbi__zhuffman_decode`: the one symbol whose code the stream spells here. It fails only when
        there is none, or with fewer than 16 bits of input left. */
    method HuffmanDecode(z: ZHuffman, ghost lens: seq<nat>) returns (r: int)
      requires Reservoir() && z.Built(lens)
      modifies this`zbuffer, this`fed, this`numBits, this`codeBuffer
      ensures Reservoir() && -1 <= r < |lens|
      ensures r >= 0 ==> SymAt(input, old(BitPos()), lens, r) && BitPos() == old(BitPos()) + lens[r]
      ensures r >= 0 ==> !Starved(input, old(BitPos()), old(numBits)) && numBits == Ready(old(numBits)) - lens[r]
      ensures r == -1 ==>
        || (Starved(input, old(BitPos()), old(numBits)) && PastEnd(input, old(BitPos())))
        || forall sym: nat :: !SymAt(input, old(BitPos()), lens, sym)
    {
      hide Lsb, Msb, Code, KraftOk;
      if numBits < 16 {
        var eof := Zeof();
        if eof {
          return -1;
        }
        FillBits();
      }
      ghost var p := BitPos();
      LsbLow(input, p, numBits, 16);
      forall sym: nat ensures SymAt(input, p, lens, sym) == Spells(lens, sym, codeBuffer) {
        SpellsLow(lens, sym, codeBuffer, 16);
      }
      FastMask(codeBuffer);
      var b := z.fast[And(codeBuffer, 511)];
      assert FastEntry(lens, |lens|, Low(codeBuffer, 9), b);
      if b != 0 {
        SpellsLow(lens, b % 512, codeBuffer, 9);
        Consume(b / 512);
        return b % 512;
      }
      forall sym: nat | Spells(lens, sym, codeBuffer) ensures lens[sym] > 9 {
        if lens[sym] <= 9 {
          SpellsLow(lens, sym, codeBuffer, 9);
        }
      }
      r := HuffmanDecodeSlowpath(z, lens);
    }

    /** The scan over code lengths from 10 up. Its two range checks never fail. */
    method HuffmanDecodeSlowpath(z: ZHuffman, ghost lens: seq<nat>) returns (r: int)
      requires Reservoir() && numBits >= 16 && z.Built(lens)
      requires forall sym: nat :: Spells(lens, sym, codeBuffer) ==> lens[sym] > 9
      modifies this`numBits, this`codeBuffer
      ensures Reservoir() && -1 <= r < |lens|
      ensures r >= 0 ==> Spells(lens, r, old(codeBuffer)) && BitPos() == old(BitPos()) + lens[r]
      ensures r >= 0 ==> numBits == old(numBits) - lens[r]
      ensures r == -1 ==> forall sym: nat :: !Spells(lens, sym, old(codeBuffer))
    {
      ghost var w := codeBuffer;
      NothingUpTo(lens, w, 9);
      BitReverse16IsMsb(codeBuffer);
      var k := BitReverseC(codeBuffer, 16);
      Pow2Sixteen();
      var s := FAST_BITS + 1;
      while k >= z.maxcode[s]
        invariant 10 <= s <= 16
        invariant Reservoir() && codeBuffer == w && numBits >= 16 && BitPos() == old(BitPos())
        invariant Msb(w, s - 1) >= EndCode(lens, s - 1)
        decreases 16 - s
      {
        ScanStep(lens, w, s);
        s := s + 1;
      }
      if s >= 16 {
        NothingUpTo(lens, w, 15);
        return -1;
      }
      ScanStep(lens, w, s);
      ghost var sym := SymbolAt(lens, w, s);
      RankBound(lens, sym);
      var b := Shr(k, 16 - s) - z.firstcode[s] + z.firstsymbol[s];
      assert b == Rank(lens, sym);
      if b >= ZNSYMS {
        assert false;
      }
      if z.size[b] != s {
        assert false;
      }
      Consume(s);
      r := z.value[b];
    }

    // ----- the output buffer -----

    /** `stbi__zexpand`: room for `n` more bytes, with what was written kept. Where the doubling loop would never
        end, the model says so. */
    method Zexpand(n: nat) returns (g: Growth)
      requires Buffer() && Tables()
      modifies this`out
      ensures Buffer() && Tables() && Written() == old(Written())
      ensures if g == Room then fresh(out) && zout + n <= out.Length else out == old(out)
      ensures Capacity() == old(Capacity()) && Hangable() == old(Hangable())
      ensures g == Full && zout + n > out.Length ==> zout + n > Capacity()
      ensures g == Endless <==>
        expandable && zout + n <= UINT_MAX && DoublesForEver(old(out.Length), zout + n)
      ensures g == Endless ==> Hangable() && n > 0
    {
      hide DoublesForEver;
      DoublingEnds(out.Length, zout + n);
      if !expandable {
        return Full;
      }
      var cur, limit := zout, out.Length;
      if UINT_MAX - cur < n {
        return Full;
      }
      if limit == 0 && cur + n > limit {
        return Endless;
      }
      while cur + n > limit
        invariant out.Length <= limit <= UINT_MAX && (limit == 0 ==> cur + n == 0) && (limit == 0 <==> out.Length == 0)
        invariant LargestFrom(limit) == LargestFrom(out.Length)
        decreases cur + n - limit
      {
        if limit > UINT_MAX / 2 {
          return Full;
        }
        limit := limit * 2;
      }
      var q := new Byte[limit];
      forall i | 0 <= i < out.Length {
        q[i] := out[i];
      }
      assert q[..zout] == out[..zout];
      out := q;
      g := Room;
    }

    method EmitLiteral(b: Byte) returns (g: Growth)
      requires Buffer() && Tables()
      modifies this`out, this`zout, out
      ensures Buffer() && Tables() && (out == old(out) || fresh(out))
      ensures Capacity() == old(Capacity()) && Hangable() == old(Hangable())
      ensures g == Room ==> Written() == old(Written()) + [b] && zout == old(zout) + 1
      ensures g == Full ==> old(zout) + 1 > Capacity()
      ensures g == Endless ==> Hangable()
    {
      hide DoublesForEver, LargestFrom;
      if zout >= out.Length {
        g := Zexpand(1);
        if g != Room {
          return;
        }
      }
      Put(b);
      g := Room;
    }

    /** The LZ77 copy, which may overlap itself. A distance of 0 (a reserved symbol) copies the
        uninitialised bytes onto themselves. */
    method EmitCopy(len: nat, dist: nat) returns (g: Growth)
      requires Buffer() && Tables() && dist <= zout
      modifies this`out, this`zout, out
      ensures Buffer() && Tables() && (out == old(out) || fresh(out))
      ensures Capacity() == old(Capacity()) && Hangable() == old(Hangable())
      ensures g == Room && dist > 0 ==> Written() == CopyFrom(old(Written()), dist, len)
      ensures g == Room ==> zout == old(zout) + len
      ensures g == Full ==> old(zout) + len > Capacity()
      ensures g == Endless ==> Hangable() && len > 0
    {
      hide DoublesForEver, LargestFrom;
      if zout + len > out.Length {
        g := Zexpand(len);
        if g != Room {
          return;
        }
      }
      if dist == 1 {
        CopyRun(len);
      } else {
        CopyWindow(len, dist);
      }
      g := Room;
    }

    /** One store through the advancing output pointer. */
    method Put(b: Byte)
      requires zout < out.Length
      modifies this`zout, out
      ensures zout == old(zout) + 1 && Written() == old(Written()) + [b]
      ensures forall i :: zout <= i < out.Length ==> out[i] == old(out[i])
    {
      ghost var w := Written();
      out[zout] := b;
      zout := zout + 1;
      assert Written() == w + [b];
    }

    /** Distance 1: one byte repeated. */
    method CopyRun(len: nat)
      requires Buffer() && 1 <= zout && zout + len <= out.Length
      modifies this`zout, out
      ensures Buffer() && Written() == CopyFrom(old(Written()), 1, len) && zout == old(zout) + len
    {
      var v := out[zout - 1];
      var left := len;
      while left > 0
        invariant Buffer() && zout >= 1 && zout + left <= out.Length && zout + left == old(zout) + len
        invariant Written()[|Written()| - 1] == v
        invariant CopyFrom(Written(), 1, left) == CopyFrom(old(Written()), 1, len)
      {
        Put(v);
        left := left - 1;
      }
    }

    /** Any other distance: byte by byte from the window, through the bytes just written if it overlaps. */
    method CopyWindow(len: nat, dist: nat)
      requires Buffer() && dist <= zout && zout + len <= out.Length
      modifies this`zout, out
      ensures Buffer() && (dist > 0 ==> Written() == CopyFrom(old(Written()), dist, len))
      ensures zout == old(zout) + len
    {
      hide CopyFrom;
      var p := zout - dist;
      var left := len;
      while left > 0
        invariant Buffer() && zout + left <= out.Length && p == zout - dist >= 0
        invariant zout + left == old(zout) + len
        invariant dist > 0 ==> CopyFrom(Written(), dist, left) == CopyFrom(old(Written()), dist, len)
      {
        if dist > 0 {
          CopyStep(Written(), dist, left);
          assert out[p] == Written()[|Written()| - dist];
        }
        Put(out[p]);
        p := p + 1;
        left := left - 1;
      }
      if dist > 0 {
        CopyNothing(Written(), dist);
      }
    }

    // ----- compressed blocks -----

    /** Carries out one token; fails if it reaches back before the output or past its capacity. */
    method EmitToken(t: Token, ghost start: Output) returns (r: Turn)
      requires Buffer() && Tables() && Agrees(start, Written())
      modifies this`out, this`zout, out
      ensures Buffer() && Tables() && (out == old(out) || fresh(out))
      ensures Capacity() == old(Capacity()) && Hangable() == old(Hangable()) && r != BlockEnded
      ensures r == Emitted ==> Agrees(Apply(start, t), Written()) && zout == old(zout) + Added(t)
      ensures r != Broken ==> t.Copy? ==> t.Distance() <= old(zout)
      ensures r == Broken ==> old(zout) + Added(t) > Capacity() || (t.Copy? && t.Distance() > old(zout))
      ensures r == Broken ==> Overflows(Apply(start, t), Capacity())
      ensures r == Hanging ==> Hangable() && Added(t) > 0 && Overflows(Apply(start, t), 0)
    {
      hide LargestFrom, CopyFrom, LengthBase, DistBase;
      var g;
      if t.Literal? {
        g := EmitLiteral(t.byte);
      } else if zout < t.Distance() {
        return Broken;
      } else {
        g := EmitCopy(t.Length(), t.Distance());
      }
      r := match g case Room => Emitted case Full => Broken case Endless => Hanging;
    }

    /** The symbols of one turn: a literal or a pair, or the end of the block. */
    method ReadToken(ghost ll: seq<nat>, ghost dl: seq<nat>, ghost start: Output) returns (r: Turn, t: Token)
      requires Reservoir() && zLength.Built(ll) && zDistance.Built(dl) && |dl| <= 32
      modifies this`zbuffer, this`fed, this`numBits, this`codeBuffer
      ensures Reservoir()
      ensures r.Emitted? ==>
        && TokenAt(input, old(BitPos()), ll, dl, t) && BitPos() == old(BitPos()) + TokenBits(ll, dl, t)
        && Enough(input, old(BitPos()), old(numBits), ll, t) && numBits == AfterToken(old(numBits), ll, dl, t)
      ensures r.BlockEnded? ==>
        && SymAt(input, old(BitPos()), ll, END_OF_BLOCK) && BitPos() == old(BitPos()) + LenOf(ll, END_OF_BLOCK)
        && EndsHere(With(ll, dl), old(Here())) && numBits == Ready(old(numBits)) - LenOf(ll, END_OF_BLOCK)
      ensures r.Broken? ==> NoToken(input, old(BitPos()), ll, dl, start, Capacity()) && Stuck(With(ll, dl), old(Here()))
      ensures r.Broken? ==> !EndsHere(With(ll, dl), old(Here()))
      ensures r != Hanging
    {
      hide NoToken, Stuck, Overflows, Starved, Ready, Received, PastEnd, Lsb, SymAt, KraftOk, PairAt, PairBits, Apply,
        LargestFrom, LengthBase, DistBase, ZHuffman.ScanFor, ZHuffman.RankedUpTo, ZHuffman.FastUpTo;
      t := Literal(0);
      ghost var p, e, s := BitPos(), With(ll, dl), Here();
      var z := HuffmanDecode(zLength, ll);
      if z < 0 {
        StuckAtFirst(e, s);
        NoFirstSymbol(input, p, ll, dl, start, Capacity());
        return Broken, t;
      }
      if z < 256 {
        return Emitted, Literal(z);
      }
      if z == 256 {
        return BlockEnded, t;
      }
      var decoded;
      decoded, t := ParsePair(z, dl);
      if !decoded {
        StuckAtDistance(e, s, z);
        OtherSymbol(e, s, z);
        NoPair(input, p, ll, dl, start, Capacity(), z);
        return Broken, t;
      }
      r := Emitted;
    }

    /** One turn of `stbi__parse_huffman_block`. */
    method ParseToken(ghost ll: seq<nat>, ghost dl: seq<nat>, ghost start: Output)
      returns (r: Turn, ghost t: Token)
      requires Valid() && zLength.Built(ll) && zDistance.Built(dl) && |dl| <= 32
      requires Agrees(start, Written())
      modifies this`zbuffer, this`fed, this`numBits, this`codeBuffer, this`out, this`zout, out
      ensures Valid() && (out == old(out) || fresh(out))
      ensures r.Emitted? ==>
        && TokenAt(input, old(BitPos()), ll, dl, t)
        && BitPos() == old(BitPos()) + TokenBits(ll, dl, t)
        && Agrees(Apply(start, t), Written())
      ensures r.BlockEnded? ==>
        && SymAt(input, old(BitPos()), ll, END_OF_BLOCK)
        && BitPos() == old(BitPos()) + LenOf(ll, END_OF_BLOCK)
        && Agrees(start, Written())
        && EndsHere(With(ll, dl), old(Here())) && Here() == Closed(With(ll, dl), old(Here()))
      ensures Capacity() == old(Capacity()) && Hangable() == old(Hangable())
      ensures r.Broken? ==> NoToken(input, old(BitPos()), ll, dl, start, Capacity())
      ensures r.Emitted? ==> Moves(With(ll, dl), old(Here()), t) && Here() == Next(With(ll, dl), old(Here()), t)
      ensures r.Broken? ==> Stuck(With(ll, dl), old(Here())) && !EndsHere(With(ll, dl), old(Here()))
      ensures r.Hanging? ==> Hangable() && NoToken(input, old(BitPos()), ll, dl, start, 0)
    {
      hide NoToken, Stuck, EndsHere, Overflows, Starved, Enough, Lsb, SymAt, KraftOk, TokenAt, TokenBits, AfterToken,
        Added, Apply, LargestFrom, LengthBase, DistBase, Agrees, ZHuffman.Built, Reservoir;
      ghost var p, e, s := BitPos(), With(ll, dl), Here();
      var token;
      r, token := ReadToken(ll, dl, start);
      t := token;
      if r == Emitted {
        r := EmitToken(token, start);
        if r == Broken {
          StuckAtToken(e, s, t);
          TokenNoEnd(e, s, t);
          TokenOverflows(input, p, ll, dl, start, Capacity(), t);
        } else if r == Hanging {
          TokenOverflows(input, p, ll, dl, start, 0, t);
        }
      }
    }

    /** The rest of a length and distance pair, after its length symbol. */
    method ParsePair(lsym: LengthSymbol, ghost dl: seq<nat>) returns (ok: bool, t: Token)
      requires Reservoir() && zDistance.Built(dl) && |dl| <= 32
      modifies this`zbuffer, this`fed, this`numBits, this`codeBuffer
      ensures Reservoir() && t.Copy? && t.lsym == lsym
      ensures ok ==> PairAt(input, old(BitPos()), dl, t) && BitPos() == old(BitPos()) + PairBits(dl, t)
      ensures !ok ==>
        var q := old(BitPos()) + LengthExtra(lsym);
        PastEnd(input, q) || forall sym: nat :: !SymAt(input, q, dl, sym)
      ensures var q, a := old(BitPos()) + LengthExtra(lsym), Received(old(numBits), LengthExtra(lsym));
        if ok then !Starved(input, q, a) && numBits == Received(Ready(a) - LenOf(dl, t.dsym), DistExtra(t.dsym))
        else Starved(input, q, a) || forall sym: nat :: !SymAt(input, q, dl, sym)
    {
      hide PastEnd, Starved, Ready, Received, Lsb, SymAt, KraftOk, LengthExtra, DistExtra, ZHuffman.ScanFor,
        ZHuffman.RankedUpTo, ZHuffman.FastUpTo;
      var lextra := ReceiveExtra(LengthExtra(lsym));
      var z := HuffmanDecode(zDistance, dl);
      if z < 0 {
        return false, Copy(lsym, lextra, 0, 0);
      }
      var dextra := ReceiveExtra(DistExtra(z));
      return true, Copy(lsym, lextra, z, dextra);
    }

    /** The extra bits of a length or distance, if it has any. */
    method ReceiveExtra(n: nat) returns (k: nat)
      requires Reservoir() && n <= 24
      modifies this`zbuffer, this`fed, this`numBits, this`codeBuffer
      ensures Reservoir() && BitPos() == old(BitPos()) + n
      ensures k == Lsb(input, old(BitPos()), n) && numBits == Received(old(numBits), n)
    {
      k := 0;
      if n != 0 {
        k := Receive(n);
      }
    }

    lemma HereIsLevel(ll: seq<nat>, dl: seq<nat>)
      requires Valid() && zLength.Built(ll) && zDistance.Built(dl) && |dl| <= 32
      ensures Codes(With(ll, dl)) && Level(Here()) && Here().size <= Capacity()
    {
      hide LargestFrom, ZHuffman.ScanFor, ZHuffman.RankedUpTo, ZHuffman.FastUpTo;
    }

    /** `stbi__parse_huffman_block`, for at most `steps` turns. */
    method ParseHuffmanBlock(steps: nat, ghost ll: seq<nat>, ghost dl: seq<nat>, ghost start: Output)
      returns (r: Outcome, left: nat, ghost ts: seq<Token>)
      requires Valid() && zLength.Built(ll) && zDistance.Built(dl) && |dl| <= 32
      requires Agrees(start, Written())
      modifies this`zbuffer, this`fed, this`numBits, this`codeBuffer, this`out, this`zout, out
      ensures Valid() && (out == old(out) || fresh(out)) && left <= steps
      ensures r.Done? ==>
        && DataAt(input, old(BitPos()), ll, dl, ts)
        && BitPos() == old(BitPos()) + DataBits(ll, dl, ts)
        && Agrees(ApplyAll(start, ts), Written())
        && left == steps - (|ts| + 1)
      ensures Capacity() == old(Capacity()) && Hangable() == old(Hangable())
      ensures r.Failed? ==> NoData(input, old(BitPos()), ll, dl, start, Capacity())
      ensures r.OutOfSteps? ==> forall us :: DataAt(input, old(BitPos()), ll, dl, us) ==> steps < |us| + 1
      ensures r.GrowsForEver? ==> Hangable() && NoData(input, old(BitPos()), ll, dl, start, 0)
      ensures r.OutOfSteps? ==> CanRun(With(ll, dl), old(Here()), steps)
      ensures CanRun(With(ll, dl), old(Here()), steps) ==> r.OutOfSteps? || r.GrowsForEver?
      ensures r.Done? || r.Failed? ==> |ts| <= TurnBound(With(ll, dl))
      ensures r.Done? ==> Finishes(With(ll, dl), old(Here()), ts)
      ensures r.Done? ==> Here() == Closed(With(ll, dl), After(With(ll, dl), old(Here()), ts))
      ensures r.Failed? ==> forall us :: !Finishes(With(ll, dl), old(Here()), us)
    {
      hide Moves, Next, Stuck, Run, After, Codes, EndsHere, Closed, NoToken, NoData, Lsb, SymAt, KraftOk, TokenAt,
        TokenBits, TokensAt, TokensBits, Apply, ApplyAll, Agrees, Reservoir, LargestFrom, ZHuffman.Built;
      HereIsLevel(ll, dl);
      NothingRead(With(ll, dl), Here(), start);
      ghost var e, s := With(ll, dl), Here();
      left, ts := steps, [];
      while left > 0
        invariant Valid() && (out == old(out) || fresh(out)) && left <= steps && Hangable() == old(Hangable())
        invariant zLength.Built(ll) && zDistance.Built(dl)
        invariant Agrees(ApplyAll(start, ts), Written())
        invariant left == steps - |ts| && With(ll, dl) == e
        invariant Run(e, s, ts) && Here() == After(e, s, ts)
        decreases left
      {
        left := left - 1;
        ghost var t;
        var turn;
        turn, t := ParseToken(ll, dl, ApplyAll(start, ts));
        match turn {
          case Broken =>
            RunIsSpelt(e, s, ts);
            RunEnds(e, s, ts, steps);
            forall us ensures !Finishes(e, s, us) {
              StuckNeverFinishes(e, s, ts, us);
            }
            StuckInData(input, old(BitPos()), ll, dl, start, Capacity(), ts);
            return Failed, left, ts;
          case Hanging =>
            RunIsSpelt(e, s, ts);
            StuckInData(input, old(BitPos()), ll, dl, start, 0, ts);
            return GrowsForEver, left, ts;
          case BlockEnded =>
            RunIsSpelt(e, s, ts);
            StuckAtEnd(e, After(e, s, ts));
            RunEnds(e, s, ts, steps);
            return Done, left, ts;
          case Emitted =>
            RunSnoc(e, s, ts, t);
            ApplySnoc(start, ts, t);
            ts := ts + [t];
        }
      }
      forall us | DataAt(input, old(BitPos()), ll, dl, us) ensures |ts| <= |us| {
        DataIsLongest(e, s, us, ts);
      }
      r := OutOfSteps;
    }

    // ----- dynamic code lengths -----

    /** One turn of the run-length loop of `stbi__compute_huffman_codes`. */
    method ReadLenOp(z: ZHuffman, ghost cl: seq<nat>, lencodes: array<nat>, n: nat, ntot: nat)
      returns (ok: bool, n': nat, ghost op: LenOp)
      requires Reservoir() && z.Built(cl) && |cl| == 19
      requires n < ntot <= lencodes.Length && forall i :: 0 <= i < n ==> lencodes[i] <= MAX_LEN
      modifies this`zbuffer, this`fed, this`numBits, this`codeBuffer, lencodes
      ensures Reservoir()
      ensures ok ==>
        && OpAt(input, old(BitPos()), cl, op)
        && BitPos() == old(BitPos()) + OpBits(cl, op)
        && !Starved(input, old(BitPos()), old(numBits)) && numBits == AfterOp(old(numBits), cl, op)
        && (op.Repeat? ==> n > 0)
        && n < n' <= ntot
        && lencodes[..n'] == UnrollOp(old(lencodes[..n]), op)
        && forall i :: 0 <= i < n' ==> lencodes[i] <= MAX_LEN
      ensures !ok ==> NoOp(input, old(BitPos()), old(numBits), cl, old(lencodes[..n]), ntot)
    {
      hide NoOp, PastEnd, Starved, Ready, Received, Lsb, SymAt, KraftOk, OpAt, OpBits, AfterOp, ZHuffman.ScanFor,
        ZHuffman.RankedUpTo, ZHuffman.FastUpTo;
      ghost var p, m := BitPos(), numBits;
      n', op := n, Len(0);
      var c := HuffmanDecode(z, cl);
      if c < 0 || c >= 19 {
        NoOpSymbol(input, p, m, cl, lencodes[..n], ntot);
        return false, n', op;
      }
      if c < 16 {
        op := Len(c);
        LenOpAt(input, p, m, cl, c);
        lencodes[n] := c;
        return true, n + 1, op;
      }
      var count;
      count, op := ReadRun(c, cl, m);
      if c == 16 && n == 0 {
        OpOverflows(input, p, m, cl, lencodes[..n], ntot, op);
        return false, n', op;
      }
      var fill := if c == 16 then lencodes[n - 1] else 0;
      if ntot - n < count {
        OpOverflows(input, p, m, cl, lencodes[..n], ntot, op);
        return false, n', op;
      }
      forall i | n <= i < n + count {
        lencodes[i] := fill;
      }
      assert lencodes[..n + count] == old(lencodes[..n]) + Replicate(fill, count);
      return true, n + count, op;
    }

    /** The repeat count that follows one of the symbols 16, 17 and 18. */
    method ReadRun(c: nat, ghost cl: seq<nat>, ghost m: int) returns (count: nat, ghost op: LenOp)
      requires Reservoir() && 16 <= c <= 18 && LenOf(cl, c) <= BitPos()
      requires SymAt(input, BitPos() - LenOf(cl, c), cl, c) && numBits == Ready(m) - LenOf(cl, c)
      modifies this`zbuffer, this`fed, this`numBits, this`codeBuffer
      ensures Reservoir() && count > 0
      ensures OpAt(input, old(BitPos()) - LenOf(cl, c), cl, op) && numBits == AfterOp(m, cl, op)
      ensures BitPos() == old(BitPos()) - LenOf(cl, c) + OpBits(cl, op)
      ensures op == if c == 16 then Repeat(count) else if c == 17 then Zeros(count) else ManyZeros(count)
    {
      hide Lsb, SymAt, Ready, Received;
      if c == 16 {
        count := Receive(2);
        count := count + 3;
        op := Repeat(count);
      } else if c == 17 {
        count := Receive(3);
        count := count + 3;
        op := Zeros(count);
      } else {
        count := Receive(7);
        count := count + 11;
        op := ManyZeros(count);
      }
    }

    /** All run-length operations: `ntot` code lengths. */
    method ReadLengths(z: ZHuffman, ghost cl: seq<nat>, lencodes: array<nat>, ntot: nat)
      returns (ok: bool, ghost ops: seq<LenOp>)
      requires Reservoir() && z.Built(cl) && |cl| == 19 && lencodes !in z.Arrays()
      requires ntot <= lencodes.Length
      modifies this`zbuffer, this`fed, this`numBits, this`codeBuffer, lencodes
      ensures Reservoir()
      ensures ok ==>
        && OpsAt(input, old(BitPos()), cl, ops)
        && BitPos() == old(BitPos()) + OpsBits(cl, ops)
        && OpsFed(input, old(BitPos()), old(numBits), cl, ops) && numBits == AfterOps(old(numBits), cl, ops)
        && lencodes[..ntot] == Unroll(ops)
        && forall i :: 0 <= i < ntot ==> lencodes[i] <= MAX_LEN
      ensures !ok ==> NoOps(input, old(BitPos()), old(numBits), cl, ntot)
    {
      hide NoOp, NoOps, Lsb, SymAt, KraftOk, OpAt, OpBits, AfterOp, Starved, UnrollOp, ZHuffman.Built;
      var n := 0;
      ops := [];
      while n < ntot
        invariant Reservoir() && n <= ntot && z.Built(cl)
        invariant OpsAt(input, old(BitPos()), cl, ops)
        invariant BitPos() == old(BitPos()) + OpsBits(cl, ops)
        invariant OpsFed(input, old(BitPos()), old(numBits), cl, ops) && numBits == AfterOps(old(numBits), cl, ops)
        invariant lencodes[..n] == Unroll(ops)
        invariant forall i :: 0 <= i < n ==> lencodes[i] <= MAX_LEN
        decreases ntot - n
      {
        ghost var op;
        var turn, n';
        turn, n', op := ReadLenOp(z, cl, lencodes, n, ntot);
        if !turn {
          StuckInOps(input, old(BitPos()), old(numBits), cl, ntot, ops);
          return false, ops;
        }
        OpsSnoc(input, old(BitPos()), cl, ops, op);
        OpsFedSnoc(input, old(BitPos()), old(numBits), cl, ops, op);
        ops := ops + [op];
        n := n';
      }
      ok := true;
    }

    /** The code length code lengths, three bits each, in their peculiar order. */
    method ReadCodeLengths(hclen: nat) returns (cl: seq<nat>)
      requires Reservoir() && hclen <= 19
      modifies this`zbuffer, this`fed, this`numBits, this`codeBuffer
      ensures Reservoir() && BitPos() == old(BitPos()) + 3 * hclen && numBits == AfterThrees(old(numBits), hclen)
      ensures CodeLengthsAt(input, old(BitPos()), hclen, cl) && Lengths(cl) && |cl| == 19
    {
      hide Lsb, CodeLengthOrder, CodeLengthSlot, AfterThrees, Received, Reservoir;
      NoThrees(numBits);
      var sizes := new nat[19](_ => 0);
      for i := 0 to hclen
        invariant Reservoir() && BitPos() == old(BitPos()) + 3 * i && numBits == AfterThrees(old(numBits), i)
        invariant forall j: ClIndex ::
          sizes[CodeLengthOrder(j)] == if j < i then Lsb(input, old(BitPos()) + 3 * j, 3) else 0
        invariant forall j :: 0 <= j < 19 ==> sizes[j] < 8
      {
        var s := Receive(3);
        OrderIsOneToOne(i);
        OneMoreThree(old(numBits), i);
        assert s < Pow2(3) == 8;
        sizes[CodeLengthOrder(i)] := s;
      }
      cl := sizes[..];
    }

    /** The counts and the code lengths of a dynamic block. */
    method ReadHeader(lencodes: array<nat>) returns (ok: bool, hlit: nat, hdist: nat, ghost h: Header)
      requires Reservoir() && lencodes.Length == 286 + 32 + 137
      modifies this`zbuffer, this`fed, this`numBits, this`codeBuffer, lencodes
      ensures Reservoir()
      ensures 257 <= hlit <= 288 && 1 <= hdist <= 32
      ensures ok ==>
        && LengthsAt(input, old(BitPos()), h)
        && BitPos() == old(BitPos()) + HeaderBits(h)
        && HeaderFed(input, old(BitPos()), old(numBits), h) && numBits == AfterHeader(old(numBits), h)
        && h.hlit == hlit && h.hdist == hdist
        && lencodes[..hlit + hdist] == Unroll(h.ops)
        && forall i :: 0 <= i < hlit + hdist ==> lencodes[i] <= MAX_LEN
      ensures !ok ==> NoLengths(input, old(BitPos()), old(numBits))
    {
      hide NoOps, NoLengths, Lsb, KraftOk, OpsAt, OpsBits, OpsFed, AfterOps, AfterThrees, Received, Unroll,
        CodeLengthsAt, Reservoir, Pow2;
      SmallPowers();
      hlit := Receive(5);
      hdist := Receive(5);
      var hclen := Receive(4);
      hlit, hdist, hclen := hlit + 257, hdist + 1, hclen + 4;
      var cl := ReadCodeLengths(hclen);
      h := Header(hlit, hdist, hclen, cl, []);
      var zCodelength := new ZHuffman();
      ok := zCodelength.Build(cl);
      if ok {
        ghost var ops;
        ok, ops := ReadLengths(zCodelength, cl, lencodes, hlit + hdist);
        h := Header(hlit, hdist, hclen, cl, ops);
      }
      if !ok {
        StuckInLengths(input, old(BitPos()), old(numBits), hlit, hdist, hclen, cl);
      }
    }

    /** `stbi__compute_huffman_codes`: the two tables of a dynamic block. */
    method ComputeHuffmanCodes() returns (ok: bool, ghost h: Header)
      requires Reservoir() && Tables()
      modifies this`zbuffer, this`fed, this`numBits, this`codeBuffer, zLength.Arrays(), zDistance.Arrays()
      ensures Reservoir()
      ensures ok ==>
        && HeaderAt(input, old(BitPos()), h) && h.hlit <= |Unroll(h.ops)|
        && BitPos() == old(BitPos()) + HeaderBits(h)
        && HeaderFed(input, old(BitPos()), old(numBits), h) && numBits == AfterHeader(old(numBits), h)
        && zLength.Built(h.Lit()) && zDistance.Built(h.Dist()) && |h.Dist()| <= 32
      ensures !ok ==> NoHeader(input, old(BitPos()), old(numBits))
    {
      hide NoLengths, NoHeader, Lsb, KraftOk, LengthsAt, HeaderBits, HeaderFed, AfterHeader, Unroll,
        ZHuffman.ScanFor, ZHuffman.RankedUpTo, ZHuffman.FastUpTo;
      var lencodes := new nat[286 + 32 + 137];
      var hlit, hdist;
      ok, hlit, hdist, h := ReadHeader(lencodes);
      if !ok {
        NoLengthsNoHeader(input, old(BitPos()), old(numBits));
        return;
      }
      assert lencodes[..hlit] == h.Lit();
      assert lencodes[hlit..hlit + hdist] == h.Dist();
      ok := zLength.Build(lencodes[..hlit]);
      if ok {
        ok := zDistance.Build(lencodes[hlit..hlit + hdist]);
      }
      if !ok {
        BadHeader(input, old(BitPos()), old(numBits), h);
      }
    }

    // ----- stored blocks -----

    /** Drop the bits up to the next byte boundary: the reservoir then holds whole bytes. */
    method AlignToByte()
      requires Reservoir()
      modifies this`zbuffer, this`fed, this`numBits, this`codeBuffer
      ensures Reservoir() && fed == old(fed) && numBits % 8 == 0 && numBits <= old(numBits)
      ensures BitPos() == 8 * ByteBoundary(old(BitPos()))
    {
      hide Lsb, ByteAt, Pow2;
      if numBits % 8 != 0 {
        var k := Receive(numBits % 8);
      }
    }

    /** One byte out of the reservoir. */
    method DrainByte() returns (b: nat)
      requires Reservoir() && numBits >= 8 && numBits % 8 == 0
      modifies this`numBits, this`codeBuffer
      ensures Reservoir() && numBits == old(numBits) - 8
      ensures b == ByteAt(input, fed - old(numBits) / 8)
    {
      hide Lsb, ByteAt;
      LsbLow(input, BitPos(), numBits, 8);
      LsbByte(input, fed - numBits / 8);
      ByteMask(codeBuffer);
      b := And(codeBuffer, 255);
      Consume(8);
    }

    /** One header byte "the normal way". */
    method NextByte() returns (b: nat)
      requires Reservoir() && numBits == 0
      modifies this`zbuffer, this`fed
      ensures Reservoir() && fed == old(fed) + 1 && b == ByteAt(input, old(fed))
    {
      EmptyReservoir(input, 8 * fed);
      EmptyReservoir(input, 8 * fed + 8);
      b := Zget8();
    }

    /** The four header bytes, first from the reservoir and then from the input. The input is left
        exactly behind them, with the reservoir empty. */
    method ReadStoredHeader(header: array<nat>)
      requires Reservoir() && numBits % 8 == 0 && numBits <= 32 && numBits <= 8 * fed && header.Length == 4
      modifies this`zbuffer, this`fed, this`numBits, this`codeBuffer, header
      ensures Reservoir() && numBits == 0 && 8 * fed == old(BitPos()) + 32
      ensures forall j: nat :: j < 4 ==> header[j] == ByteAt(input, fed - 4 + j)
    {
      hide Lsb, Reservoir, ByteAt;
      ghost var f := fed - numBits / 8;
      assert 8 * f == BitPos();
      var k := 0;
      while numBits > 0
        invariant Reservoir() && numBits % 8 == 0 && fed == old(fed)
        invariant k <= 4 && 8 * k + numBits == old(numBits)
        invariant forall j: nat :: j < k ==> header[j] == ByteAt(input, f + j)
        decreases numBits
      {
        var b := DrainByte();
        header[k] := b;
        k := k + 1;
      }
      assert fed == f + k;
      while k < 4
        invariant k <= 4 && Reservoir() && numBits == 0 && fed == f + k
        invariant forall j: nat :: j < k ==> header[j] == ByteAt(input, f + j)
      {
        var b := NextByte();
        header[k] := b;
        k := k + 1;
      }
    }

    /** LEN and NLEN of a stored block. */
    method ReadStoredLength() returns (len: nat, nlen: nat)
      requires Reservoir()
      modifies this`zbuffer, this`fed, this`numBits, this`codeBuffer
      ensures Reservoir() && numBits == 0 && fed == ByteBoundary(old(BitPos())) + 4
      ensures len == Lsb(input, 8 * (fed - 4), 16) && nlen == Lsb(input, 8 * (fed - 4) + 16, 16)
      ensures len == ByteAt(input, fed - 3) * 256 + ByteAt(input, fed - 4)
      ensures nlen == ByteAt(input, fed - 1) * 256 + ByteAt(input, fed - 2)
      ensures zbuffer == if fed <= |input| then fed else |input|
    {
      hide Lsb, ByteAt;
      AlignToByte();
      var header := new nat[4];
      ReadStoredHeader(header);
      LsbWord(input, fed - 4);
      LsbWord(input, fed - 2);
      len := header[1] * 256 + header[0];
      nlen := header[3] * 256 + header[2];
    }

    /** `stbi__parse_uncompressed_block` */
    method ParseUncompressedBlock() returns (g: Growth, ghost data: seq<Byte>)
      requires Valid()
      modifies this`zbuffer, this`fed, this`numBits, this`codeBuffer, this`out, this`zout, out
      ensures Valid() && (out == old(out) || fresh(out))
      ensures g == Room ==>
        && StoredAt(input, ByteBoundary(old(BitPos())), data)
        && BitPos() == 8 * (ByteBoundary(old(BitPos())) + 4 + |data|) && numBits == 0
        && ByteBoundary(old(BitPos())) + 4 + |data| <= |input|
        && Written() == old(Written()) + data && zout == old(zout) + |data|
      ensures Capacity() == old(Capacity()) && Hangable() == old(Hangable())
      ensures g != Room ==>
        var f := ByteBoundary(old(BitPos()));
        var len, nlen := Lsb(input, 8 * f, 16), Lsb(input, 8 * f + 16, 16);
        if g == Full then nlen != 0xFFFF - len || f + 4 + len > |input| || old(zout) + len > Capacity()
        else Hangable() && len > 0
    {
      hide Lsb, ByteAt, Reservoir, Tables, StoredAt, Not, LargestFrom, DoublesForEver;
      data := [];
      var len, nlen := ReadStoredLength();
      Pow2Sixteen();
      NotWord(len);
      if nlen != Not(len, 16) || zbuffer + len > |input| {
        return Full, data;
      }
      HeaderIsReal(input, fed - 4, len, nlen);
      StoredData(input, fed - 4, len);
      if zout + len > out.Length {
        g := Zexpand(len);
        if g != Room {
          return;
        }
      }
      data := input[fed..fed + len];
      TakeStored(len);
      g := Room;
    }

    /** The bytes of a stored block, straight from the input. */
    method TakeStored(len: nat)
      requires Valid() && numBits == 0 && fed + len <= |input| && zout + len <= out.Length
      modifies this`zbuffer, this`fed, this`zout, out
      ensures Valid() && BitPos() == 8 * (old(fed) + len) && zout == old(zout) + len && numBits == 0
      ensures Written() == old(Written()) + input[old(fed)..old(fed) + len]
    {
      EmptyReservoir(input, 8 * fed);
      EmptyReservoir(input, 8 * (fed + len));
      forall i | 0 <= i < len {
        out[zout + i] := input[zbuffer + i];
      }
      zbuffer := zbuffer + len;
      fed := fed + len;
      zout := zout + len;
    }

    // ----- the whole stream -----

    /** `stbi__parse_zlib_header` */
    method ParseZlibHeader() returns (ok: bool)
      requires Reservoir() && fed == 0 && numBits == 0
      modifies this`zbuffer, this`fed
      ensures Reservoir() && fed == 2 && numBits == 0
      ensures ok == ZlibHeader(input)
    {
      EmptyReservoir(input, 0);
      EmptyReservoir(input, 16);
      var cmf := Zget8();
      var flg := Zget8();
      var eof := Zeof();
      var check: nat := cmf as int * 256 + flg as int;
      ok := !eof && check % 31 == 0 && !BitOf(flg, 5) && cmf % 16 == 8;
    }

    /** One turn of the block loop of `stbi__parse_zlib`. */
    method ParseBlock(steps: nat, ghost start: Output)
      returns (r: Outcome, final: bool, left: nat, ghost b: Block)
      requires Valid() && Agrees(start, Written())
      modifies this`zbuffer, this`fed, this`numBits, this`codeBuffer, this`out, this`zout, out
      modifies zLength.Arrays(), zDistance.Arrays()
      ensures Valid() && (out == old(out) || fresh(out)) && left <= steps
      ensures r.Done? ==>
        && BlockAt(input, old(BitPos()), final, b)
        && BitPos() == BlockEnd(old(BitPos()), b)
        && Agrees(ApplyBlock(start, b), Written())
        && left == steps + 1 - BlockTurns(b)
      ensures Capacity() == old(Capacity()) && Hangable() == old(Hangable())
      ensures r.Failed? ==> NoBody(input, old(BitPos()), start, Capacity())
      ensures r.OutOfSteps? ==> forall c :: BodyAt(input, old(BitPos()), c) ==> steps + 1 < BlockTurns(c)
      ensures r.GrowsForEver? ==> Hangable() && NoBody(input, old(BitPos()), start, 0)
      ensures r.Done? ==> BlockTurns(b) <= Bound(input, Capacity()) + 2
      ensures r.Done? ==> Reads(input, Capacity(), old(Here()), b, Here())
      ensures r.Failed? ==> GivesUp(input, Capacity(), old(Here()))
      ensures r.OutOfSteps? ==> Lasts(input, Capacity(), old(Here()), steps)
    {
      hide NoBody, GivesUp, Lasts, Reads, Agrees, LargestFrom, Lsb, BodyAt, BlockEnd, ApplyBlock, Reservoir, Tables,
        Buffer, Received;
      ghost var s := Here();
      left, b := steps, Stored([]);
      SmallPowers();
      FinalBit(input, s.p);
      var f := Receive(1);
      final := f == 1;
      var kind := Receive(2);
      if kind == 0 {
        r, left, b := ParseStored(steps, s, start);
      } else if kind == 3 {
        StoredFails(input, Capacity(), s);
        NoKind(input, s.p, start, Capacity());
        r := Failed;
      } else if kind == 1 {
        r, left, b := ParseFixed(steps, s, start);
      } else {
        r, left, b := ParseDynamic(steps, s, start);
      }
    }

    /** The three header bits of a block that begins in `s` have been read. */
    ghost predicate Begun(s: State, kind: nat)
      requires Reservoir()
      reads this`zbuffer, this`numBits, this`codeBuffer, this`fed, this`zout
    {
      BitPos() == s.p + 3 && numBits == AfterBlockHead(s.n) && zout == s.size && Lsb(input, s.p + 1, 2) == kind
    }

    /** A stored block that begins in `s`. */
    method ParseStored(steps: nat, ghost s: State, ghost start: Output)
      returns (r: Outcome, left: nat, ghost b: Block)
      requires Valid() && Agrees(start, Written()) && Begun(s, 0)
      modifies this`zbuffer, this`fed, this`numBits, this`codeBuffer, this`out, this`zout, out
      ensures Valid() && (out == old(out) || fresh(out)) && left <= steps
      ensures Capacity() == old(Capacity()) && Hangable() == old(Hangable())
      ensures r.Done? ==>
        && BodyAt(input, s.p, b) && BitPos() == BlockEnd(s.p, b)
        && Agrees(ApplyBlock(start, b), Written())
        && left == steps + 1 - BlockTurns(b)
      ensures r.Failed? ==> NoBody(input, s.p, start, Capacity())
      ensures r != OutOfSteps && (r.Done? ==> BlockTurns(b) == 1 && Reads(input, Capacity(), s, b, Here()))
      ensures r.Failed? ==> GivesUp(input, Capacity(), s)
      ensures r.GrowsForEver? ==> Hangable() && NoBody(input, s.p, start, 0)
    {
      hide NoBody, GivesUp, PastEnd, Lsb, StoredAt, Reservoir, Tables, ByteBoundary, LargestFrom, AfterBlockHead;
      assert start.Bytes? ==> |start.bytes| == zout;
      ghost var f := ByteBoundary(s.p + 3);
      ghost var len, nlen := Lsb(input, 8 * f, 16), Lsb(input, 8 * f + 16, 16);
      ghost var data;
      var g;
      g, data := ParseUncompressedBlock();
      b := Stored(data);
      r, left := match g case Room => Done case Full => Failed case Endless => GrowsForEver, steps;
      if g == Full {
        StoredUnfit(input, Capacity(), s, len, nlen);
        LateIsPastEnd(input, f + 4 + len);
        NoStored(input, s.p, start, Capacity(), len, nlen);
      } else if g == Endless {
        NoStored(input, s.p, start, 0, len, nlen);
      }
    }

    /** A block with the fixed codes. */
    method ParseFixed(steps: nat, ghost s: State, ghost start: Output) returns (r: Outcome, left: nat, ghost b: Block)
      requires Valid() && Agrees(start, Written()) && Begun(s, 1)
      modifies this`zbuffer, this`fed, this`numBits, this`codeBuffer, this`out, this`zout, out
      modifies zLength.Arrays(), zDistance.Arrays()
      ensures Valid() && (out == old(out) || fresh(out)) && left <= steps
      ensures Capacity() == old(Capacity()) && Hangable() == old(Hangable())
      ensures r.Done? ==>
        && BodyAt(input, s.p, b) && BitPos() == BlockEnd(s.p, b)
        && Agrees(ApplyBlock(start, b), Written())
        && left == steps + 1 - BlockTurns(b)
      ensures r.Failed? ==> NoBody(input, s.p, start, Capacity())
      ensures r.OutOfSteps? ==> forall c :: BodyAt(input, s.p, c) ==> steps + 1 < BlockTurns(c)
      ensures r.GrowsForEver? ==> Hangable() && NoBody(input, s.p, start, 0)
      ensures r.Done? ==> BlockTurns(b) <= Bound(input, Capacity()) + 2 && Reads(input, Capacity(), s, b, Here())
      ensures r.Failed? ==> GivesUp(input, Capacity(), s)
      ensures r.OutOfSteps? ==> Lasts(input, Capacity(), s, steps)
    {
      hide NoBody, NoData, GivesUp, Lasts, Reads, Enters, Finishes, After, Closed, CanRun, Agrees, LargestFrom,
        Reservoir, AfterBlockHead, Lsb, SymAt, KraftOk, DataAt, DataBits, ApplyAll, FixedLit, FixedDist, BodyAt,
        BlockEnd, ApplyBlock, BlockTurns, ZHuffman.Built;
      left, b := steps, Fixed([]);
      FixedIsKraft();
      var ok := zLength.Build(FixedLit());
      if !ok {
        assert false;
      }
      ok := zDistance.Build(FixedDist());
      if !ok {
        assert false;
      }
      ghost var ts, e, u := [], With(FixedLit(), FixedDist()), Here();
      FixedEnters(e, s);
      r, left, ts := ParseHuffmanBlock(steps, FixedLit(), FixedDist(), start);
      b := Fixed(ts);
      FixedIs(input, s.p, ts, start);
      match r {
        case Done => LoopReads(e, s, u, b, Here());
        case Failed =>
          NoFixed(input, s.p, start, Capacity());
          LoopFails(e, s, u, steps);
        case OutOfSteps =>
          LoopLasts(e, s, u, steps);
          forall c | BodyAt(input, s.p, c) ensures steps + 1 < BlockTurns(c) {
            FixedOnly(input, s.p, c);
          }
        case GrowsForEver => NoFixed(input, s.p, start, 0);
      }
    }

    /** A block with codes of its own. */
    method ParseDynamic(steps: nat, ghost s: State, ghost start: Output)
      returns (r: Outcome, left: nat, ghost b: Block)
      requires Valid() && Agrees(start, Written()) && Begun(s, 2)
      modifies this`zbuffer, this`fed, this`numBits, this`codeBuffer, this`out, this`zout, out
      modifies zLength.Arrays(), zDistance.Arrays()
      ensures Valid() && (out == old(out) || fresh(out)) && left <= steps
      ensures Capacity() == old(Capacity()) && Hangable() == old(Hangable())
      ensures r.Done? ==>
        && BodyAt(input, s.p, b) && BitPos() == BlockEnd(s.p, b)
        && Agrees(ApplyBlock(start, b), Written())
        && left == steps + 1 - BlockTurns(b)
      ensures r.Failed? ==> NoBody(input, s.p, start, Capacity())
      ensures r.OutOfSteps? ==> forall c :: BodyAt(input, s.p, c) ==> steps + 1 < BlockTurns(c)
      ensures r.GrowsForEver? ==> Hangable() && NoBody(input, s.p, start, 0)
      ensures r.Done? ==> BlockTurns(b) <= Bound(input, Capacity()) + 2 && Reads(input, Capacity(), s, b, Here())
      ensures r.Failed? ==> GivesUp(input, Capacity(), s)
      ensures r.OutOfSteps? ==> Lasts(input, Capacity(), s, steps)
    {
      hide NoBody, NoData, NoHeader, GivesUp, Lasts, Reads, Enters, Finishes, After, Closed, CanRun, Agrees,
        LargestFrom, Reservoir, AfterBlockHead, AfterHeader, HeaderFed, Lsb, SymAt, KraftOk, DataAt, DataBits,
        HeaderBits, HeaderAt, LengthsAt, ApplyAll, BodyAt, BlockEnd, ApplyBlock, BlockTurns, Unroll, ZHuffman.Built;
      ghost var h, ts;
      var ok;
      left := steps;
      ok, h := ComputeHuffmanCodes();
      b := Dynamic(h, []);
      if !ok {
        HeaderFails(input, Capacity(), s);
        NoDynamic(input, s.p, AfterBlockHead(s.n), start, Capacity());
        return Failed, left, b;
      }
      ghost var e, u := With(h.Lit(), h.Dist()), Here();
      HeaderEnters(e, s, h);
      r, left, ts := ParseHuffmanBlock(steps, h.Lit(), h.Dist(), start);
      b := Dynamic(h, ts);
      DynamicIs(input, s.p, h, ts, start);
      match r {
        case Done => LoopReads(e, s, u, b, Here());
        case Failed =>
          NoDynamicData(input, s.p, start, Capacity(), h);
          LoopFails(e, s, u, steps);
        case OutOfSteps =>
          LoopLasts(e, s, u, steps);
          forall c | BodyAt(input, s.p, c) ensures steps + 1 < BlockTurns(c) {
            DynamicOnly(input, s.p, h, c);
          }
        case GrowsForEver => NoDynamicData(input, s.p, start, 0, h);
      }
    }

    /** `stbi__parse_zlib`: whatever it accepts is a DEFLATE stream, and what it wrote is what that
        stream stands for. With StreamBound turns it runs out of them exactly on the streams on which the source
        never ends (unless growing an empty buffer keeps it from getting there). */
    method ParseZlib(parseHeader: bool, steps: nat) returns (r: Outcome, ghost bs: seq<Block>)
      requires Valid() && fed == 0 && numBits == 0 && zout == 0
      modifies this`zbuffer, this`fed, this`numBits, this`codeBuffer, this`out, this`zout, out
      modifies zLength.Arrays(), zDistance.Arrays()
      ensures Valid() && Hangable() == old(Hangable())
      ensures r.Done? ==>
        && (parseHeader ==> ZlibHeader(input))
        && DeflateAt(input, if parseHeader then 16 else 0, bs)
        && Agrees(Meaning(Bytes([]), bs), Written())
      ensures r.Failed? ==>
        (parseHeader && !ZlibHeader(input)) || NoDeflate(input, if parseHeader then 16 else 0, old(Capacity()))
      ensures r.OutOfSteps? ==>
        forall cs :: DeflateAt(input, if parseHeader then 16 else 0, cs) ==> steps < Turns(cs)
      ensures r.GrowsForEver? ==>
        Hangable() && NoDeflate(input, if parseHeader then 16 else 0, 0)
      ensures r.OutOfSteps? && steps >= StreamBound(input, old(Capacity())) ==>
        && (parseHeader ==> ZlibHeader(input))
        && NeverEnding(input, old(Capacity()), State(if parseHeader then 16 else 0, 0, 0))
      ensures r.Done? || r.Failed? ==>
        || (parseHeader && !ZlibHeader(input))
        || !NeverEnding(input, old(Capacity()), State(if parseHeader then 16 else 0, 0, 0))
    {
      hide GivesUp, Lasts, Reads, Chain, Loops, NeverEnding, ShortBlocks, StreamBound, Bound, NoBody, NoDeflate, Lsb,
        BodyAt, BlockEnd, BlockTurns, OpenBlocksAt, BlocksEnd, Turns, Meaning, ApplyBlock, LargestFrom, Reservoir,
            Tables;
      bs := [];
      NoBlocks(Bound(input, Capacity()));
      NothingParsed();
      if parseHeader {
        var ok := ParseZlibHeader();
        if !ok {
          return Failed, bs;
        }
      }
      ghost var p, cap, states := BitPos(), Capacity(), [Here()];
      ChainStart(input, cap, Here());
      var left := steps;
      while left > 0
        invariant Valid() && (out == old(out) || fresh(out)) && Hangable() == old(Hangable())
        invariant left == steps - Turns(bs) && Capacity() == cap
        invariant Agrees(Meaning(Bytes([]), bs), Written())
        invariant ShortBlocks(bs, Bound(input, cap))
        invariant |states| == |bs| + 1 && Chain(input, cap, bs, states)
        invariant states[0] == State(p, 0, 0) && states[|bs|] == Here()
        decreases left
      {
        ghost var b, s := Stored([]), Here();
        var final;
        HereIsHeld();
        ChainIsOpen(input, cap, bs, states);
        r, final, left, b := ParseBlock(left - 1, Meaning(Bytes([]), bs));
        match r {
          case Failed =>
            StuckInBlocks(input, p, cap, bs);
            StoppedEnds(input, cap, bs, states);
            return;
          case GrowsForEver =>
            StuckInBlocks(input, p, 0, bs);
            return;
          case OutOfSteps =>
            OpenTurns(input, p, cap, bs);
            if steps >= StreamBound(input, cap) {
              LastsForEver(input, cap, s, steps - Turns(bs) - 1);
              ChainLoops(input, cap, bs, states);
            }
            OpenLonger(input, p, bs, steps);
            return;
          case Done =>
            OneMoreBlock(input, cap, bs, states, b, final, Here());
            bs, states := bs + [b], states + [Here()];
            if final {
              return;
            }
        }
      }
      ChainIsOpen(input, cap, bs, states);
      OpenTurns(input, p, cap, bs);
      OpenLongest(input, p, bs);
      r := OutOfSteps;
    }

    lemma HereIsHeld()
      requires Valid()
      ensures Level(Here()) && Here().size <= Capacity()
    {
      hide Lsb, ByteAt, Tables, Held;
      EndsOnByte(8 * fed, numBits);
    }
  }

  lemma EndsOnByte(end: nat, n: nat)
    requires n <= end && n <= 32 && end % 8 == 0
    ensures Held(end - n, n)
  {}

  /** The blocks `bs` are a parse of the buffer that leaves two bytes behind them, as the checksum of
      a zlib stream does, and that stands for `bytes`. */
  ghost predicate Decodes(buffer: seq<Byte>, parseHeader: bool, bs: seq<Block>, bytes: seq<Byte>) {
    && (parseHeader ==> ZlibHeader(buffer))
    && DeflateAt(buffer, if parseHeader then 16 else 0, bs)
    && !PastEnd(buffer, BlocksEnd(if parseHeader then 16 else 0, bs))
    && Meaning(Bytes([]), bs) == Bytes(bytes)
  }

  /** `stbi_zlib_decode_malloc_guesssize` and its siblings. Every stream that stands for no more bytes than
      doubling the buffer can reach (at least 2^31) is decoded to exactly those bytes, unless the buffer is empty at
      first and there are any; nothing that is not a stream is accepted. A budget of StreamBound turns is as good as
      none: it runs out exactly if the block loop of the source goes on for ever. */
  method ZlibDecode(buffer: seq<Byte>, initialSize: nat, parseHeader: bool, steps: nat)
    returns (r: Outcome, result: seq<Byte>)
    requires initialSize <= UINT_MAX
    ensures r.Done? ==> (parseHeader ==> ZlibHeader(buffer))
    ensures r.Done? ==>
      exists bs :: DeflateAt(buffer, if parseHeader then 16 else 0, bs) && Agrees(Meaning(Bytes([]), bs), result)
    ensures forall bs, bytes ::
      Decodes(buffer, parseHeader, bs, bytes) && |bytes| <= LargestFrom(initialSize)
      && (Turns(bs) <= steps || StreamBound(buffer, LargestFrom(initialSize)) <= steps) ==>
        if initialSize == 0 && bytes != [] then r.GrowsForEver? else r.Done? && result == bytes
    ensures r.GrowsForEver? ==> initialSize == 0
    ensures NeverEndsOn(buffer, parseHeader, LargestFrom(initialSize)) ==> r.OutOfSteps? || r.GrowsForEver?
    ensures r.OutOfSteps? && StreamBound(buffer, LargestFrom(initialSize)) <= steps ==>
      NeverEndsOn(buffer, parseHeader, LargestFrom(initialSize))
  {
    hide DeflateAt, Meaning, BlocksEnd, ZlibHeader, Turns, NeverEnding, StreamBound, LargestFrom, Agrees, PastEnd,
      NoDeflate;
    var obuf := new Byte[initialSize];
    var z := new ZBuf(buffer, obuf, true);
    ghost var cs;
    r, cs := z.ParseZlib(parseHeader, steps);
    result := z.out[..z.zout];
    ghost var p, cap := if parseHeader then 16 else 0, LargestFrom(initialSize);
    forall bs, bytes | Decodes(buffer, parseHeader, bs, bytes) && |bytes| <= cap
      && (Turns(bs) <= steps || StreamBound(buffer, cap) <= steps)
      ensures if initialSize == 0 && bytes != [] then r.GrowsForEver? else r.Done? && result == bytes
    {
      if r.Done? {
        ParseUnique(buffer, p, bs, cs);
        Exactly(bytes, result);
      } else if r.OutOfSteps? && StreamBound(buffer, cap) <= steps {
        EndlessIsNoDeflate(buffer, cap, State(p, 0, 0), bs);
      } else if r.Failed? {
        Decodable(buffer, p, cap, bs, bytes);
      } else if r.GrowsForEver? && bytes == [] {
        Decodable(buffer, p, 0, bs, bytes);
      }
    }
  }

  /** The header is accepted, and behind it the decoder reaches a block on which its loop never ends. */
  ghost predicate NeverEndsOn(buffer: seq<Byte>, parseHeader: bool, cap: nat) {
    && (parseHeader ==> ZlibHeader(buffer))
    && NeverEnding(buffer, cap, State(if parseHeader then 16 else 0, 0, 0))
  }

  lemma Decodable(buffer: seq<Byte>, p: nat, cap: nat, bs: seq<Block>, bytes: seq<Byte>)
    requires DeflateAt(buffer, p, bs) && !PastEnd(buffer, BlocksEnd(p, bs)) && Meaning(Bytes([]), bs) == Bytes(bytes)
    requires |bytes| <= cap
    ensures !NoDeflate(buffer, p, cap)
  {
    hide DeflateAt, Meaning, BlocksEnd, PastEnd;
  }

  lemma Exactly(bytes: seq<Byte>, result: seq<Byte>)
    requires Agrees(Bytes(bytes), result)
    ensures bytes == result
  {}

  /** RFC 1950 section 2.2, as far as the decoder looks: deflate, no preset dictionary, check bits. */
  predicate ZlibHeader(input: seq<Byte>) {
    && |input| > 2
    && (input[0] as int * 256 + input[1] as int) % 31 == 0
    && !BitOf(input[1], 5)
    && input[0] % 16 == 8
  }

  lemma NothingRead(e: Env, s: State, start: Output)
    ensures Run(e, s, []) && After(e, s, []) == s && ApplyAll(start, []) == start
  {}

  /** A block with the fixed codes, by its parts. */
  lemma FixedIs(input: seq<Byte>, p: nat, ts: seq<Token>, start: Output)
    requires Lsb(input, p + 1, 2) == 1
    ensures BodyAt(input, p, Fixed(ts)) <==> DataAt(input, p + 3, FixedLit(), FixedDist(), ts)
    ensures BlockEnd(p, Fixed(ts)) == p + 3 + DataBits(FixedLit(), FixedDist(), ts)
    ensures ApplyBlock(start, Fixed(ts)) == ApplyAll(start, ts) && BlockTurns(Fixed(ts)) == |ts| + 2
  {
    hide Lsb, DataAt, DataBits, ApplyAll, FixedLit, FixedDist;
  }

  /** Every parse of such a block is one. */
  lemma FixedOnly(input: seq<Byte>, p: nat, c: Block)
    requires Lsb(input, p + 1, 2) == 1 && BodyAt(input, p, c)
    ensures c.Fixed? && BlockTurns(c) == |c.tokens| + 2
    ensures DataAt(input, p + 3, FixedLit(), FixedDist(), c.tokens)
  {
    hide Lsb, DataAt, FixedLit, FixedDist, StoredAt, HeaderAt;
  }

  /** A dynamic block, by its parts. */
  lemma DynamicIs(input: seq<Byte>, p: nat, h: Header, ts: seq<Token>, start: Output)
    requires HeaderAt(input, p + 3, h) && Lsb(input, p + 1, 2) == 2
    ensures BodyAt(input, p, Dynamic(h, ts)) <==> DataAt(input, p + 3 + HeaderBits(h), h.Lit(), h.Dist(), ts)
    ensures BlockEnd(p, Dynamic(h, ts)) == p + 3 + HeaderBits(h) + DataBits(h.Lit(), h.Dist(), ts)
    ensures ApplyBlock(start, Dynamic(h, ts)) == ApplyAll(start, ts) && BlockTurns(Dynamic(h, ts)) == |ts| + 2
  {
    hide Lsb, OpsAt, CodeLengthsAt, Unroll, KraftOk, DataAt, DataBits, HeaderBits, ApplyAll;
  }

  /** Every parse of a dynamic block has its header. */
  lemma DynamicOnly(input: seq<Byte>, p: nat, h: Header, c: Block)
    requires HeaderAt(input, p + 3, h) && Lsb(input, p + 1, 2) == 2 && BodyAt(input, p, c)
    ensures c.Dynamic? && c.header == h && BlockTurns(c) == |c.tokens| + 2
    ensures DataAt(input, p + 3 + HeaderBits(h), h.Lit(), h.Dist(), c.tokens)
  {
    hide Lsb, OpsAt, CodeLengthsAt, Unroll, KraftOk, DataAt, DataBits, HeaderBits, StoredAt;
    HeaderUnique(input, p + 3, h, c.header);
  }

  /** What a block that has been read adds to a parse. */
  lemma OneMoreBlock(input: seq<Byte>, cap: nat, bs: seq<Block>, states: seq<State>, b: Block, final: bool, t: State)
    requires Chain(input, cap, bs, states) && Reads(input, cap, states[|bs|], b, t)
    requires BlockAt(input, states[|bs|].p, final, b)
    requires ShortBlocks(bs, Bound(input, cap)) && BlockTurns(b) <= Bound(input, cap) + 2
    ensures Meaning(Bytes([]), bs + [b]) == ApplyBlock(Meaning(Bytes([]), bs), b)
    ensures Turns(bs + [b]) == Turns(bs) + BlockTurns(b) && ShortBlocks(bs + [b], Bound(input, cap))
    ensures if final then DeflateAt(input, states[0].p, bs + [b]) && !NeverEnding(input, cap, states[0])
            else Chain(input, cap, bs + [b], states + [t])
  {
    hide Reads, Loops, Lsb, BodyAt, BlockEnd, BlockTurns, ApplyBlock, Bound, GivesUp, NeverEnding, OpenBlocksAt,
      BlocksEnd, DeflateAt, Meaning, Turns, ShortBlocks;
    MeaningSnoc(Bytes([]), bs, b);
    TurnsSnoc(bs, b);
    MoreShort(bs, b, Bound(input, cap));
    if final {
      ChainIsOpen(input, cap, bs, states);
      BlocksSnoc(input, states[0].p, bs, b, final);
      StoppedEnds(input, cap, bs, states);
    } else {
      ChainSnoc(input, cap, bs, states, b, t);
    }
  }

  lemma NothingParsed()
    ensures Turns([]) == 0 && Meaning(Bytes([]), []) == Bytes([])
  {}

  lemma {:induction false} TurnsSnoc(bs: seq<Block>, b: Block)
    ensures Turns(bs + [b]) == Turns(bs) + BlockTurns(b)
  {
    hide BlockTurns;
    assert (bs + [b])[..|bs|] == bs;
  }

  /** Every parse takes more turns than its blocks read so far, ... */
  lemma {:induction false} OpenLongest(input: seq<Byte>, p: nat, bs: seq<Block>)
    requires OpenBlocksAt(input, p, bs)
    ensures forall cs :: DeflateAt(input, p, cs) ==> Turns(bs) < Turns(cs)
  {
    hide OpenBlocksAt, DeflateAt, BodyAt, BlocksEnd, Turns;
    forall cs | DeflateAt(input, p, cs) ensures Turns(bs) < Turns(cs) {
      NextBlock(input, p, bs, cs);
      TurnsGrow(cs, |bs|);
    }
  }

  /** ... and more than the next block, which did not end in `steps` turns of all. */
  lemma {:induction false} OpenLonger(input: seq<Byte>, p: nat, bs: seq<Block>, steps: nat)
    requires OpenBlocksAt(input, p, bs)
    requires forall c :: BodyAt(input, BlocksEnd(p, bs), c) ==> steps - Turns(bs) < BlockTurns(c)
    ensures forall cs :: DeflateAt(input, p, cs) ==> steps < Turns(cs)
  {
    hide OpenBlocksAt, DeflateAt, BodyAt, BlocksEnd, Turns, BlockTurns;
    forall cs | DeflateAt(input, p, cs) ensures steps < Turns(cs) {
      NextBlock(input, p, bs, cs);
      TurnsGrow(cs, |bs|);
    }
  }

  lemma CopyStep(h: seq<Byte>, d: nat, n: nat)
    requires 1 <= d <= |h| && n > 0
    ensures CopyFrom(h, d, n) == CopyFrom(h + [h[|h| - d]], d, n - 1)
  {}

  lemma CopyNothing(h: seq<Byte>, d: nat)
    requires 1 <= d <= |h|
    ensures CopyFrom(h, d, 0) == h
  {}

  lemma OrderIsOneToOne(i: ClIndex)
    ensures forall j: ClIndex :: j != i ==> CodeLengthOrder(j) != CodeLengthOrder(i)
  {
    hide CodeLengthOrder, CodeLengthSlot;
    forall j: ClIndex | j != i ensures CodeLengthOrder(j) != CodeLengthOrder(i) {
      OrderIsPermutation(i);
      OrderIsPermutation(j);
    }
  }

  lemma NoThrees(n: int)
    ensures AfterThrees(n, 0) == n
  {}

  lemma OneMoreThree(n: int, k: nat)
    ensures AfterThrees(n, k + 1) == Received(AfterThrees(n, k), 3)
  {}

  lemma LateIsPastEnd(input: seq<Byte>, f: nat)
    ensures f > |input| ==> PastEnd(input, 8 * f)
  {}

  lemma StoredData(input: seq<Byte>, f: nat, len: nat)
    requires Lsb(input, 8 * f, 16) == len && Lsb(input, 8 * f + 16, 16) == 0xFFFF - len
    requires f + 4 + len <= |input|
    ensures StoredAt(input, f, input[f + 4..f + 4 + len])
  {}

  lemma EmptyReservoir(input: seq<Byte>, p: nat)
    ensures Lsb(input, p, 0) == 0
  {}

  lemma FinalBit(input: seq<Byte>, p: nat)
    ensures Lsb(input, p, 1) < 2
  {}

  lemma ByteMask(w: nat)
    ensures And(w, 255) == Low(w, 8)
  {
    assert Pow2(4) == 16 && Pow2(8) == 16 * Pow2(4);
    AndMask(w, 8);
  }

  lemma {:induction false} NotPow2(a: nat, w: nat)
    requires a < Pow2(w)
    ensures Not(a, w) == Pow2(w) - 1 - a
  {
    if w > 0 {
      NotPow2(a / 2, w - 1);
    }
  }

  /** `len ^ 0xffff` on a 16-bit number. */
  lemma NotWord(len: nat)
    requires len < 0x10000
    ensures Not(len, 16) == 0xFFFF - len
  {
    Pow2Sixteen();
    NotPow2(len, 16);
  }

  /** A stored block that passes the length checks has its whole header inside the input. */
  lemma HeaderIsReal(input: seq<Byte>, f: nat, len: nat, nlen: nat)
    requires len == ByteAt(input, f + 1) * 256 + ByteAt(input, f)
    requires nlen == ByteAt(input, f + 3) * 256 + ByteAt(input, f + 2)
    requires nlen == 0xFFFF - len
    requires (if f + 4 <= |input| then f + 4 else |input|) + len <= |input|
    ensures f + 4 + len <= |input|
  {}

  lemma LenOpAt(input: seq<Byte>, p: nat, n: int, cl: seq<nat>, l: nat)
    requires l < 16 && SymAt(input, p, cl, l)
    ensures OpAt(input, p, cl, Len(l)) && OpBits(cl, Len(l)) == LenOf(cl, l)
    ensures AfterOp(n, cl, Len(l)) == Ready(n) - LenOf(cl, l)
  {}

  lemma SmallPowers()
    ensures Pow2(2) == 4 && Pow2(3) == 8 && Pow2(4) == 16 && Pow2(5) == 32
  {}

  /** Only the bits a code is made of decide whether it is spelt. */
  lemma SpellsLow(lens: seq<nat>, sym: nat, w: nat, m: nat)
    requires sym < |lens| ==> lens[sym] <= m
    ensures Spells(lens, sym, Low(w, m)) == Spells(lens, sym, w)
  {
    if sym < |lens| {
      MsbLow(w, lens[sym], m);
    }
  }

  lemma FastMask(w: nat)
    ensures And(w, 511) == Low(w, 9) < FAST_SIZE
  {
    assert Pow2(3) == 8 && Pow2(6) == 8 * Pow2(3) && Pow2(9) == 8 * Pow2(6);
    AndMask(w, 9);
  }

  /** One comparison of the slow scan decides between this length and longer ones. */
  lemma {:induction false} ScanStep(lens: seq<nat>, w: nat, s: nat)
    requires 1 <= s <= 16 && Msb(w, s - 1) >= EndCode(lens, s - 1)
    ensures Msb(w, 16) < Shl(EndCode(lens, s), 16 - s) <==> Msb(w, s) < EndCode(lens, s)
    ensures Msb(w, s) >= FirstCode(lens, s)
    ensures Shr(Msb(w, 16), 16 - s) == Msb(w, s)
  {
    MsbShr(w, 16, 16 - s);
    ShrLess(Msb(w, 16), 16 - s, EndCode(lens, s));
  }
}
