/** What it means for the decoder to fail: no parse of the stream exists that ends at least 16 bits
    before the end of the input and fits the output buffer. */
module InflateFailure {
  import opened Arithmetic
  import opened Bits
  import opened BitStream
  import opened HuffmanCode
  import opened Deflate
  import opened DeflateUnique
  import opened InflateRuns

  /** Fewer than 16 bits of input are left at `q`: the decoder may give up there. */
  ghost predicate PastEnd(input: seq<Byte>, q: nat) {
    q + 16 > 8 * |input|
  }

  /** There is no output, or more of it than `cap` bytes. */
  ghost predicate Overflows(o: Output, cap: nat) {
    !o.Bytes? || |o.bytes| > cap
  }

  // ----- tokens -----

  ghost predicate NoToken(input: seq<Byte>, p: nat, ll: seq<nat>, dl: seq<nat>, o: Output, cap: nat) {
    && (forall t :: TokenAt(input, p, ll, dl, t) ==>
          PastEnd(input, p + TokenBits(ll, dl, t)) || Overflows(Apply(o, t), cap))
    && (SymAt(input, p, ll, END_OF_BLOCK) ==> PastEnd(input, p + LenOf(ll, END_OF_BLOCK)))
  }

  ghost predicate NoData(input: seq<Byte>, p: nat, ll: seq<nat>, dl: seq<nat>, o: Output, cap: nat) {
    forall ts :: DataAt(input, p, ll, dl, ts) ==>
      PastEnd(input, p + DataBits(ll, dl, ts)) || Overflows(ApplyAll(o, ts), cap)
  }

  lemma {:induction false} NoFirstSymbol(input: seq<Byte>, p: nat, ll: seq<nat>, dl: seq<nat>, o: Output, cap: nat)
    requires PastEnd(input, p) || forall sym: nat :: !SymAt(input, p, ll, sym)
    ensures NoToken(input, p, ll, dl, o, cap)
  {
    hide SymAt, Apply, PairAt;
    forall t | TokenAt(input, p, ll, dl, t)
      ensures PastEnd(input, p + TokenBits(ll, dl, t))
    {
      assert SymAt(input, p, ll, FirstSymbol(t));
    }
  }

  /** The length symbol is there, but no distance symbol follows. */
  lemma {:induction false} NoPair(input: seq<Byte>, p: nat, ll: seq<nat>, dl: seq<nat>, o: Output, cap: nat,
      lsym: LengthSymbol)
    requires SymAt(input, p, ll, lsym)
    requires var q := p + LenOf(ll, lsym) + LengthExtra(lsym);
             PastEnd(input, q) || forall sym: nat :: !SymAt(input, q, dl, sym)
    ensures NoToken(input, p, ll, dl, o, cap)
  {
    hide Lsb, Spells, Apply, LengthExtra, DistExtra;
    forall t | TokenAt(input, p, ll, dl, t)
      ensures PastEnd(input, p + TokenBits(ll, dl, t))
    {
      SpellsUnique(ll, FirstSymbol(t), lsym, Lsb(input, p, 16));
    }
    if SymAt(input, p, ll, END_OF_BLOCK) {
      SpellsUnique(ll, lsym, END_OF_BLOCK, Lsb(input, p, 16));
    }
  }

  /** The next token is `t`, and it cannot be carried out. */
  lemma {:induction false} TokenOverflows(input: seq<Byte>, p: nat, ll: seq<nat>, dl: seq<nat>, o: Output, cap: nat,
      t: Token)
    requires TokenAt(input, p, ll, dl, t) && Overflows(Apply(o, t), cap)
    ensures NoToken(input, p, ll, dl, o, cap)
  {
    hide TokenAt, SymAt, Apply, TokenBits;
    forall u | TokenAt(input, p, ll, dl, u) ensures u == t {
      TokenUnique(input, p, ll, dl, t, u);
    }
    if SymAt(input, p, ll, END_OF_BLOCK) {
      NoTokenAtEnd(input, p, ll, dl, t);
    }
  }

  lemma {:induction false} OutputGrows(o: Output, ts: seq<Token>, k: nat, cap: nat)
    requires k <= |ts| && Overflows(ApplyAll(o, ts[..k]), cap)
    ensures Overflows(ApplyAll(o, ts), cap)
  {
    hide LengthBase, DistBase;
    if k < |ts| {
      assert ts[..|ts| - 1][..k] == ts[..k];
      OutputGrows(o, ts[..|ts| - 1], k, cap);
    } else {
      assert ts[..k] == ts;
    }
  }

  lemma {:induction false} TokensBitsGrow(ll: seq<nat>, dl: seq<nat>, ts: seq<Token>, k: nat)
    requires k <= |ts|
    ensures TokensBits(ll, dl, ts[..k]) <= TokensBits(ll, dl, ts)
  {
    hide TokenBits;
    if k < |ts| {
      assert ts[..|ts| - 1][..k] == ts[..k];
      TokensBitsGrow(ll, dl, ts[..|ts| - 1], k);
    } else {
      assert ts[..k] == ts;
    }
  }

  lemma {:induction false} StuckInData(input: seq<Byte>, p: nat, ll: seq<nat>, dl: seq<nat>, o: Output, cap: nat,
      ts: seq<Token>)
    requires TokensAt(input, p, ll, dl, ts)
    requires NoToken(input, p + TokensBits(ll, dl, ts), ll, dl, ApplyAll(o, ts), cap)
    ensures NoData(input, p, ll, dl, o, cap)
  {
    hide SymAt, TokenAt, TokenBits, TokensAt, Apply, TokensBits, ApplyAll;
    forall us | DataAt(input, p, ll, dl, us)
      ensures PastEnd(input, p + DataBits(ll, dl, us)) || Overflows(ApplyAll(o, us), cap)
    {
      DataNotLonger(input, p, ll, dl, us, ts);
      SameTokens(input, p, ll, dl, ts, us, |ts|);
      assert ts[..|ts|] == ts;
      if |ts| < |us| {
        TokensPrefix(input, p, ll, dl, us, |ts|);
        var t := us[|ts|];
        assert us[..|ts| + 1] == ts + [t];
        ApplySnoc(o, ts, t);
        TokensPlusOne(ll, dl, ts, t);
        TokensBitsGrow(ll, dl, us, |ts| + 1);
        if Overflows(Apply(ApplyAll(o, ts), t), cap) {
          OutputGrows(o, us, |ts| + 1, cap);
        }
      } else {
        assert us[..|ts|] == us;
      }
    }
  }

  lemma {:induction false} TokensPlusOne(ll: seq<nat>, dl: seq<nat>, ts: seq<Token>, t: Token)
    ensures TokensBits(ll, dl, ts + [t]) == TokensBits(ll, dl, ts) + TokenBits(ll, dl, t)
  {
    assert (ts + [t])[..|ts + [t]| - 1] == ts;
  }

  // ----- dynamic code lengths -----

  /** `n` bits are held at `p`: no run-length operation can be read there and unrolled. */
  ghost predicate NoOp(input: seq<Byte>, p: nat, n: int, cl: seq<nat>, lens: seq<nat>, ntot: nat) {
    forall op :: OpAt(input, p, cl, op) && (op.Repeat? ==> lens != []) ==>
      Starved(input, p, n) || |UnrollOp(lens, op)| > ntot
  }

  ghost predicate NoOps(input: seq<Byte>, p: nat, n: int, cl: seq<nat>, ntot: nat) {
    forall ops :: OpsAt(input, p, cl, ops) && |Unroll(ops)| == ntot ==> !OpsFed(input, p, n, cl, ops)
  }

  lemma {:induction false} NoOpSymbol(input: seq<Byte>, p: nat, n: int, cl: seq<nat>, lens: seq<nat>, ntot: nat)
    requires Starved(input, p, n) || forall sym: nat :: !SymAt(input, p, cl, sym)
    ensures NoOp(input, p, n, cl, lens, ntot)
  {
    hide SymAt, UnrollOp, Starved;
    forall op | OpAt(input, p, cl, op) ensures Starved(input, p, n) {
      assert SymAt(input, p, cl, OpSymbol(op));
    }
  }

  lemma {:induction false} OpOverflows(input: seq<Byte>, p: nat, n: int, cl: seq<nat>, lens: seq<nat>, ntot: nat,
      op: LenOp)
    requires OpAt(input, p, cl, op)
    requires (op.Repeat? && lens == []) || |UnrollOp(lens, op)| > ntot
    ensures NoOp(input, p, n, cl, lens, ntot)
  {
    hide OpAt, OpBits, UnrollOp;
    forall oq | OpAt(input, p, cl, oq) ensures oq == op {
      OpUnique(input, p, cl, op, oq);
    }
  }

  lemma Whole<T>(s: seq<T>)
    ensures s[..|s|] == s
  {}

  lemma {:induction false} StuckInOps(input: seq<Byte>, p: nat, n: int, cl: seq<nat>, ntot: nat, ops: seq<LenOp>)
    requires OpsAt(input, p, cl, ops) && |Unroll(ops)| < ntot
    requires NoOp(input, p + OpsBits(cl, ops), AfterOps(n, cl, ops), cl, Unroll(ops), ntot)
    ensures NoOps(input, p, n, cl, ntot)
  {
    hide OpsAt, OpAt, OpBits, OpsFed, UnrollOp, Unroll, OpsBits, AfterOps, Starved;
    forall oqs | OpsAt(input, p, cl, oqs) && |Unroll(oqs)| == ntot
      ensures !OpsFed(input, p, n, cl, oqs)
    {
      if |oqs| < |ops| {
        SameOps(input, p, cl, ops, oqs, |oqs|);
        assert oqs[..|oqs|] == oqs;
        OpsPrefix(input, p, cl, ops, |oqs|);
      } else {
        SameOps(input, p, cl, ops, oqs, |ops|);
        Whole(ops);
        Whole(oqs);
        NextOp(input, p, cl, oqs, |ops|);
        if OpsFed(input, p, n, cl, oqs) {
          OpsFedPrefix(input, p, n, cl, oqs, |ops|);
        }
      }
    }
  }

  /** Where the decoder gives up within a header, fewer than 16 bits are left behind it. */
  lemma {:induction false} UnfedIsPastEnd(input: seq<Byte>, p: nat, n: int, cl: seq<nat>, ops: seq<LenOp>)
    requires !OpsFed(input, p, n, cl, ops)
    ensures PastEnd(input, p + OpsBits(cl, ops))
  {
    hide AfterOp, OpBits;
    var init := ops[..|ops| - 1];
    if !OpsFed(input, p, n, cl, init) {
      UnfedIsPastEnd(input, p, n, cl, init);
    }
  }

  lemma UnrollOpGrows(lens: seq<nat>, op: LenOp)
    ensures |UnrollOp(lens, op)| >= |lens|
  {}

  /** The operation behind a prefix, and what it adds. */
  lemma {:induction false} NextOp(input: seq<Byte>, p: nat, cl: seq<nat>, ops: seq<LenOp>, k: nat)
    requires OpsAt(input, p, cl, ops) && k < |ops|
    ensures OpAt(input, p + OpsBits(cl, ops[..k]), cl, ops[k])
    ensures ops[k].Repeat? ==> Unroll(ops[..k]) != []
    ensures OpsBits(cl, ops[..k + 1]) == OpsBits(cl, ops[..k]) + OpBits(cl, ops[k])
    ensures |UnrollOp(Unroll(ops[..k]), ops[k])| <= |Unroll(ops)|
  {
    hide OpAt, OpBits, UnrollOp;
    var init := ops[..|ops| - 1];
    UnrollOpGrows(Unroll(init), ops[|ops| - 1]);
    assert ops[..k + 1][..k] == ops[..k];
    if k < |init| {
      NextOp(input, p, cl, init, k);
      assert init[..k] == ops[..k] && init[..k + 1] == ops[..k + 1];
    } else {
      assert init == ops[..k] && ops[..k + 1] == ops;
    }
  }

  ghost predicate NoLengths(input: seq<Byte>, p: nat, n: int) {
    forall h :: LengthsAt(input, p, h) ==> !HeaderFed(input, p, n, h)
  }

  ghost predicate NoHeader(input: seq<Byte>, p: nat, n: int) {
    forall h :: HeaderAt(input, p, h) ==> !HeaderFed(input, p, n, h)
  }

  /** The counts and code length lengths are `hlit`, `hdist`, `hclen` and `cl`, and they lead nowhere. */
  lemma {:induction false} StuckInLengths(input: seq<Byte>, p: nat, n: int, hlit: nat, hdist: nat, hclen: nat,
      cl: seq<nat>)
    requires hlit == 257 + Lsb(input, p, 5) && hdist == 1 + Lsb(input, p + 5, 5) && hclen == 4 + Lsb(input, p + 10, 4)
    requires CodeLengthsAt(input, p + 14, hclen, cl)
    requires !KraftOk(cl) || NoOps(input, p + 14 + 3 * hclen, AfterCounts(n, hclen), cl, hlit + hdist)
    ensures NoLengths(input, p, n)
  {
    hide Lsb, CodeLengthsAt, KraftOk, OpsAt, OpsFed, OpsBits, Unroll, AfterCounts;
    forall h | LengthsAt(input, p, h) ensures !HeaderFed(input, p, n, h) {
      CodeLengthsUnique(input, p + 14, hclen, cl, h.cl);
    }
  }

  lemma {:induction false} NoLengthsNoHeader(input: seq<Byte>, p: nat, n: int)
    requires NoLengths(input, p, n)
    ensures NoHeader(input, p, n)
  {
    hide LengthsAt, HeaderFed, KraftOk, Unroll;
  }

  lemma {:induction false} BadHeader(input: seq<Byte>, p: nat, n: int, h: Header)
    requires LengthsAt(input, p, h)
    requires !KraftOk(h.Lit()) || !KraftOk(h.Dist())
    ensures NoHeader(input, p, n)
  {
    hide Lsb, KraftOk, HeaderFed, CodeLengthsAt, OpsAt, Unroll;
    forall g | HeaderAt(input, p, g) ensures false {
      HeaderUnique(input, p, h, g);
    }
  }

  // ----- blocks -----

  ghost predicate NoBody(input: seq<Byte>, p: nat, o: Output, cap: nat) {
    forall b :: BodyAt(input, p, b) ==> PastEnd(input, BlockEnd(p, b)) || Overflows(ApplyBlock(o, b), cap)
  }

  ghost predicate NoDeflate(input: seq<Byte>, p: nat, cap: nat) {
    forall bs :: DeflateAt(input, p, bs) ==>
      PastEnd(input, BlocksEnd(p, bs)) || Overflows(Meaning(Bytes([]), bs), cap)
  }

  lemma {:induction false} NoStored(input: seq<Byte>, p: nat, o: Output, cap: nat, len: nat, nlen: nat)
    requires Lsb(input, p + 1, 2) == 0
    requires var f := ByteBoundary(p + 3);
             && len == Lsb(input, 8 * f, 16) && nlen == Lsb(input, 8 * f + 16, 16)
             && (nlen != 0xFFFF - len || PastEnd(input, 8 * (f + 4 + len)) || !o.Bytes? || |o.bytes| + len > cap)
    ensures NoBody(input, p, o, cap)
  {
    hide Lsb, DataAt, HeaderAt;
  }

  lemma {:induction false} NoFixed(input: seq<Byte>, p: nat, o: Output, cap: nat)
    requires Lsb(input, p + 1, 2) == 1 && NoData(input, p + 3, FixedLit(), FixedDist(), o, cap)
    ensures NoBody(input, p, o, cap)
  {
    hide Lsb, DataAt, DataBits, ApplyAll, FixedLit, FixedDist, StoredAt, HeaderAt;
  }

  lemma {:induction false} NoDynamic(input: seq<Byte>, p: nat, n: int, o: Output, cap: nat)
    requires Lsb(input, p + 1, 2) == 2 && NoHeader(input, p + 3, n)
    ensures NoBody(input, p, o, cap)
  {
    hide Lsb, DataAt, DataBits, ApplyAll, StoredAt, OpsAt, OpsFed, OpsBits, CodeLengthsAt, KraftOk, Unroll, AfterCounts;
    forall b | BodyAt(input, p, b) ensures PastEnd(input, BlockEnd(p, b)) {
      var h := b.header;
      assert HeaderAt(input, p + 3, h);
      UnfedIsPastEnd(input, p + 17 + 3 * h.hclen, AfterCounts(n, h.hclen), h.cl, h.ops);
    }
  }

  lemma {:induction false} NoDynamicData(input: seq<Byte>, p: nat, o: Output, cap: nat, h: Header)
    requires Lsb(input, p + 1, 2) == 2 && HeaderAt(input, p + 3, h)
    requires NoData(input, p + 3 + HeaderBits(h), h.Lit(), h.Dist(), o, cap)
    ensures NoBody(input, p, o, cap)
  {
    hide Lsb, DataAt, DataBits, ApplyAll, StoredAt, OpsAt, CodeLengthsAt, HeaderBits, KraftOk, Unroll;
    forall b | BodyAt(input, p, b)
      ensures PastEnd(input, BlockEnd(p, b)) || Overflows(ApplyBlock(o, b), cap)
    {
      HeaderUnique(input, p + 3, h, b.header);
    }
  }

  lemma {:induction false} NoKind(input: seq<Byte>, p: nat, o: Output, cap: nat)
    requires Lsb(input, p + 1, 2) == 3
    ensures NoBody(input, p, o, cap)
  {
    hide Lsb, DataAt, DataBits, StoredAt, HeaderAt;
  }

  lemma {:induction false} BlockGrows(o: Output, b: Block, cap: nat)
    requires Overflows(o, cap)
    ensures Overflows(ApplyBlock(o, b), cap)
  {
    hide Apply;
    if !b.Stored? {
      assert b.tokens[..0] == [];
      OutputGrows(o, b.tokens, 0, cap);
    }
  }

  lemma {:induction false} MeaningGrows(o: Output, bs: seq<Block>, k: nat, cap: nat)
    requires k <= |bs| && Overflows(Meaning(o, bs[..k]), cap)
    ensures Overflows(Meaning(o, bs), cap)
  {
    hide ApplyBlock;
    if k < |bs| {
      assert bs[..|bs| - 1][..k] == bs[..k];
      MeaningGrows(o, bs[..|bs| - 1], k, cap);
      BlockGrows(Meaning(o, bs[..|bs| - 1]), bs[|bs| - 1], cap);
    } else {
      assert bs[..k] == bs;
    }
  }

  lemma {:induction false} BlocksEndGrows(p: nat, bs: seq<Block>, k: nat)
    requires k <= |bs|
    ensures BlocksEnd(p, bs[..k]) <= BlocksEnd(p, bs)
  {
    hide DataBits, HeaderBits, Unroll;
    if k < |bs| {
      assert bs[..|bs| - 1][..k] == bs[..k];
      BlocksEndGrows(p, bs[..|bs| - 1], k);
    } else {
      assert bs[..k] == bs;
    }
  }

  /** The blocks read so far start every parse of the stream, and the next block is as read. */
  lemma {:induction false} NextBlock(input: seq<Byte>, p: nat, bs: seq<Block>, cs: seq<Block>)
    requires OpenBlocksAt(input, p, bs) && DeflateAt(input, p, cs)
    ensures |bs| < |cs| && cs[..|bs|] == bs
    ensures BodyAt(input, BlocksEnd(p, bs), cs[|bs|])
  {
    hide BodyAt, BlockEnd, OpenBlocksAt, BlocksEnd;
    DeflateNotLonger(input, p, cs, bs);
    var init := cs[..|cs| - 1];
    SameBlocks(input, p, bs, init, |bs|);
    assert bs[..|bs|] == bs && init[..|bs|] == cs[..|bs|];
    if |bs| < |init| {
      BlocksPrefix(input, p, init, |bs|);
    } else {
      assert init == bs;
    }
  }

  lemma {:induction false} StuckInBlocks(input: seq<Byte>, p: nat, cap: nat, bs: seq<Block>)
    requires OpenBlocksAt(input, p, bs)
    requires NoBody(input, BlocksEnd(p, bs), Meaning(Bytes([]), bs), cap)
    ensures NoDeflate(input, p, cap)
  {
    hide BodyAt, BlockEnd, OpenBlocksAt, ApplyBlock, DeflateAt;
    forall cs | DeflateAt(input, p, cs)
      ensures PastEnd(input, BlocksEnd(p, cs)) || Overflows(Meaning(Bytes([]), cs), cap)
    {
      NextBlock(input, p, bs, cs);
      var b := cs[|bs|];
      assert cs[..|bs| + 1] == bs + [b];
      MeaningSnoc(Bytes([]), bs, b);
      assert (bs + [b])[..|bs|] == bs;
      BlocksEndGrows(p, cs, |bs| + 1);
      if Overflows(ApplyBlock(Meaning(Bytes([]), bs), b), cap) {
        MeaningGrows(Bytes([]), cs, |bs| + 1, cap);
      }
    }
  }

  // ----- the number of loop turns a parse takes -----

  ghost function BlockTurns(b: Block): nat {
    if b.Stored? then 1 else |b.tokens| + 2
  }

  ghost function Turns(bs: seq<Block>): nat {
    if bs == [] then 0 else Turns(bs[..|bs| - 1]) + BlockTurns(bs[|bs| - 1])
  }

  lemma {:induction false} TurnsGrow(bs: seq<Block>, k: nat)
    requires k <= |bs|
    ensures Turns(bs[..k]) <= Turns(bs)
    ensures k < |bs| ==> Turns(bs[..k]) + BlockTurns(bs[k]) <= Turns(bs)
  {
    hide BlockTurns;
    if k < |bs| - 1 {
      assert bs[..|bs| - 1][..k] == bs[..k];
      TurnsGrow(bs[..|bs| - 1], k);
    } else if k == |bs| {
      assert bs[..k] == bs;
    }
  }

  // ----- the fixed codes are complete -----

  lemma {:induction false} KraftRun(lens: seq<nat>, a: nat, b: nat, l: nat)
    requires a <= b <= |lens| && 0 < l <= MAX_LEN
    requires forall i :: a <= i < b ==> lens[i] == l
    ensures KraftSum(lens, b) == KraftSum(lens, a) + (b - a) * Pow2(MAX_LEN - l)
  {
    hide Pow2;
    if a < b {
      var c := Pow2(MAX_LEN - l);
      KraftRun(lens, a, b - 1, l);
      assert KraftSum(lens, b) == KraftSum(lens, b - 1) + c;
      hide KraftSum;
      Sum(b - 1 - a, 1, c);
    }
  }

  lemma Powers()
    ensures Pow2(6) == 64 && Pow2(7) == 128 && Pow2(8) == 256 && Pow2(10) == 1024 && Pow2(15) == 32768
  {
    assert Pow2(8) == 4 * Pow2(6);
    assert Pow2(10) == 4 * Pow2(8);
    assert Pow2(15) == 32 * Pow2(10);
  }

  lemma {:induction false} RunsAreKraft(l: seq<nat>)
    requires |l| == 288 && forall i :: 0 <= i < 288 ==>
      l[i] == if i < 144 then 8 else if i < 256 then 9 else if i < 280 then 7 else 8
    ensures KraftOk(l)
  {
    Powers();
    hide Pow2, KraftSum;
    KraftEmpty(l);
    KraftRun(l, 0, 144, 8);
    KraftRun(l, 144, 256, 9);
    KraftRun(l, 256, 280, 7);
    KraftRun(l, 280, 288, 8);
  }

  lemma {:induction false} OneRunIsKraft(l: seq<nat>)
    requires |l| == 32 && forall i :: 0 <= i < 32 ==> l[i] == 5
    ensures KraftOk(l)
  {
    Powers();
    hide Pow2, KraftSum;
    KraftEmpty(l);
    KraftRun(l, 0, 32, 5);
  }

  lemma {:induction false} FixedIsKraft()
    ensures KraftOk(FixedLit()) && KraftOk(FixedDist())
  {
    hide KraftOk, KraftSum;
    RunsAreKraft(FixedLit());
    OneRunIsKraft(FixedDist());
  }

  lemma KraftEmpty(lens: seq<nat>)
    ensures KraftSum(lens, 0) == 0
  {}
}
