/** A bit stream has at most one parse: the relation of module Deflate is a function of the stream. */
module DeflateUnique {
  import opened BitStream
  import opened HuffmanCode
  import opened Deflate

  // ----- tokens -----

  /** The length or literal symbol a token starts with. */
  ghost function FirstSymbol(t: Token): nat {
    if t.Literal? then t.byte else t.lsym
  }

  lemma {:induction false} TokenUnique(input: seq<Byte>, p: nat, ll: seq<nat>, dl: seq<nat>, t: Token, u: Token)
    requires TokenAt(input, p, ll, dl, t) && TokenAt(input, p, ll, dl, u)
    ensures t == u
  {
    hide Lsb, Spells, LengthExtra, DistExtra;
    SpellsUnique(ll, FirstSymbol(t), FirstSymbol(u), Lsb(input, p, 16));
    if t.Copy? {
      var q := p + LenOf(ll, t.lsym) + LengthExtra(t.lsym);
      SpellsUnique(dl, t.dsym, u.dsym, Lsb(input, q, 16));
    }
  }

  /** Every prefix of a token list is spelt, and so is the token behind it. */
  lemma {:induction false} TokensPrefix(input: seq<Byte>, p: nat, ll: seq<nat>, dl: seq<nat>, ts: seq<Token>, k: nat)
    requires TokensAt(input, p, ll, dl, ts) && k < |ts|
    ensures TokensAt(input, p, ll, dl, ts[..k])
    ensures TokenAt(input, p + TokensBits(ll, dl, ts[..k]), ll, dl, ts[k])
  {
    hide TokenAt, TokenBits;
    var init := ts[..|ts| - 1];
    if k < |init| {
      TokensPrefix(input, p, ll, dl, init, k);
      assert init[..k] == ts[..k];
    }
  }

  lemma {:induction false} SameTokens(input: seq<Byte>, p: nat, ll: seq<nat>, dl: seq<nat>, ts: seq<Token>,
      us: seq<Token>, k: nat)
    requires TokensAt(input, p, ll, dl, ts) && TokensAt(input, p, ll, dl, us)
    requires k <= |ts| && k <= |us|
    ensures ts[..k] == us[..k]
  {
    hide TokenAt, TokenBits;
    if k > 0 {
      SameTokens(input, p, ll, dl, ts, us, k - 1);
      TokensPrefix(input, p, ll, dl, ts, k - 1);
      TokensPrefix(input, p, ll, dl, us, k - 1);
      TokenUnique(input, p + TokensBits(ll, dl, ts[..k - 1]), ll, dl, ts[k - 1], us[k - 1]);
      assert ts[..k] == ts[..k - 1] + [ts[k - 1]] && us[..k] == us[..k - 1] + [us[k - 1]];
    }
  }

  /** The end-of-block code cannot be taken for a token. */
  lemma {:induction false} NoTokenAtEnd(input: seq<Byte>, p: nat, ll: seq<nat>, dl: seq<nat>, t: Token)
    requires SymAt(input, p, ll, END_OF_BLOCK)
    ensures !TokenAt(input, p, ll, dl, t)
  {
    hide Lsb, Spells, PairAt;
    if TokenAt(input, p, ll, dl, t) {
      SpellsUnique(ll, FirstSymbol(t), END_OF_BLOCK, Lsb(input, p, 16));
    }
  }

  lemma {:induction false} DataNotLonger(input: seq<Byte>, p: nat, ll: seq<nat>, dl: seq<nat>, ts: seq<Token>,
      us: seq<Token>)
    requires DataAt(input, p, ll, dl, ts) && TokensAt(input, p, ll, dl, us)
    ensures |us| <= |ts|
  {
    hide TokenAt, SymAt, TokensAt, TokensBits;
    if |ts| < |us| {
      SameTokens(input, p, ll, dl, ts, us, |ts|);
      assert ts[..|ts|] == ts;
      TokensPrefix(input, p, ll, dl, us, |ts|);
      NoTokenAtEnd(input, p + TokensBits(ll, dl, ts), ll, dl, us[|ts|]);
    }
  }

  lemma {:induction false} DataUnique(input: seq<Byte>, p: nat, ll: seq<nat>, dl: seq<nat>, ts: seq<Token>,
      us: seq<Token>)
    requires DataAt(input, p, ll, dl, ts) && DataAt(input, p, ll, dl, us)
    ensures ts == us
  {
    hide TokensAt, SymAt, TokensBits;
    DataNotLonger(input, p, ll, dl, ts, us);
    DataNotLonger(input, p, ll, dl, us, ts);
    SameTokens(input, p, ll, dl, ts, us, |ts|);
    assert ts[..|ts|] == ts && us[..|us|] == us;
  }

  // ----- run-length operations -----

  ghost function OpSymbol(op: LenOp): nat {
    match op
    case Len(l) => l
    case Repeat(_) => 16
    case Zeros(_) => 17
    case ManyZeros(_) => 18
  }

  lemma {:induction false} OpUnique(input: seq<Byte>, p: nat, cl: seq<nat>, op: LenOp, oq: LenOp)
    requires OpAt(input, p, cl, op) && OpAt(input, p, cl, oq)
    ensures op == oq
  {
    hide Lsb, Spells;
    SpellsUnique(cl, OpSymbol(op), OpSymbol(oq), Lsb(input, p, 16));
  }

  lemma {:induction false} OpsPrefix(input: seq<Byte>, p: nat, cl: seq<nat>, ops: seq<LenOp>, k: nat)
    requires OpsAt(input, p, cl, ops) && k < |ops|
    ensures OpsAt(input, p, cl, ops[..k])
    ensures OpAt(input, p + OpsBits(cl, ops[..k]), cl, ops[k])
    ensures |Unroll(ops[..k])| < |Unroll(ops)|
  {
    hide Lsb, SymAt, OpBits;
    var init := ops[..|ops| - 1];
    assert |Unroll(init)| < |Unroll(ops)|;
    if k < |init| {
      OpsPrefix(input, p, cl, init, k);
      assert init[..k] == ops[..k];
    }
  }

  lemma {:induction false} SameOps(input: seq<Byte>, p: nat, cl: seq<nat>, ops: seq<LenOp>, oqs: seq<LenOp>, k: nat)
    requires OpsAt(input, p, cl, ops) && OpsAt(input, p, cl, oqs)
    requires k <= |ops| && k <= |oqs|
    ensures ops[..k] == oqs[..k]
  {
    hide OpAt, OpBits, UnrollOp;
    if k > 0 {
      SameOps(input, p, cl, ops, oqs, k - 1);
      OpsPrefix(input, p, cl, ops, k - 1);
      OpsPrefix(input, p, cl, oqs, k - 1);
      OpUnique(input, p + OpsBits(cl, ops[..k - 1]), cl, ops[k - 1], oqs[k - 1]);
      assert ops[..k] == ops[..k - 1] + [ops[k - 1]] && oqs[..k] == oqs[..k - 1] + [oqs[k - 1]];
    }
  }

  lemma {:induction false} OpsNotLonger(input: seq<Byte>, p: nat, cl: seq<nat>, ops: seq<LenOp>, oqs: seq<LenOp>)
    requires OpsAt(input, p, cl, ops) && OpsAt(input, p, cl, oqs)
    requires |Unroll(ops)| == |Unroll(oqs)|
    ensures |oqs| <= |ops|
  {
    hide OpsAt, Unroll;
    if |ops| < |oqs| {
      SameOps(input, p, cl, ops, oqs, |ops|);
      assert ops[..|ops|] == ops;
      OpsPrefix(input, p, cl, oqs, |ops|);
    }
  }

  lemma {:induction false} OpsUnique(input: seq<Byte>, p: nat, cl: seq<nat>, ops: seq<LenOp>, oqs: seq<LenOp>)
    requires OpsAt(input, p, cl, ops) && OpsAt(input, p, cl, oqs)
    requires |Unroll(ops)| == |Unroll(oqs)|
    ensures ops == oqs
  {
    hide OpsAt, Unroll;
    OpsNotLonger(input, p, cl, ops, oqs);
    OpsNotLonger(input, p, cl, oqs, ops);
    SameOps(input, p, cl, ops, oqs, |ops|);
    assert ops[..|ops|] == ops && oqs[..|oqs|] == oqs;
  }

  // ----- headers and blocks -----

  lemma {:induction false} CodeLengthsUnique(input: seq<Byte>, p: nat, hclen: nat, cl: seq<nat>, cm: seq<nat>)
    requires CodeLengthsAt(input, p, hclen, cl) && CodeLengthsAt(input, p, hclen, cm)
    ensures cl == cm
  {
    hide Lsb, CodeLengthOrder, CodeLengthSlot;
    forall l: ClIndex ensures cl[l] == cm[l] {
      OrderIsPermutation(l);
      assert CodeLengthOrder(CodeLengthSlot(l)) == l;
    }
  }

  lemma {:induction false} HeaderUnique(input: seq<Byte>, p: nat, h: Header, g: Header)
    requires LengthsAt(input, p, h) && LengthsAt(input, p, g)
    ensures h == g
  {
    hide Lsb, OpsAt, CodeLengthsAt, Unroll, KraftOk;
    CodeLengthsUnique(input, p + 14, h.hclen, h.cl, g.cl);
    OpsUnique(input, p + 14 + 3 * h.hclen, h.cl, h.ops, g.ops);
  }

  lemma {:induction false} BodyUnique(input: seq<Byte>, p: nat, b: Block, c: Block)
    requires BodyAt(input, p, b) && BodyAt(input, p, c)
    ensures b == c
  {
    hide Lsb, DataAt, CodeLengthsAt, OpsAt, Unroll, KraftOk, FixedLit, FixedDist, HeaderBits;
    match b
    case Stored(data) =>
      assert data == c.data;
    case Fixed(ts) =>
      DataUnique(input, p + 3, FixedLit(), FixedDist(), ts, c.tokens);
    case Dynamic(h, ts) =>
      HeaderUnique(input, p + 3, h, c.header);
      DataUnique(input, p + 3 + HeaderBits(h), h.Lit(), h.Dist(), ts, c.tokens);
  }

  lemma {:induction false} BlocksPrefix(input: seq<Byte>, p: nat, bs: seq<Block>, k: nat)
    requires OpenBlocksAt(input, p, bs) && k < |bs|
    ensures OpenBlocksAt(input, p, bs[..k])
    ensures BlockAt(input, BlocksEnd(p, bs[..k]), false, bs[k])
  {
    hide BlockAt, BlockEnd;
    var init := bs[..|bs| - 1];
    if k < |init| {
      BlocksPrefix(input, p, init, k);
      assert init[..k] == bs[..k];
    }
  }

  lemma {:induction false} SameBlocks(input: seq<Byte>, p: nat, bs: seq<Block>, cs: seq<Block>, k: nat)
    requires OpenBlocksAt(input, p, bs) && OpenBlocksAt(input, p, cs)
    requires k <= |bs| && k <= |cs|
    ensures bs[..k] == cs[..k]
  {
    hide BodyAt, BlockEnd;
    if k > 0 {
      SameBlocks(input, p, bs, cs, k - 1);
      BlocksPrefix(input, p, bs, k - 1);
      BlocksPrefix(input, p, cs, k - 1);
      BodyUnique(input, BlocksEnd(p, bs[..k - 1]), bs[k - 1], cs[k - 1]);
      assert bs[..k] == bs[..k - 1] + [bs[k - 1]] && cs[..k] == cs[..k - 1] + [cs[k - 1]];
    }
  }

  /** A stream that ends after `|bs|` blocks is not also the start of a longer one. */
  lemma {:induction false} DeflateNotLonger(input: seq<Byte>, p: nat, bs: seq<Block>, cs: seq<Block>)
    requires DeflateAt(input, p, bs) && OpenBlocksAt(input, p, cs)
    ensures |cs| < |bs|
  {
    hide BodyAt, BlockEnd, OpenBlocksAt, BlocksEnd;
    var n := |bs| - 1;
    if n < |cs| {
      SameBlocks(input, p, bs[..n], cs, n);
      assert bs[..n][..n] == bs[..n];
      BlocksPrefix(input, p, cs, n);
    }
  }

  /** The parse of a DEFLATE stream, and with it the decoded bytes, is unique. */
  lemma {:induction false} ParseUnique(input: seq<Byte>, p: nat, bs: seq<Block>, cs: seq<Block>)
    requires DeflateAt(input, p, bs) && DeflateAt(input, p, cs)
    ensures bs == cs
  {
    hide BodyAt, BlockEnd, OpenBlocksAt, BlocksEnd;
    var n := |bs| - 1;
    DeflateNotLonger(input, p, bs, cs[..|cs| - 1]);
    DeflateNotLonger(input, p, cs, bs[..n]);
    SameBlocks(input, p, bs[..n], cs[..n], n);
    assert bs[..n][..n] == bs[..n] && cs[..n][..n] == cs[..n];
    BodyUnique(input, BlocksEnd(p, bs[..n]), bs[n], cs[n]);
    assert bs == bs[..n] + [bs[n]] && cs == cs[..n] + [cs[n]];
  }
}
