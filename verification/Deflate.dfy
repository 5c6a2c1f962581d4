/** The compressed format of RFC 1951 as a relation between a bit stream and a parse: which bits
    spell a list of blocks, and which bytes those blocks stand for. Nothing here decodes. */
module Deflate {
  import opened Bits
  import opened BitStream
  import opened HuffmanCode

  // ----- section 3.2.5: length and distance symbols -----

  const LENGTH_BASE: seq<nat> :=
    [3, 4, 5, 6, 7, 8, 9, 10, 11, 13, 15, 17, 19, 23, 27, 31, 35, 43, 51, 59, 67, 83, 99, 115, 131, 163, 195, 227, 258,
     0, 0]
  const LENGTH_EXTRA: seq<nat> :=
    [0, 0, 0, 0, 0, 0, 0, 0, 1, 1, 1, 1, 2, 2, 2, 2, 3, 3, 3, 3, 4, 4, 4, 4, 5, 5, 5, 5, 0, 0, 0]
  const DIST_BASE: seq<nat> :=
    [1, 2, 3, 4, 5, 7, 9, 13, 17, 25, 33, 49, 65, 97, 129, 193, 257, 385, 513, 769, 1025, 1537, 2049, 3073,
     4097, 6145, 8193, 12289, 16385, 24577, 0, 0]
  const DIST_EXTRA: seq<nat> :=
    [0, 0, 0, 0, 1, 1, 2, 2, 3, 3, 4, 4, 5, 5, 6, 6, 7, 7, 8, 8, 9, 9, 10, 10, 11, 11, 12, 12, 13, 13, 0, 0]

  const END_OF_BLOCK: nat := 256
  const LAST_LENGTH_SYMBOL: nat := 285
  const LAST_DISTANCE_SYMBOL: nat := 29

  type LengthSymbol = n: nat | 257 <= n < 288 witness 257
  type DistanceSymbol = n: nat | n < 32

  function LengthBase(s: LengthSymbol): nat { LENGTH_BASE[s - 257] }

  function LengthExtra(s: LengthSymbol): (r: nat)
    ensures r <= 5
  {
    LENGTH_EXTRA[s - 257]
  }

  function DistBase(s: DistanceSymbol): (r: nat)
    ensures s <= LAST_DISTANCE_SYMBOL ==> r > 0
  {
    DIST_BASE[s]
  }

  function DistExtra(s: DistanceSymbol): (r: nat)
    ensures r <= 13
  {
    DIST_EXTRA[s]
  }

  /** One element of compressed data: a literal byte or a pair of symbols with their extra bits. */
  datatype Token =
    | Literal(byte: Byte)
    | Copy(lsym: LengthSymbol, lextra: nat, dsym: DistanceSymbol, dextra: nat)
  {
    function Length(): nat
      requires Copy?
    {
      LengthBase(lsym) + lextra
    }

    function Distance(): nat
      requires Copy?
    {
      DistBase(dsym) + dextra
    }
  }

  /** The bits at `p` start with the code of `sym`. */
  ghost predicate SymAt(input: seq<Byte>, p: nat, lens: seq<nat>, sym: nat) {
    Spells(lens, sym, Lsb(input, p, 16))
  }

  ghost function LenOf(lens: seq<nat>, sym: nat): nat {
    if sym < |lens| then lens[sym] else 0
  }

  /** The bits of a pair after its length code: extra bits, distance code, extra bits. */
  ghost function PairBits(dl: seq<nat>, t: Token): nat
    requires t.Copy?
  {
    LengthExtra(t.lsym) + LenOf(dl, t.dsym) + DistExtra(t.dsym)
  }

  ghost predicate PairAt(input: seq<Byte>, p: nat, dl: seq<nat>, t: Token)
    requires t.Copy?
  {
    var q := p + LengthExtra(t.lsym);
    && t.lextra == Lsb(input, p, LengthExtra(t.lsym))
    && SymAt(input, q, dl, t.dsym)
    && t.dextra == Lsb(input, q + LenOf(dl, t.dsym), DistExtra(t.dsym))
  }

  /** The number of bits a token takes. */
  ghost function TokenBits(ll: seq<nat>, dl: seq<nat>, t: Token): nat {
    match t
    case Literal(b) => LenOf(ll, b)
    case Copy(lsym, _, _, _) => LenOf(ll, lsym) + PairBits(dl, t)
  }

  /** The bits at `p` spell the token `t`. */
  ghost predicate TokenAt(input: seq<Byte>, p: nat, ll: seq<nat>, dl: seq<nat>, t: Token) {
    match t
    case Literal(b) => SymAt(input, p, ll, b)
    case Copy(lsym, _, _, _) => SymAt(input, p, ll, lsym) && PairAt(input, p + LenOf(ll, lsym), dl, t)
  }

  ghost function TokensBits(ll: seq<nat>, dl: seq<nat>, ts: seq<Token>): nat {
    if ts == [] then 0
    else TokensBits(ll, dl, ts[..|ts| - 1]) + TokenBits(ll, dl, ts[|ts| - 1])
  }

  ghost predicate TokensAt(input: seq<Byte>, p: nat, ll: seq<nat>, dl: seq<nat>, ts: seq<Token>) {
    ts == [] ||
    (&& TokensAt(input, p, ll, dl, ts[..|ts| - 1])
     && TokenAt(input, p + TokensBits(ll, dl, ts[..|ts| - 1]), ll, dl, ts[|ts| - 1]))
  }

  /** Tokens from `p`, closed by the end-of-block code. */
  ghost predicate DataAt(input: seq<Byte>, p: nat, ll: seq<nat>, dl: seq<nat>, ts: seq<Token>) {
    && TokensAt(input, p, ll, dl, ts)
    && SymAt(input, p + TokensBits(ll, dl, ts), ll, END_OF_BLOCK)
  }

  ghost function DataBits(ll: seq<nat>, dl: seq<nat>, ts: seq<Token>): nat {
    TokensBits(ll, dl, ts) + LenOf(ll, END_OF_BLOCK)
  }

  // ----- what tokens stand for -----

  /** `Reserved`: a symbol that "will never actually occur"; `BadDistance`: a copy from before the start. */
  datatype Output = Bytes(bytes: seq<Byte>) | Reserved | BadDistance

  /** Copy `n` bytes from distance `d`; the source may run into the bytes just copied. */
  ghost function CopyFrom(h: seq<Byte>, d: nat, n: nat): (r: seq<Byte>)
    requires 1 <= d <= |h|
    ensures |r| == |h| + n
    ensures r[..|h|] == h
    ensures forall i :: |h| <= i < |r| ==> r[i] == r[i - d]
    decreases n
  {
    if n == 0 then h
    else
      var r := CopyFrom(h + [h[|h| - d]], d, n - 1);
      assert r[..|h|] == r[..|h| + 1][..|h|];
      assert r[|h|] == r[..|h| + 1][|h|];
      assert r[|h| - d] == r[..|h| + 1][|h| - d];
      r
  }

  ghost function Apply(o: Output, t: Token): Output {
    match o
    case Bytes(h) => (
      match t
      case Literal(b) => Bytes(h + [b])
      case Copy(lsym, _, dsym, _) =>
        if lsym > LAST_LENGTH_SYMBOL || dsym > LAST_DISTANCE_SYMBOL then Reserved
        else if t.Distance() > |h| then BadDistance
        else Bytes(CopyFrom(h, t.Distance(), t.Length())))
    case _ => o
  }

  ghost function ApplyAll(o: Output, ts: seq<Token>): Output {
    if ts == [] then o else Apply(ApplyAll(o, ts[..|ts| - 1]), ts[|ts| - 1])
  }

  lemma {:induction false} ApplySnoc(o: Output, ts: seq<Token>, t: Token)
    ensures ApplyAll(o, ts + [t]) == Apply(ApplyAll(o, ts), t)
  {
    assert (ts + [t])[..|ts + [t]| - 1] == ts;
  }

  // ----- section 3.2.7: the code lengths of a dynamic block -----

  type ClIndex = n: nat | n < 19

  /** The order in which code length code lengths are stored. */
  function CodeLengthOrder(i: ClIndex): ClIndex {
    match i
    case 0 => 16 case 1 => 17 case 2 => 18 case 3 => 0 case 4 => 8 case 5 => 7 case 6 => 9
    case 7 => 6 case 8 => 10 case 9 => 5 case 10 => 11 case 11 => 4 case 12 => 12 case 13 => 3
    case 14 => 13 case 15 => 2 case 16 => 14 case 17 => 1 case _ => 15
  }

  /** Where the length of symbol `l` is stored. */
  function CodeLengthSlot(l: ClIndex): ClIndex {
    match l
    case 0 => 3 case 1 => 17 case 2 => 15 case 3 => 13 case 4 => 11 case 5 => 9 case 6 => 7
    case 7 => 5 case 8 => 4 case 9 => 6 case 10 => 8 case 11 => 10 case 12 => 12 case 13 => 14
    case 14 => 16 case 15 => 18 case 16 => 0 case 17 => 1 case _ => 2
  }

  lemma OrderIsPermutation(i: ClIndex)
    ensures CodeLengthSlot(CodeLengthOrder(i)) == i && CodeLengthOrder(CodeLengthSlot(i)) == i
  {}

  datatype LenOp =
    | Len(l: nat)          // 0 - 15
    | Repeat(n: nat)       // 16: the previous length 3 - 6 times
    | Zeros(n: nat)        // 17: 3 - 10 zeros
    | ManyZeros(n: nat)    // 18: 11 - 138 zeros

  ghost function OpBits(cl: seq<nat>, op: LenOp): nat {
    match op
    case Len(l) => LenOf(cl, l)
    case Repeat(_) => LenOf(cl, 16) + 2
    case Zeros(_) => LenOf(cl, 17) + 3
    case ManyZeros(_) => LenOf(cl, 18) + 7
  }

  ghost predicate OpAt(input: seq<Byte>, p: nat, cl: seq<nat>, op: LenOp) {
    match op
    case Len(l) => l < 16 && SymAt(input, p, cl, l)
    case Repeat(n) => SymAt(input, p, cl, 16) && n == 3 + Lsb(input, p + LenOf(cl, 16), 2)
    case Zeros(n) => SymAt(input, p, cl, 17) && n == 3 + Lsb(input, p + LenOf(cl, 17), 3)
    case ManyZeros(n) => SymAt(input, p, cl, 18) && n == 11 + Lsb(input, p + LenOf(cl, 18), 7)
  }

  ghost function OpsBits(cl: seq<nat>, ops: seq<LenOp>): nat {
    if ops == [] then 0 else OpsBits(cl, ops[..|ops| - 1]) + OpBits(cl, ops[|ops| - 1])
  }

  ghost function Replicate(v: nat, n: nat): (r: seq<nat>)
    ensures |r| == n && forall i :: 0 <= i < n ==> r[i] == v
  {
    seq(n, _ => v)
  }

  ghost function UnrollOp(lens: seq<nat>, op: LenOp): seq<nat> {
    match op
    case Len(l) => lens + [l]
    case Repeat(n) => lens + Replicate(if lens == [] then 0 else lens[|lens| - 1], n)
    case Zeros(n) => lens + Replicate(0, n)
    case ManyZeros(n) => lens + Replicate(0, n)
  }

  ghost function Unroll(ops: seq<LenOp>): seq<nat> {
    if ops == [] then [] else UnrollOp(Unroll(ops[..|ops| - 1]), ops[|ops| - 1])
  }

  /** There must be a previous length to repeat. */
  ghost predicate OpsAt(input: seq<Byte>, p: nat, cl: seq<nat>, ops: seq<LenOp>) {
    ops == [] ||
    (&& OpsAt(input, p, cl, ops[..|ops| - 1])
     && OpAt(input, p + OpsBits(cl, ops[..|ops| - 1]), cl, ops[|ops| - 1])
     && (ops[|ops| - 1].Repeat? ==> Unroll(ops[..|ops| - 1]) != []))
  }

  lemma {:induction false} OpsSnoc(input: seq<Byte>, p: nat, cl: seq<nat>, ops: seq<LenOp>, op: LenOp)
    requires OpsAt(input, p, cl, ops) && OpAt(input, p + OpsBits(cl, ops), cl, op)
    requires op.Repeat? ==> Unroll(ops) != []
    ensures OpsAt(input, p, cl, ops + [op])
    ensures OpsBits(cl, ops + [op]) == OpsBits(cl, ops) + OpBits(cl, op)
    ensures Unroll(ops + [op]) == UnrollOp(Unroll(ops), op)
  {
    hide OpAt, OpBits, UnrollOp;
    assert (ops + [op])[..|ops + [op]| - 1] == ops;
  }

  datatype Header = Header(hlit: nat, hdist: nat, hclen: nat, cl: seq<nat>, ops: seq<LenOp>)
  {
    ghost function Lit(): seq<nat>
      requires hlit <= |Unroll(ops)|
    {
      Unroll(ops)[..hlit]
    }

    ghost function Dist(): seq<nat>
      requires hlit <= |Unroll(ops)|
    {
      Unroll(ops)[hlit..]
    }
  }

  ghost predicate CodeLengthsAt(input: seq<Byte>, p: nat, hclen: nat, cl: seq<nat>) {
    && |cl| == 19
    && forall i: ClIndex :: cl[CodeLengthOrder(i)] == if i < hclen then Lsb(input, p + 3 * i, 3) else 0
  }

  /** The bits at `p` spell the code lengths of a dynamic block. */
  ghost predicate LengthsAt(input: seq<Byte>, p: nat, h: Header) {
    && h.hlit == 257 + Lsb(input, p, 5)
    && h.hdist == 1 + Lsb(input, p + 5, 5)
    && h.hclen == 4 + Lsb(input, p + 10, 4)
    && CodeLengthsAt(input, p + 14, h.hclen, h.cl)
    && KraftOk(h.cl)
    && OpsAt(input, p + 14 + 3 * h.hclen, h.cl, h.ops)
    && |Unroll(h.ops)| == h.hlit + h.hdist
  }

  ghost predicate HeaderAt(input: seq<Byte>, p: nat, h: Header) {
    LengthsAt(input, p, h) && KraftOk(h.Lit()) && KraftOk(h.Dist())
  }

  ghost function HeaderBits(h: Header): nat {
    14 + 3 * h.hclen + OpsBits(h.cl, h.ops)
  }

  // ----- section 3.2.6: the fixed codes -----

  function FixedLit(): (r: seq<nat>)
    ensures |r| == 288 && forall i :: 0 <= i < 288 ==> r[i] <= MAX_LEN
  {
    seq(288, i requires 0 <= i => if i <= 143 then 8 else if i <= 255 then 9 else if i <= 279 then 7 else 8)
  }

  function FixedDist(): (r: seq<nat>)
    ensures |r| == 32 && forall i :: 0 <= i < 32 ==> r[i] <= MAX_LEN
  {
    seq(32, _ => 5)
  }

  // ----- section 3.2.3: blocks -----

  datatype Block =
    | Stored(data: seq<Byte>)
    | Fixed(tokens: seq<Token>)
    | Dynamic(header: Header, tokens: seq<Token>)

  /** The next byte boundary at or after `p`, as a byte index. */
  function ByteBoundary(p: nat): nat {
    (p + 7) / 8
  }

  ghost predicate StoredAt(input: seq<Byte>, f: nat, data: seq<Byte>) {
    && Lsb(input, 8 * f, 16) == |data|
    && Lsb(input, 8 * f + 16, 16) == 0xFFFF - |data|
    && forall i: nat :: i < |data| ==> data[i] == ByteAt(input, f + 4 + i)
  }

  ghost predicate BodyAt(input: seq<Byte>, p: nat, b: Block) {
    match b
    case Stored(data) => Lsb(input, p + 1, 2) == 0 && StoredAt(input, ByteBoundary(p + 3), data)
    case Fixed(ts) => Lsb(input, p + 1, 2) == 1 && DataAt(input, p + 3, FixedLit(), FixedDist(), ts)
    case Dynamic(h, ts) =>
      && Lsb(input, p + 1, 2) == 2
      && HeaderAt(input, p + 3, h)
      && DataAt(input, p + 3 + HeaderBits(h), h.Lit(), h.Dist(), ts)
  }

  ghost predicate BlockAt(input: seq<Byte>, p: nat, final: bool, b: Block) {
    Lsb(input, p, 1) == Digit(final) && BodyAt(input, p, b)
  }

  ghost function BlockEnd(p: nat, b: Block): nat {
    match b
    case Stored(data) => 8 * (ByteBoundary(p + 3) + 4 + |data|)
    case Fixed(ts) => p + 3 + DataBits(FixedLit(), FixedDist(), ts)
    case Dynamic(h, ts) =>
      if h.hlit <= |Unroll(h.ops)| then p + 3 + HeaderBits(h) + DataBits(h.Lit(), h.Dist(), ts) else p
  }

  ghost function ApplyBlock(o: Output, b: Block): Output {
    match b
    case Stored(data) => if o.Bytes? then Bytes(o.bytes + data) else o
    case Fixed(ts) => ApplyAll(o, ts)
    case Dynamic(_, ts) => ApplyAll(o, ts)
  }

  ghost function BlocksEnd(p: nat, bs: seq<Block>): nat {
    if bs == [] then p else BlockEnd(BlocksEnd(p, bs[..|bs| - 1]), bs[|bs| - 1])
  }

  /** Blocks from `p`, none of them marked final. */
  ghost predicate OpenBlocksAt(input: seq<Byte>, p: nat, bs: seq<Block>) {
    bs == [] ||
    (&& OpenBlocksAt(input, p, bs[..|bs| - 1])
     && BlockAt(input, BlocksEnd(p, bs[..|bs| - 1]), false, bs[|bs| - 1]))
  }

  lemma {:induction false} BlocksSnoc(input: seq<Byte>, p: nat, bs: seq<Block>, b: Block, final: bool)
    requires OpenBlocksAt(input, p, bs) && BlockAt(input, BlocksEnd(p, bs), final, b)
    ensures BlocksEnd(p, bs + [b]) == BlockEnd(BlocksEnd(p, bs), b)
    ensures if final then DeflateAt(input, p, bs + [b]) else OpenBlocksAt(input, p, bs + [b])
  {
    assert (bs + [b])[..|bs + [b]| - 1] == bs;
  }

  /** The bits from `p` spell exactly the blocks `bs`, the last one and only it marked final. */
  ghost predicate DeflateAt(input: seq<Byte>, p: nat, bs: seq<Block>) {
    && bs != []
    && OpenBlocksAt(input, p, bs[..|bs| - 1])
    && BlockAt(input, BlocksEnd(p, bs[..|bs| - 1]), true, bs[|bs| - 1])
  }

  /** The bytes that a list of blocks stands for, from an initial output. */
  ghost function Meaning(o: Output, bs: seq<Block>): Output {
    if bs == [] then o else ApplyBlock(Meaning(o, bs[..|bs| - 1]), bs[|bs| - 1])
  }

  lemma {:induction false} MeaningSnoc(o: Output, bs: seq<Block>, b: Block)
    ensures Meaning(o, bs + [b]) == ApplyBlock(Meaning(o, bs), b)
  {
    assert (bs + [b])[..|bs + [b]| - 1] == bs;
  }
}
