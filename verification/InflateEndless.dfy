/** When the inflate decoder ends: how its blocks enter and leave the block loop, how many turns a whole stream
    can take, and what a stream looks like on which it never ends. */
module InflateEndless {
  import opened Arithmetic
  import opened Bits
  import opened BitStream
  import opened HuffmanCode
  import opened Deflate
  import opened DeflateUnique
  import opened InflateFailure
  import opened InflateRuns

  // ----- one block -----

  ghost predicate Of(e: Env, input: seq<Byte>, cap: nat) {
    e.input == input && e.cap == cap
  }

  /** The state of the decoder where the data of a block begins: `s` is where the block begins. */
  ghost function FixedData(s: State): State {
    State(s.p + 3, AfterBlockHead(s.n), s.size)
  }

  ghost function DynamicData(s: State, h: Header): State {
    State(s.p + 3 + HeaderBits(h), AfterHeader(AfterBlockHead(s.n), h), s.size)
  }

  ghost predicate DynamicEnters(e: Env, s: State, u: State, h: Header) {
    && HeaderAt(e.input, s.p + 3, h) && HeaderFed(e.input, s.p + 3, AfterBlockHead(s.n), h)
    && u == DynamicData(s, h) && e.ll == h.Lit() && e.dl == h.Dist()
  }

  /** On the block that begins in `s` the decoder starts its block loop in `u` with the codes of `e`. */
  ghost predicate Enters(e: Env, s: State, u: State) {
    || (Lsb(e.input, s.p + 1, 2) == 1 && u == FixedData(s) && e.ll == FixedLit() && e.dl == FixedDist())
    || (Lsb(e.input, s.p + 1, 2) == 2 && exists h :: DynamicEnters(e, s, u, h))
  }

  /** A stored block: its data is in the input and fits the output. */
  ghost predicate StoredFits(input: seq<Byte>, cap: nat, s: State, data: seq<Byte>) {
    var f := ByteBoundary(s.p + 3);
    && Lsb(input, s.p + 1, 2) == 0 && StoredAt(input, f, data)
    && f + 4 + |data| <= |input| && s.size + |data| <= cap
  }

  /** The loop entered from `s` finishes and leaves `t`. */
  ghost predicate Passes(e: Env, s: State, u: State, ts: seq<Token>, t: State) {
    Enters(e, s, u) && Finishes(e, u, ts) && t == Closed(e, After(e, u, ts))
  }

  /** The decoder reads the block `b` that begins in `s`, and is in `t` behind it. */
  ghost predicate Reads(input: seq<Byte>, cap: nat, s: State, b: Block, t: State) {
    match b
    case Stored(data) =>
      StoredFits(input, cap, s, data) && t == State(BlockEnd(s.p, b), 0, s.size + |data|)
    case _ =>
      BodyAt(input, s.p, b) && exists e, u :: Of(e, input, cap) && Passes(e, s, u, b.tokens, t)
  }

  /** The block loop on the block that begins in `s` can take `k` turns. */
  ghost predicate Lasts(input: seq<Byte>, cap: nat, s: State, k: nat) {
    exists e, u :: Of(e, input, cap) && Enters(e, s, u) && CanRun(e, u, k)
  }

  /** The block loop on the block that begins in `s` never ends. */
  ghost predicate Loops(input: seq<Byte>, cap: nat, s: State) {
    exists e, u :: Of(e, input, cap) && Enters(e, s, u) && forall k: nat :: CanRun(e, u, k)
  }

  /** The decoder leaves the block that begins in `s` without having read it. */
  ghost predicate GivesUp(input: seq<Byte>, cap: nat, s: State) {
    !Loops(input, cap, s) && forall b, t :: !Reads(input, cap, s, b, t)
  }

  lemma {:induction false} EntersUnique(d: Env, v: State, e: Env, u: State, s: State)
    requires Of(d, e.input, e.cap) && Enters(d, s, v) && Enters(e, s, u)
    ensures d == e && u == v
  {
    hide HeaderBits, HeaderFed, Lsb, KraftOk, LengthsAt, FixedLit, FixedDist;
    if Lsb(e.input, s.p + 1, 2) == 2 {
      var g :| DynamicEnters(d, s, v, g);
      var h :| DynamicEnters(e, s, u, h);
      HeaderUnique(e.input, s.p + 3, g, h);
    }
  }

  /** The data of a block that is complete. */
  lemma {:induction false} BodyData(e: Env, s: State, u: State, b: Block)
    requires Enters(e, s, u) && BodyAt(e.input, s.p, b)
    ensures !b.Stored? && DataAt(e.input, u.p, e.ll, e.dl, b.tokens)
  {
    hide Lsb, KraftOk, LengthsAt, HeaderFed, DataAt, StoredAt, HeaderBits, FixedLit, FixedDist;
    if b.Dynamic? {
      var h :| DynamicEnters(e, s, u, h);
      HeaderUnique(e.input, s.p + 3, h, b.header);
    }
  }

  lemma {:induction false} ReadsBody(input: seq<Byte>, cap: nat, s: State, b: Block, t: State)
    requires Reads(input, cap, s, b, t)
    ensures BodyAt(input, s.p, b) && t.p == BlockEnd(s.p, b)
  {
    hide Lsb, KraftOk, OpsAt, CodeLengthsAt, Unroll, HeaderFed, HeaderBits, DataAt, DataBits, StoredAt, FixedLit,
      FixedDist, Finishes, After;
    if !b.Stored? {
      var e, u :| Of(e, input, cap) && Passes(e, s, u, b.tokens, t);
      FinishesIsSpelt(e, u, b.tokens);
      if b.Dynamic? {
        var h :| DynamicEnters(e, s, u, h);
        HeaderUnique(input, s.p + 3, h, b.header);
      }
    }
  }

  /** What is read from a state is determined by it. */
  lemma {:induction false} ReadsUnique(input: seq<Byte>, cap: nat, s: State, b: Block, t: State, c: Block, v: State)
    requires Reads(input, cap, s, b, t) && Reads(input, cap, s, c, v)
    ensures b == c && t == v
  {
    hide BodyAt, BlockEnd, Enters, Finishes, After, StoredFits;
    ReadsBody(input, cap, s, b, t);
    ReadsBody(input, cap, s, c, v);
    BodyUnique(input, s.p, b, c);
    if !b.Stored? {
      var e, u :| Of(e, input, cap) && Passes(e, s, u, b.tokens, t);
      var d, w :| Of(d, input, cap) && Passes(d, s, w, c.tokens, v);
      EntersUnique(d, w, e, u, s);
    }
  }

  /** A block that is spelt completely does not keep its loop going for ever. */
  lemma {:induction false} NoEndlessBody(input: seq<Byte>, cap: nat, s: State, b: Block)
    requires Loops(input, cap, s)
    ensures !BodyAt(input, s.p, b)
  {
    hide BodyAt, Enters, Run, DataAt;
    if BodyAt(input, s.p, b) {
      var e, u :| Of(e, input, cap) && Enters(e, s, u) && forall k: nat :: CanRun(e, u, k);
      BodyData(e, s, u, b);
      assert CanRun(e, u, |b.tokens| + 1);
      var us :| |us| == |b.tokens| + 1 && Run(e, u, us);
      DataIsLongest(e, u, b.tokens, us);
    }
  }

  // ----- how the methods establish this -----

  lemma FixedEnters(e: Env, s: State)
    requires Lsb(e.input, s.p + 1, 2) == 1 && e.ll == FixedLit() && e.dl == FixedDist()
    ensures Enters(e, s, FixedData(s))
  {
    hide Lsb, FixedLit, FixedDist, HeaderAt, HeaderFed;
  }

  lemma HeaderEnters(e: Env, s: State, h: Header)
    requires Lsb(e.input, s.p + 1, 2) == 2 && HeaderAt(e.input, s.p + 3, h)
    requires HeaderFed(e.input, s.p + 3, AfterBlockHead(s.n), h) && e.ll == h.Lit() && e.dl == h.Dist()
    ensures Enters(e, s, DynamicData(s, h))
  {
    hide Lsb, HeaderAt, HeaderFed, HeaderBits, AfterHeader;
    assert DynamicEnters(e, s, DynamicData(s, h), h);
  }

  lemma LoopReads(e: Env, s: State, u: State, b: Block, t: State)
    requires BodyAt(e.input, s.p, b) && !b.Stored? && Enters(e, s, u) && Finishes(e, u, b.tokens)
    requires t == Closed(e, After(e, u, b.tokens))
    ensures Reads(e.input, e.cap, s, b, t)
  {
    hide BodyAt, Enters, Finishes, After, Closed;
    assert Passes(e, s, u, b.tokens, t);
  }

  lemma LoopLasts(e: Env, s: State, u: State, k: nat)
    requires Enters(e, s, u) && CanRun(e, u, k)
    ensures Lasts(e.input, e.cap, s, k)
  {
    hide Enters, CanRun;
  }

  /** The loop ended, but not behind the end-of-block code. */
  lemma {:induction false} LoopFails(e: Env, s: State, u: State, k: nat)
    requires Enters(e, s, u) && !CanRun(e, u, k) && forall ts :: !Finishes(e, u, ts)
    ensures GivesUp(e.input, e.cap, s)
  {
    hide Enters, CanRun, Finishes, BodyAt, StoredFits;
    if Loops(e.input, e.cap, s) {
      var d, v :| Of(d, e.input, e.cap) && Enters(d, s, v) && forall i: nat :: CanRun(d, v, i);
      EntersUnique(d, v, e, u, s);
    }
    forall b, t ensures !Reads(e.input, e.cap, s, b, t) {
      if Reads(e.input, e.cap, s, b, t) {
        ReadsBody(e.input, e.cap, s, b, t);
        BodyData(e, s, u, b);
        var d, v :| Of(d, e.input, e.cap) && Passes(d, s, v, b.tokens, t);
        EntersUnique(d, v, e, u, s);
      }
    }
  }

  /** A block of kind 3, or a stored block that does not fit. */
  lemma {:induction false} StoredFails(input: seq<Byte>, cap: nat, s: State)
    requires Lsb(input, s.p + 1, 2) == 3 ||
      (Lsb(input, s.p + 1, 2) == 0 && forall data :: !StoredFits(input, cap, s, data))
    ensures GivesUp(input, cap, s)
  {
    hide Lsb, Reads, StoredFits, Loops;
    NoLoopHere(input, cap, s);
    forall b, t ensures !Reads(input, cap, s, b, t) {
      if Reads(input, cap, s, b, t) {
        OnlyStored(input, cap, s, b, t);
      }
    }
  }

  lemma NoLoopHere(input: seq<Byte>, cap: nat, s: State)
    requires Lsb(input, s.p + 1, 2) != 1 && Lsb(input, s.p + 1, 2) != 2
    ensures !Loops(input, cap, s)
  {
    hide Lsb, HeaderAt, HeaderFed, FixedLit, FixedDist, CanRun;
  }

  lemma OnlyStored(input: seq<Byte>, cap: nat, s: State, b: Block, t: State)
    requires Reads(input, cap, s, b, t) && Lsb(input, s.p + 1, 2) != 1 && Lsb(input, s.p + 1, 2) != 2
    ensures b.Stored? && StoredFits(input, cap, s, b.data) && Lsb(input, s.p + 1, 2) == 0
  {
    hide Lsb, HeaderAt, DataAt, StoredAt, FixedLit, FixedDist;
  }

  lemma StoredUnfit(input: seq<Byte>, cap: nat, s: State, len: nat, nlen: nat)
    requires Lsb(input, s.p + 1, 2) == 0
    requires var f := ByteBoundary(s.p + 3);
      && len == Lsb(input, 8 * f, 16) && nlen == Lsb(input, 8 * f + 16, 16)
      && (nlen != 0xFFFF - len || f + 4 + len > |input| || s.size + len > cap)
    ensures GivesUp(input, cap, s)
  {
    hide Lsb, GivesUp;
    StoredFails(input, cap, s);
  }

  lemma {:induction false} HeaderFails(input: seq<Byte>, cap: nat, s: State)
    requires Lsb(input, s.p + 1, 2) == 2 && NoHeader(input, s.p + 3, AfterBlockHead(s.n))
    ensures GivesUp(input, cap, s)
  {
    hide Lsb, HeaderAt, HeaderFed, HeaderBits, DataAt, FixedLit, FixedDist, StoredAt, CanRun, Finishes;
    forall e, u, h | Of(e, input, cap) ensures !DynamicEnters(e, s, u, h) {}
  }

  // ----- how many turns a stream can take -----

  /** No block starts past the end of the input: there the bits are those of a stored block with LEN = NLEN = 0. */
  lemma {:induction false} BlockStartsWithin(input: seq<Byte>, p: nat, b: Block)
    requires BodyAt(input, p, b)
    ensures p < 8 * |input|
  {
    hide Lsb, DataAt, HeaderAt;
    if p >= 8 * |input| {
      var f := ByteBoundary(p + 3);
      LsbPastEnd(input, p + 1, 2);
      LsbPastEnd(input, 8 * f, 16);
      LsbPastEnd(input, 8 * f + 16, 16);
    }
  }

  lemma BlockTakesBits(input: seq<Byte>, p: nat, b: Block)
    requires BodyAt(input, p, b)
    ensures BlockEnd(p, b) >= p + 3
  {
    hide Lsb, DataAt, StoredAt, KraftOk, OpsAt, CodeLengthsAt, Unroll, HeaderBits, DataBits;
  }

  lemma {:induction false} BlockCount(input: seq<Byte>, p: nat, bs: seq<Block>)
    requires OpenBlocksAt(input, p, bs)
    ensures BlocksEnd(p, bs) >= p + |bs| && |bs| <= 8 * |input|
  {
    hide BodyAt, BlockEnd;
    if bs != [] {
      var init, b := bs[..|bs| - 1], bs[|bs| - 1];
      BlockCount(input, p, init);
      BlockStartsWithin(input, BlocksEnd(p, init), b);
      BlockTakesBits(input, BlocksEnd(p, init), b);
    }
  }

  /** With every block in bounds, so is the stream. */
  ghost predicate ShortBlocks(bs: seq<Block>, bound: nat) {
    forall b :: b in bs ==> BlockTurns(b) <= bound + 2
  }

  lemma NoBlocks(bound: nat)
    ensures ShortBlocks([], bound)
  {}

  lemma MoreShort(bs: seq<Block>, b: Block, bound: nat)
    requires ShortBlocks(bs, bound) && BlockTurns(b) <= bound + 2
    ensures ShortBlocks(bs + [b], bound)
  {
    hide BlockTurns;
  }

  lemma {:induction false} TurnsBound(bs: seq<Block>, bound: nat)
    requires ShortBlocks(bs, bound)
    ensures Turns(bs) <= |bs| * (bound + 2)
  {
    hide BlockTurns;
    if bs != [] {
      var init := bs[..|bs| - 1];
      TurnsBound(init, bound);
      assert bs[|bs| - 1] in bs;
      Sum(|init|, 1, bound + 2);
    }
  }

  /** More turns than any stream takes on which the decoder ends. */
  function StreamBound(input: seq<Byte>, cap: nat): nat {
    8 * |input| * (Bound(input, cap) + 2) + Bound(input, cap) + 1
  }

  lemma {:induction false} OpenTurns(input: seq<Byte>, p: nat, cap: nat, bs: seq<Block>)
    requires OpenBlocksAt(input, p, bs) && ShortBlocks(bs, Bound(input, cap))
    ensures Turns(bs) + 1 + Bound(input, cap) <= StreamBound(input, cap)
  {
    hide OpenBlocksAt, ShortBlocks, Turns, BlocksEnd, Bound;
    BlockCount(input, p, bs);
    TurnsBound(bs, Bound(input, cap));
    MulMono(Bound(input, cap) + 2, |bs|, 8 * |input|);
  }

  lemma RunShorter(e: Env, s: State, k: nat, m: nat)
    requires CanRun(e, s, k) && m <= k
    ensures CanRun(e, s, m)
  {
    hide Run;
    var ts :| |ts| == k && Run(e, s, ts);
    RunPrefix(e, s, ts, m);
  }

  /** The loop entered from `s` takes more turns than its bound. */
  lemma {:induction false} LastsForEver(input: seq<Byte>, cap: nat, s: State, k: nat)
    requires Lasts(input, cap, s, k) && k >= Bound(input, cap) && Level(s) && s.size <= cap
    ensures Loops(input, cap, s)
  {
    hide Enters, Codes, Level, CanRun;
    var e, u :| Of(e, input, cap) && Enters(e, s, u) && CanRun(e, u, k);
    EntersLevel(e, s, u);
    RunShorter(e, u, k, TurnBound(e));
    NeverEnds(e, u);
  }

  lemma ChainLoops(input: seq<Byte>, cap: nat, bs: seq<Block>, states: seq<State>)
    requires Chain(input, cap, bs, states) && Loops(input, cap, states[|bs|])
    ensures NeverEnding(input, cap, states[0])
  {
    hide Reads, Loops, Lsb;
  }

  // ----- the whole stream -----

  /** From `states[0]` the decoder reads the blocks `bs`, none of them marked final, through the states given. */
  ghost predicate Chain(input: seq<Byte>, cap: nat, bs: seq<Block>, states: seq<State>) {
    && |states| == |bs| + 1
    && forall i {:trigger bs[i]} :: 0 <= i < |bs| ==>
         Reads(input, cap, states[i], bs[i], states[i + 1]) && Lsb(input, states[i].p, 1) == 0
  }

  /** The decoder reaches a block on which its loop never ends. */
  ghost predicate NeverEnding(input: seq<Byte>, cap: nat, s: State) {
    exists bs, states: seq<State> ::
      Chain(input, cap, bs, states) && states[0] == s && Loops(input, cap, states[|bs|])
  }

  lemma ChainStart(input: seq<Byte>, cap: nat, s: State)
    ensures Chain(input, cap, [], [s])
  {}

  lemma ChainSnoc(input: seq<Byte>, cap: nat, bs: seq<Block>, states: seq<State>, b: Block, t: State)
    requires Chain(input, cap, bs, states)
    requires Reads(input, cap, states[|bs|], b, t) && Lsb(input, states[|bs|].p, 1) == 0
    ensures Chain(input, cap, bs + [b], states + [t])
  {
    hide Reads, Lsb;
    var cs, ts := bs + [b], states + [t];
    forall i | 0 <= i < |cs| ensures Reads(input, cap, ts[i], cs[i], ts[i + 1]) && Lsb(input, ts[i].p, 1) == 0 {
      if i < |bs| {
        ChainAt(input, cap, bs, states, i);
      }
    }
  }

  lemma ChainAt(input: seq<Byte>, cap: nat, bs: seq<Block>, states: seq<State>, i: nat)
    requires Chain(input, cap, bs, states) && i < |bs|
    ensures Reads(input, cap, states[i], bs[i], states[i + 1]) && Lsb(input, states[i].p, 1) == 0
  {
    hide Reads, Lsb;
    var b := bs[i];
  }

  /** Two chains from one state agree as long as both go on. */
  lemma {:induction false} ChainsAgree(input: seq<Byte>, cap: nat, bs: seq<Block>, ss: seq<State>, cs: seq<Block>,
      ts: seq<State>, k: nat)
    requires Chain(input, cap, bs, ss) && Chain(input, cap, cs, ts) && ss[0] == ts[0] && k <= |bs| && k <= |cs|
    ensures ss[k] == ts[k]
  {
    hide Reads, Lsb;
    if k > 0 {
      ChainsAgree(input, cap, bs, ss, cs, ts, k - 1);
      ChainAt(input, cap, bs, ss, k - 1);
      ChainAt(input, cap, cs, ts, k - 1);
      ReadsUnique(input, cap, ss[k - 1], bs[k - 1], ss[k], cs[k - 1], ts[k]);
    }
  }

  lemma {:induction false} ReadsNoLoop(input: seq<Byte>, cap: nat, s: State, b: Block, t: State)
    requires Reads(input, cap, s, b, t)
    ensures !Loops(input, cap, s)
  {
    hide Reads, Loops, BodyAt;
    ReadsBody(input, cap, s, b, t);
    if Loops(input, cap, s) {
      NoEndlessBody(input, cap, s, b);
    }
  }

  /** The decoder has stopped behind the blocks `bs`: it left the next block unread, or read it and it was the
      last. */
  ghost predicate Stopped(input: seq<Byte>, cap: nat, s: State) {
    GivesUp(input, cap, s) || (Lsb(input, s.p, 1) == 1 && exists b, t :: Reads(input, cap, s, b, t))
  }

  lemma {:induction false} StoppedEnds(input: seq<Byte>, cap: nat, bs: seq<Block>, states: seq<State>)
    requires Chain(input, cap, bs, states) && Stopped(input, cap, states[|bs|])
    ensures !NeverEnding(input, cap, states[0])
  {
    hide Reads, Loops, Lsb;
    if NeverEnding(input, cap, states[0]) {
      var cs, ts: seq<State> :| Chain(input, cap, cs, ts) && ts[0] == states[0] && Loops(input, cap, ts[|cs|]);
      var s := states[|bs|];
      if |cs| < |bs| {
        ChainsAgree(input, cap, bs, states, cs, ts, |cs|);
        ChainAt(input, cap, bs, states, |cs|);
        ReadsNoLoop(input, cap, states[|cs|], bs[|cs|], states[|cs| + 1]);
      } else {
        ChainsAgree(input, cap, bs, states, cs, ts, |bs|);
        if |bs| < |cs| {
          ChainAt(input, cap, cs, ts, |bs|);
        } else if !GivesUp(input, cap, s) {
          var b, t :| Reads(input, cap, s, b, t);
          ReadsNoLoop(input, cap, s, b, t);
        }
      }
    }
  }

  /** A chain is an open list of blocks. */
  lemma {:induction false} ChainIsOpen(input: seq<Byte>, cap: nat, bs: seq<Block>, states: seq<State>)
    requires Chain(input, cap, bs, states)
    ensures OpenBlocksAt(input, states[0].p, bs) && BlocksEnd(states[0].p, bs) == states[|bs|].p
  {
    if bs != [] {
      hide Reads, Lsb, BodyAt, BlockEnd;
      var n := |bs| - 1;
      ChainInit(input, cap, bs, states);
      ChainIsOpen(input, cap, bs[..n], states[..n + 1]);
      ChainAt(input, cap, bs, states, n);
      ReadsBody(input, cap, states[n], bs[n], states[n + 1]);
    }
  }

  lemma ChainInit(input: seq<Byte>, cap: nat, bs: seq<Block>, states: seq<State>)
    requires Chain(input, cap, bs, states) && bs != []
    ensures Chain(input, cap, bs[..|bs| - 1], states[..|bs|])
  {
    hide Reads, Lsb;
    var cs, ts := bs[..|bs| - 1], states[..|bs|];
    forall i | 0 <= i < |cs| ensures Reads(input, cap, ts[i], cs[i], ts[i + 1]) && Lsb(input, ts[i].p, 1) == 0 {
      ChainAt(input, cap, bs, states, i);
    }
  }

  /** A stream that the decoder never finishes is not a DEFLATE stream. */
  lemma {:induction false} EndlessIsNoDeflate(input: seq<Byte>, cap: nat, s: State, cs: seq<Block>)
    requires NeverEnding(input, cap, s)
    ensures !DeflateAt(input, s.p, cs)
  {
    hide Reads, Lsb, OpenBlocksAt, BlocksEnd, DeflateAt, BodyAt, Loops;
    if DeflateAt(input, s.p, cs) {
      var bs, states: seq<State> :|
        Chain(input, cap, bs, states) && states[0] == s && Loops(input, cap, states[|bs|]);
      ChainIsOpen(input, cap, bs, states);
      NextBlock(input, s.p, bs, cs);
      NoEndlessBody(input, cap, states[|bs|], cs[|bs|]);
    }
  }

  // ----- levels of reservoir and output along a stream -----

  lemma {:induction false} UnrolledShort(input: seq<Byte>, p: nat, cl: seq<nat>, ops: seq<LenOp>)
    requires OpsAt(input, p, cl, ops)
    ensures forall i :: 0 <= i < |Unroll(ops)| ==> Unroll(ops)[i] <= MAX_LEN
  {
    hide SymAt, Lsb, OpBits;
    if ops != [] {
      UnrolledShort(input, p, cl, ops[..|ops| - 1]);
    }
  }

  lemma {:induction false} OpsHeld(input: seq<Byte>, p: nat, n: int, cl: seq<nat>, ops: seq<LenOp>)
    requires OpsAt(input, p, cl, ops) && Held(p, n) && forall i :: 0 <= i < |cl| ==> cl[i] <= MAX_LEN
    ensures Held(p + OpsBits(cl, ops), AfterOps(n, cl, ops))
  {
    hide Held, Ready, Received, OpAt, OpBits, AfterOp;
    if ops != [] {
      var init, op := ops[..|ops| - 1], ops[|ops| - 1];
      OpsHeld(input, p, n, cl, init);
      OpHeld(p + OpsBits(cl, init), AfterOps(n, cl, init), cl, op);
    }
  }

  lemma {:induction false} OpHeld(p: nat, n: int, cl: seq<nat>, op: LenOp)
    requires Held(p, n) && forall i :: 0 <= i < |cl| ==> cl[i] <= MAX_LEN
    ensures Held(p + OpBits(cl, op), AfterOp(n, cl, op))
  {
    hide Held, Ready, Received;
    ReadyHeld(p, n);
    var sym := match op case Len(l) => l case Repeat(_) => 16 case Zeros(_) => 17 case ManyZeros(_) => 18;
    var len := LenOf(cl, sym);
    TakenHeld(p, Ready(n), len);
    ReceivedHeld(p + len, Ready(n) - len, if op.Repeat? then 2 else if op.Zeros? then 3 else 7);
  }

  lemma {:induction false} ThreesHeld(p: nat, n: int, k: nat)
    requires Held(p, n)
    ensures Held(p + 3 * k, AfterThrees(n, k))
  {
    hide Held, Received;
    if k > 0 {
      ThreesHeld(p, n, k - 1);
      ReceivedHeld(p + 3 * (k - 1), AfterThrees(n, k - 1), 3);
    }
  }

  lemma {:induction false} EntersLevel(e: Env, s: State, u: State)
    requires Enters(e, s, u) && Level(s)
    ensures Level(u) && Codes(e) && u.size == s.size
  {
    hide Lsb, Held, Received, Ready, OpsFed, OpsAt, OpsBits, AfterOps, Unroll, CodeLengthsAt, KraftOk, AfterThrees;
    ReceivedHeld(s.p, s.n, 1);
    ReceivedHeld(s.p + 1, Received(s.n, 1), 2);
    if Lsb(e.input, s.p + 1, 2) == 2 {
      var h :| DynamicEnters(e, s, u, h);
      var q, n := s.p + 3, AfterBlockHead(s.n);
      HeaderLengths(e.input, q, h);
      ReceivedHeld(q, n, 5);
      ReceivedHeld(q + 5, Received(n, 5), 5);
      ReceivedHeld(q + 10, Received(Received(n, 5), 5), 4);
      ThreesHeld(q + 14, Received(Received(Received(n, 5), 5), 4), h.hclen);
      OpsHeld(e.input, q + 14 + 3 * h.hclen, AfterCounts(n, h.hclen), h.cl, h.ops);
    }
  }

  lemma {:induction false} HeaderLengths(input: seq<Byte>, p: nat, h: Header)
    requires LengthsAt(input, p, h)
    ensures forall i :: 0 <= i < |h.cl| ==> h.cl[i] <= MAX_LEN
    ensures Lengths(h.Lit()) && Lengths(h.Dist()) && |h.Dist()| <= 32
  {
    hide OpsAt, Unroll, KraftOk, Lsb, OpsBits;
    assert Pow2(3) == 8 && Pow2(5) == 32;
    UnrolledShort(input, p + 14 + 3 * h.hclen, h.cl, h.ops);
    forall i: ClIndex ensures h.cl[i] <= MAX_LEN {
      OrderIsPermutation(i);
      assert CodeLengthOrder(CodeLengthSlot(i)) == i;
    }
  }

  lemma {:induction false} ReadsLevel(input: seq<Byte>, cap: nat, s: State, b: Block, t: State)
    requires Reads(input, cap, s, b, t) && Level(s) && s.size <= cap
    ensures Level(t) && t.size <= cap
  {
    hide BodyAt, Enters, StoredAt, Held, Lsb, Run, After, SymAt, Codes;
    if b.Stored? {
      StoredHeld(ByteBoundary(s.p + 3) + 4 + |b.data|);
    } else {
      var e, u :| Of(e, input, cap) && Passes(e, s, u, b.tokens, t);
      EntersLevel(e, s, u);
      RunLevel(e, u, b.tokens);
      RunIsSpelt(e, u, b.tokens);
      ClosedLevel(e, After(e, u, b.tokens));
    }
  }

  lemma StoredHeld(f: nat)
    ensures Held(8 * f, 0)
  {}

  lemma ClosedLevel(e: Env, u: State)
    requires Codes(e) && Level(u)
    ensures Level(Closed(e, u))
  {
    hide Held, Ready;
    ReadyHeld(u.p, u.n);
    TakenHeld(u.p, Ready(u.n), LenOf(e.ll, END_OF_BLOCK));
  }

  lemma {:induction false} ChainLevel(input: seq<Byte>, cap: nat, bs: seq<Block>, states: seq<State>, k: nat)
    requires Chain(input, cap, bs, states) && Level(states[0]) && states[0].size <= cap && k <= |bs|
    ensures Level(states[k]) && states[k].size <= cap
  {
    hide Reads, Lsb, Held;
    if k > 0 {
      ChainLevel(input, cap, bs, states, k - 1);
      ChainAt(input, cap, bs, states, k - 1);
      ReadsLevel(input, cap, states[k - 1], bs[k - 1], states[k]);
    }
  }

  /** In a stream that the decoder never finishes a block gives a code to a reserved length symbol, and the zeros past
      the end of input spell it. */
  lemma {:induction false} EndlessIsReserved(input: seq<Byte>, cap: nat, s: State) returns (e: Env, t: Token)
    requires NeverEnding(input, cap, s) && Level(s) && s.size <= cap
    ensures Of(e, input, cap) && ReservedLength(t) && t.lsym < |e.ll| && e.ll[t.lsym] > 0
    ensures TokenAt(input, 8 * |input|, e.ll, e.dl, t)
    ensures exists bs, states: seq<State>, u ::
      Chain(input, cap, bs, states) && states[0] == s && Enters(e, states[|bs|], u)
  {
    hide Reads, Enters, CanRun, Lsb, PairAt, Msb, Code, Held;
    var bs, states: seq<State> :|
      Chain(input, cap, bs, states) && states[0] == s && Loops(input, cap, states[|bs|]);
    var v := states[|bs|];
    var u;
    e, u :| Of(e, input, cap) && Enters(e, v, u) && forall k: nat :: CanRun(e, u, k);
    ChainLevel(input, cap, bs, states, |bs|);
    EntersLevel(e, v, u);
    t := NeverEndsReserved(e, u);
  }
}
