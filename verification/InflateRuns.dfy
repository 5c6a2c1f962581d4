/** Runs of the block loop of the inflate decoder, told by the tokens it reads and the number of bits its
    reservoir holds: when a turn succeeds, and when the loop never ends. */
module InflateRuns {
  import opened Bits
  import opened BitStream
  import opened HuffmanCode
  import opened Deflate
  import opened DeflateUnique

  // ----- the number of bits held -----

  /** Filling adds whole bytes until more than 24 bits are held. */
  function Filled(n: int): int {
    n + (32 - n) / 8 * 8
  }

  lemma FilledByte(n: int)
    requires n <= 24
    ensures Filled(n) == Filled(n + 8) && (16 < n ==> Filled(n + 8) == n + 8)
  {}

  /** Before a symbol is decoded. */
  function Ready(n: int): int {
    if n < 16 then Filled(n) else n
  }

  /** After `k` bits are received. */
  function Received(n: int, k: nat): int {
    (if n < k then Filled(n) else n) - k
  }

  /** `n` bits held at stream position `p` end at a byte boundary. */
  predicate Held(p: int, n: int) {
    0 <= n <= 32 && (p + n) % 8 == 0
  }

  lemma ReadyHeld(p: int, n: int)
    requires Held(p, n)
    ensures 16 <= Ready(n) && Held(p, Ready(n))
  {}

  lemma ReceivedHeld(p: int, n: int, k: nat)
    requires Held(p, n) && k <= 24
    ensures Held(p + k, Received(n, k))
  {}

  lemma TakenHeld(p: int, n: int, k: nat)
    requires Held(p, n) && k <= n
    ensures Held(p + k, n - k)
  {}

  ghost function AfterLength(n: int, ll: seq<nat>, lsym: LengthSymbol): int {
    Received(Ready(n) - LenOf(ll, lsym), LengthExtra(lsym))
  }

  ghost function AfterToken(n: int, ll: seq<nat>, dl: seq<nat>, t: Token): int {
    match t
    case Literal(b) => Ready(n) - LenOf(ll, b)
    case Copy(lsym, _, dsym, _) => Received(Ready(AfterLength(n, ll, lsym)) - LenOf(dl, dsym), DistExtra(dsym))
  }

  /** After the final bit and the kind of a block. */
  function AfterBlockHead(n: int): int {
    Received(Received(n, 1), 2)
  }

  /** After `k` fields of three bits. */
  function AfterThrees(n: int, k: nat): int {
    if k == 0 then n else Received(AfterThrees(n, k - 1), 3)
  }

  /** After the counts of a dynamic header and the lengths of its code length code. */
  function AfterCounts(n: int, hclen: nat): int {
    AfterThrees(Received(Received(Received(n, 5), 5), 4), hclen)
  }

  ghost function AfterOp(n: int, cl: seq<nat>, op: LenOp): int {
    match op
    case Len(l) => Ready(n) - LenOf(cl, l)
    case Repeat(_) => Received(Ready(n) - LenOf(cl, 16), 2)
    case Zeros(_) => Received(Ready(n) - LenOf(cl, 17), 3)
    case ManyZeros(_) => Received(Ready(n) - LenOf(cl, 18), 7)
  }

  ghost function AfterOps(n: int, cl: seq<nat>, ops: seq<LenOp>): int {
    if ops == [] then n else AfterOp(AfterOps(n, cl, ops[..|ops| - 1]), cl, ops[|ops| - 1])
  }

  ghost function AfterHeader(n: int, h: Header): int {
    AfterOps(AfterCounts(n, h.hclen), h.cl, h.ops)
  }

  /** Fewer than 16 bits are held and the input is used up: the decoder gives up. */
  ghost predicate Starved(input: seq<Byte>, p: nat, n: int) {
    n < 16 && p + n >= 8 * |input|
  }

  /** The decoder does not give up before any of the operations from `p` on. */
  ghost predicate OpsFed(input: seq<Byte>, p: nat, n: int, cl: seq<nat>, ops: seq<LenOp>) {
    ops == [] ||
    (&& OpsFed(input, p, n, cl, ops[..|ops| - 1])
     && !Starved(input, p + OpsBits(cl, ops[..|ops| - 1]), AfterOps(n, cl, ops[..|ops| - 1])))
  }

  ghost predicate HeaderFed(input: seq<Byte>, p: nat, n: int, h: Header) {
    OpsFed(input, p + 14 + 3 * h.hclen, AfterCounts(n, h.hclen), h.cl, h.ops)
  }

  lemma {:induction false} OpsFedSnoc(input: seq<Byte>, p: nat, n: int, cl: seq<nat>, ops: seq<LenOp>, op: LenOp)
    ensures AfterOps(n, cl, ops + [op]) == AfterOp(AfterOps(n, cl, ops), cl, op)
    ensures OpsFed(input, p, n, cl, ops + [op]) <==>
      OpsFed(input, p, n, cl, ops) && !Starved(input, p + OpsBits(cl, ops), AfterOps(n, cl, ops))
  {
    hide AfterOp, OpsBits;
    assert (ops + [op])[..|ops + [op]| - 1] == ops;
  }

  lemma {:induction false} OpsFedPrefix(input: seq<Byte>, p: nat, n: int, cl: seq<nat>, ops: seq<LenOp>, k: nat)
    requires OpsFed(input, p, n, cl, ops) && k < |ops|
    ensures OpsFed(input, p, n, cl, ops[..k])
    ensures !Starved(input, p + OpsBits(cl, ops[..k]), AfterOps(n, cl, ops[..k]))
  {
    hide AfterOp, OpBits;
    var init := ops[..|ops| - 1];
    if k < |init| {
      OpsFedPrefix(input, p, n, cl, init, k);
      assert init[..k] == ops[..k];
    }
  }

  // ----- runs -----

  /** What does not change while block data is read. */
  datatype Env = Env(input: seq<Byte>, ll: seq<nat>, dl: seq<nat>, cap: nat)

  /** Between two turns: the stream position, the number of bits held, and the number of bytes written. */
  datatype State = State(p: nat, n: int, size: nat)

  ghost predicate Level(s: State) {
    Held(s.p, s.n)
  }

  ghost function Added(t: Token): nat {
    match t
    case Literal(_) => 1
    case Copy(_, _, _, _) => t.Length()
  }

  ghost function Next(e: Env, s: State, t: Token): State {
    State(s.p + TokenBits(e.ll, e.dl, t), AfterToken(s.n, e.ll, e.dl, t), s.size + Added(t))
  }

  /** The decoder does not give up before the symbols of `t`. */
  ghost predicate Enough(input: seq<Byte>, p: nat, n: int, ll: seq<nat>, t: Token) {
    && !Starved(input, p, n)
    && (t.Copy? ==> !Starved(input, p + LenOf(ll, t.lsym) + LengthExtra(t.lsym), AfterLength(n, ll, t.lsym)))
  }

  /** One turn reads and carries out the token `t`. */
  ghost predicate Moves(e: Env, s: State, t: Token) {
    && TokenAt(e.input, s.p, e.ll, e.dl, t) && Enough(e.input, s.p, s.n, e.ll, t)
    && s.size + Added(t) <= e.cap && (t.Copy? ==> t.Distance() <= s.size)
  }

  ghost function After(e: Env, s: State, ts: seq<Token>): State {
    if ts == [] then s else Next(e, After(e, s, ts[..|ts| - 1]), ts[|ts| - 1])
  }

  /** So many turns in a row read and carry out the tokens `ts`. */
  ghost predicate Run(e: Env, s: State, ts: seq<Token>) {
    ts == [] || (Run(e, s, ts[..|ts| - 1]) && Moves(e, After(e, s, ts[..|ts| - 1]), ts[|ts| - 1]))
  }

  /** No token can be read and carried out. */
  ghost predicate Stuck(e: Env, s: State) {
    forall t :: !Moves(e, s, t)
  }

  lemma {:induction false} RunSnoc(e: Env, s: State, ts: seq<Token>, t: Token)
    ensures After(e, s, ts + [t]) == Next(e, After(e, s, ts), t)
    ensures Run(e, s, ts + [t]) <==> Run(e, s, ts) && Moves(e, After(e, s, ts), t)
  {
    hide Moves, Next;
    assert (ts + [t])[..|ts + [t]| - 1] == ts;
  }

  lemma {:induction false} RunIsSpelt(e: Env, s: State, ts: seq<Token>)
    requires Run(e, s, ts)
    ensures TokensAt(e.input, s.p, e.ll, e.dl, ts)
    ensures After(e, s, ts).p == s.p + TokensBits(e.ll, e.dl, ts)
    ensures s.size <= e.cap ==> After(e, s, ts).size <= e.cap
  {
    hide TokenAt, TokenBits, Starved;
    if ts != [] {
      RunIsSpelt(e, s, ts[..|ts| - 1]);
    }
  }

  lemma {:induction false} RunPrefix(e: Env, s: State, ts: seq<Token>, k: nat)
    requires Run(e, s, ts) && k <= |ts|
    ensures Run(e, s, ts[..k])
    ensures k < |ts| ==> Moves(e, After(e, s, ts[..k]), ts[k])
  {
    hide Moves, Next;
    if k < |ts| {
      var init := ts[..|ts| - 1];
      RunPrefix(e, s, init, k);
      assert init[..k] == ts[..k];
    } else {
      assert ts[..k] == ts;
    }
  }

  /** A run is determined by its length: it starts every longer one. */
  lemma {:induction false} RunUnique(e: Env, s: State, ts: seq<Token>, us: seq<Token>)
    requires Run(e, s, ts) && Run(e, s, us) && |ts| <= |us|
    ensures us[..|ts|] == ts
  {
    hide Run, TokensAt;
    RunIsSpelt(e, s, ts);
    RunIsSpelt(e, s, us);
    SameTokens(e.input, s.p, e.ll, e.dl, ts, us, |ts|);
    assert ts[..|ts|] == ts;
  }

  /** A stuck run is as long as runs get. */
  lemma {:induction false} StuckIsLongest(e: Env, s: State, ts: seq<Token>, us: seq<Token>)
    requires Run(e, s, ts) && Stuck(e, After(e, s, ts)) && Run(e, s, us)
    ensures |us| <= |ts|
  {
    hide Run, Moves;
    if |us| > |ts| {
      RunUnique(e, s, ts, us);
      RunPrefix(e, s, us, |ts|);
    }
  }

  /** No run goes past complete block data. */
  lemma {:induction false} DataIsLongest(e: Env, s: State, ts: seq<Token>, us: seq<Token>)
    requires DataAt(e.input, s.p, e.ll, e.dl, ts) && Run(e, s, us)
    ensures |us| <= |ts|
  {
    hide DataAt, Run;
    RunIsSpelt(e, s, us);
    DataNotLonger(e.input, s.p, e.ll, e.dl, ts, us);
  }

  // ----- the end of a block -----

  /** Behind the end-of-block code. */
  ghost function Closed(e: Env, u: State): State {
    State(u.p + LenOf(e.ll, END_OF_BLOCK), Ready(u.n) - LenOf(e.ll, END_OF_BLOCK), u.size)
  }

  ghost predicate EndsHere(e: Env, u: State) {
    !Starved(e.input, u.p, u.n) && SymAt(e.input, u.p, e.ll, END_OF_BLOCK)
  }

  /** The loop that starts in `s` reads `ts` and then the end-of-block code. */
  ghost predicate Finishes(e: Env, s: State, ts: seq<Token>) {
    Run(e, s, ts) && EndsHere(e, After(e, s, ts))
  }

  lemma {:induction false} FinishesIsSpelt(e: Env, s: State, ts: seq<Token>)
    requires Finishes(e, s, ts)
    ensures DataAt(e.input, s.p, e.ll, e.dl, ts)
    ensures Closed(e, After(e, s, ts)).p == s.p + DataBits(e.ll, e.dl, ts)
  {
    hide Run, After, SymAt, TokensAt, TokensBits;
    RunIsSpelt(e, s, ts);
  }

  /** A loop that is stuck anywhere but at the end of the block does not finish. */
  lemma {:induction false} StuckNeverFinishes(e: Env, s: State, ts: seq<Token>, us: seq<Token>)
    requires Run(e, s, ts) && Stuck(e, After(e, s, ts)) && !EndsHere(e, After(e, s, ts))
    ensures !Finishes(e, s, us)
  {
    hide Run, After, Moves, EndsHere;
    if Finishes(e, s, us) {
      StuckIsLongest(e, s, ts, us);
      RunUnique(e, s, us, ts);
      assert ts[..|ts|] == ts;
      if |us| < |ts| {
        RunPrefix(e, s, ts, |us|);
        EndIsNoMove(e, After(e, s, us), ts[|us|]);
      }
    }
  }

  lemma EndIsNoMove(e: Env, u: State, t: Token)
    requires EndsHere(e, u)
    ensures !Moves(e, u, t)
  {
    hide SymAt, TokenAt;
    NoTokenAtEnd(e.input, u.p, e.ll, e.dl, t);
  }

  // ----- why a turn fails -----

  lemma {:induction false} StuckAtFirst(e: Env, s: State)
    requires Starved(e.input, s.p, s.n) || forall sym: nat :: !SymAt(e.input, s.p, e.ll, sym)
    ensures Stuck(e, s)
  {
    hide SymAt, PairAt;
    forall t ensures !Moves(e, s, t) {
      assert TokenAt(e.input, s.p, e.ll, e.dl, t) ==> SymAt(e.input, s.p, e.ll, FirstSymbol(t));
    }
  }

  lemma {:induction false} StuckAtDistance(e: Env, s: State, lsym: LengthSymbol)
    requires SymAt(e.input, s.p, e.ll, lsym)
    requires var q := s.p + LenOf(e.ll, lsym) + LengthExtra(lsym);
      Starved(e.input, q, AfterLength(s.n, e.ll, lsym)) || forall sym: nat :: !SymAt(e.input, q, e.dl, sym)
    ensures Stuck(e, s)
  {
    hide Lsb, Spells, LengthExtra, DistExtra, AfterLength;
    forall t ensures !Moves(e, s, t) {
      if TokenAt(e.input, s.p, e.ll, e.dl, t) {
        SpellsUnique(e.ll, FirstSymbol(t), lsym, Lsb(e.input, s.p, 16));
      }
    }
  }

  lemma {:induction false} StuckAtToken(e: Env, s: State, t: Token)
    requires TokenAt(e.input, s.p, e.ll, e.dl, t)
    requires s.size + Added(t) > e.cap || (t.Copy? && t.Distance() > s.size)
    ensures Stuck(e, s)
  {
    hide TokenAt, Starved, LengthBase, DistBase;
    forall u ensures !Moves(e, s, u) {
      if TokenAt(e.input, s.p, e.ll, e.dl, u) {
        TokenUnique(e.input, s.p, e.ll, e.dl, t, u);
      }
    }
  }

  /** The end-of-block code is no token. */
  lemma {:induction false} StuckAtEnd(e: Env, s: State)
    requires SymAt(e.input, s.p, e.ll, END_OF_BLOCK)
    ensures Stuck(e, s)
  {
    hide TokenAt, Starved, SymAt;
    forall t ensures !Moves(e, s, t) {
      NoTokenAtEnd(e.input, s.p, e.ll, e.dl, t);
    }
  }

  lemma {:induction false} OtherSymbol(e: Env, s: State, sym: nat)
    requires SymAt(e.input, s.p, e.ll, sym) && sym != END_OF_BLOCK
    ensures !EndsHere(e, s)
  {
    hide Lsb, Spells, Starved;
    if SymAt(e.input, s.p, e.ll, END_OF_BLOCK) {
      SpellsUnique(e.ll, sym, END_OF_BLOCK, Lsb(e.input, s.p, 16));
    }
  }

  lemma TokenNoEnd(e: Env, s: State, t: Token)
    requires TokenAt(e.input, s.p, e.ll, e.dl, t)
    ensures !EndsHere(e, s)
  {
    hide SymAt, TokenAt, Starved;
    if SymAt(e.input, s.p, e.ll, END_OF_BLOCK) {
      NoTokenAtEnd(e.input, s.p, e.ll, e.dl, t);
    }
  }

  // ----- a run without reserved length symbols is no longer than what it writes -----

  ghost predicate ReservedLength(t: Token) {
    t.Copy? && t.lsym > LAST_LENGTH_SYMBOL
  }

  lemma LengthIsPositive(s: LengthSymbol)
    ensures LengthBase(s) > 0 <==> s <= LAST_LENGTH_SYMBOL
  {}

  lemma {:induction false} GrowsOrReserved(e: Env, s: State, ts: seq<Token>)
    requires forall t :: t in ts ==> !ReservedLength(t)
    ensures s.size + |ts| <= After(e, s, ts).size
  {
    hide TokenBits, AfterToken, LengthBase;
    if ts != [] {
      GrowsOrReserved(e, s, ts[..|ts| - 1]);
      var t := ts[|ts| - 1];
      assert t in ts;
      if t.Copy? {
        LengthIsPositive(t.lsym);
      }
    }
  }

  // ----- past the end of the input -----

  lemma {:induction false} LsbPastEnd(input: seq<Byte>, p: nat, n: nat)
    requires p >= 8 * |input|
    ensures Lsb(input, p, n) == 0
    decreases n
  {
    if n > 0 {
      LsbPastEnd(input, p + 1, n - 1);
      BitOfZero(p % 8);
    }
  }

  /** There all positions look the same. */
  lemma {:induction false} SamePieces(input: seq<Byte>, p: nat, q: nat, ll: seq<nat>, dl: seq<nat>, t: Token)
    requires p >= 8 * |input| && q >= 8 * |input|
    ensures TokenAt(input, p, ll, dl, t) == TokenAt(input, q, ll, dl, t)
  {
    hide Lsb, Spells, LengthExtra, DistExtra;
    LsbPastEnd(input, p, 16);
    LsbPastEnd(input, q, 16);
    if t.Copy? {
      var a := LenOf(ll, t.lsym);
      var b := a + LengthExtra(t.lsym);
      var c := b + LenOf(dl, t.dsym);
      LsbPastEnd(input, p + a, LengthExtra(t.lsym));
      LsbPastEnd(input, q + a, LengthExtra(t.lsym));
      LsbPastEnd(input, p + b, 16);
      LsbPastEnd(input, q + b, 16);
      LsbPastEnd(input, p + c, DistExtra(t.dsym));
      LsbPastEnd(input, q + c, DistExtra(t.dsym));
    }
  }

  /** Code lengths as the tables are built for. */
  ghost predicate Codes(e: Env) {
    Lengths(e.ll) && Lengths(e.dl) && |e.dl| <= 32
  }

  lemma {:induction false} SameMoves(e: Env, s: State, q: nat, t: Token)
    requires s.p >= 8 * |e.input| && q >= 8 * |e.input| && Moves(e, s, t) && 0 <= s.n <= 32 && Codes(e)
    ensures Moves(e, s.(p := q), t)
  {
    hide Lsb, LengthExtra, DistExtra, LengthBase, DistBase, TokenAt;
    SamePieces(e.input, s.p, q, e.ll, e.dl, t);
  }

  /** Levels stay levels. */
  lemma {:induction false} NextLevel(e: Env, s: State, t: Token)
    requires Codes(e) && Level(s) && TokenAt(e.input, s.p, e.ll, e.dl, t)
    ensures Level(Next(e, s, t)) && Next(e, s, t).p > s.p
  {
    hide Lsb, LengthExtra, DistExtra, LengthBase, DistBase, Held, Ready, Received, Msb, Code;
    var m := Ready(s.n);
    ReadyHeld(s.p, s.n);
    match t
    case Literal(b) =>
      TakenHeld(s.p, m, LenOf(e.ll, b));
    case Copy(lsym, _, dsym, _) =>
      var a := s.p + LenOf(e.ll, lsym);
      TakenHeld(s.p, m, LenOf(e.ll, lsym));
      ReceivedHeld(a, m - LenOf(e.ll, lsym), LengthExtra(lsym));
      var b, k := a + LengthExtra(lsym), AfterLength(s.n, e.ll, lsym);
      ReadyHeld(b, k);
      TakenHeld(b, Ready(k), LenOf(e.dl, dsym));
      ReceivedHeld(b + LenOf(e.dl, dsym), Ready(k) - LenOf(e.dl, dsym), DistExtra(dsym));
  }

  lemma {:induction false} RunLevel(e: Env, s: State, ts: seq<Token>)
    requires Codes(e) && Level(s) && Run(e, s, ts)
    ensures Level(After(e, s, ts)) && After(e, s, ts).p >= s.p + |ts|
  {
    hide TokenAt, Next, Starved, Level;
    if ts != [] {
      var u := After(e, s, ts[..|ts| - 1]);
      RunLevel(e, s, ts[..|ts| - 1]);
      NextLevel(e, u, ts[|ts| - 1]);
    }
  }

  // ----- a long run never ends -----

  ghost predicate CanRun(e: Env, s: State, k: nat) {
    exists ts :: |ts| == k && Run(e, s, ts)
  }

  /** So many turns use up the input, fill the output, and bring back a number of bits held. */
  function Bound(input: seq<Byte>, cap: nat): nat {
    8 * |input| + cap + 34
  }

  function TurnBound(e: Env): nat {
    Bound(e.input, e.cap)
  }

  /** The same token again and again. */
  ghost function Again(e: Env, s: State, t: Token, m: nat): State {
    if m == 0 then s else Next(e, Again(e, s, t, m - 1), t)
  }

  lemma {:induction false} AgainGrows(e: Env, s: State, t: Token, m: nat)
    ensures Added(t) > 0 ==> Again(e, s, t, m).size >= s.size + m
    ensures Added(t) == 0 ==> Again(e, s, t, m).size == s.size
  {
    hide TokenBits, AfterToken, Added;
    if m > 0 {
      AgainGrows(e, s, t, m - 1);
    }
  }

  /** The number of bits held only depends on the number held before. */
  lemma {:induction false} AgainPeriodic(e: Env, s: State, t: Token, i: nat, j: nat, r: nat)
    requires Again(e, s, t, i).n == Again(e, s, t, j).n
    ensures Again(e, s, t, i + r).n == Again(e, s, t, j + r).n
  {
    hide TokenBits, AfterToken, Added;
    if r > 0 {
      AgainPeriodic(e, s, t, i, j, r - 1);
    }
  }

  /** Behind the end of the input a run repeats one token. */
  lemma {:induction false} TailRepeats(e: Env, s: State, ts: seq<Token>, a: nat, m: nat)
    requires Codes(e) && Level(s) && Run(e, s, ts) && a == 8 * |e.input| && a + m < |ts|
    ensures After(e, s, ts[..a + m]) == Again(e, After(e, s, ts[..a]), ts[a], m)
    ensures ts[a + m] == ts[a] && Moves(e, After(e, s, ts[..a + m]), ts[a])
    ensures Level(After(e, s, ts[..a + m])) && After(e, s, ts[..a + m]).p >= a
  {
    hide TokenAt, Next, Starved, Level, Run;
    var k := a + m;
    RunPrefix(e, s, ts, k);
    RunPrefix(e, s, ts, a);
    RunLevel(e, s, ts[..k]);
    RunLevel(e, s, ts[..a]);
    var u, v := After(e, s, ts[..a]), After(e, s, ts[..k]);
    SamePieces(e.input, v.p, u.p, e.ll, e.dl, ts[k]);
    TokenUnique(e.input, u.p, e.ll, e.dl, ts[k], ts[a]);
    if m > 0 {
      TailRepeats(e, s, ts, a, m - 1);
      assert ts[..k] == ts[..k - 1] + [ts[k - 1]];
      RunSnoc(e, s, ts[..k - 1], ts[k - 1]);
    }
  }

  ghost predicate AllDifferent(f: seq<int>) {
    forall i, j :: 0 <= i < j < |f| ==> f[i] != f[j]
  }

  /** Different numbers below `n` are at most `n` many. */
  lemma {:induction false} Pigeonhole(f: seq<int>, n: nat)
    requires AllDifferent(f) && forall k :: 0 <= k < |f| ==> 0 <= f[k] < n
    ensures |f| <= n
  {
    if f != [] {
      assert 0 <= f[0] < n;
      if k :| 0 <= k < |f| && f[k] == n - 1 {
        Pigeonhole(f[..k] + f[k + 1..], n - 1);
      } else {
        Pigeonhole(f, n - 1);
      }
    }
  }

  /** The token can be read again for ever: some number of bits held comes back. */
  lemma {:induction false} MovesForever(e: Env, s: State, t: Token, i: nat, j: nat, m: nat)
    requires Codes(e) && Level(s) && s.p >= 8 * |e.input| && Added(t) == 0
    requires i < j && Again(e, s, t, i).n == Again(e, s, t, j).n
    requires forall k: nat :: k < j ==> Moves(e, Again(e, s, t, k), t)
    ensures Moves(e, Again(e, s, t, m), t) && Level(Again(e, s, t, m)) && Again(e, s, t, m).p >= s.p
  {
    hide Moves, Next, Level, Added;
    if m > 0 {
      MovesForever(e, s, t, i, j, m - 1);
      assert Moves(e, Again(e, s, t, m - 1), t);
      StepLevel(e, Again(e, s, t, m - 1), t);
    }
    if m >= j {
      var k := m - (j - i);
      MovesForever(e, s, t, i, j, k);
      AgainPeriodic(e, s, t, i, j, m - j);
      AgainGrows(e, s, t, m);
      AgainGrows(e, s, t, k);
      var u, v := Again(e, s, t, k), Again(e, s, t, m);
      assert u.(p := v.p) == v;
      LevelBounds(u);
      SameMoves(e, u, v.p, t);
    }
  }

  lemma LevelBounds(s: State)
    requires Level(s)
    ensures 0 <= s.n <= 32
  {}

  lemma StepLevel(e: Env, s: State, t: Token)
    requires Codes(e) && Level(s) && Moves(e, s, t)
    ensures Level(Next(e, s, t)) && Next(e, s, t).p > s.p
  {
    hide TokenAt, Next, Level, Starved;
    NextLevel(e, s, t);
  }

  lemma {:induction false} RunOn(e: Env, s: State, ts: seq<Token>, t: Token, m: nat) returns (us: seq<Token>)
    requires Run(e, s, ts) && forall k: nat :: k < m ==> Moves(e, Again(e, After(e, s, ts), t, k), t)
    ensures |us| == |ts| + m && Run(e, s, us) && After(e, s, us) == Again(e, After(e, s, ts), t, m)
  {
    hide Moves, Next, Run;
    us := ts;
    if m > 0 {
      us := RunOn(e, s, ts, t, m - 1);
      RunSnoc(e, s, us, t);
      us := us + [t];
    }
  }

  /** The loop goes on for ever exactly if it goes on for `TurnBound` turns. */
  lemma {:induction false} NeverEnds(e: Env, s: State)
    requires Codes(e) && Level(s) && s.size <= e.cap
    ensures CanRun(e, s, TurnBound(e)) <==> forall k: nat :: CanRun(e, s, k)
  {
    if CanRun(e, s, TurnBound(e)) {
      var ts :| |ts| == TurnBound(e) && Run(e, s, ts);
      forall k: nat ensures CanRun(e, s, k) {
        LongRun(e, s, ts, k);
      }
    }
  }

  lemma {:induction false} LongRun(e: Env, s: State, ts: seq<Token>, k: nat)
    requires Codes(e) && Level(s) && s.size <= e.cap && |ts| == TurnBound(e) && Run(e, s, ts)
    ensures CanRun(e, s, k)
  {
    hide Run, Moves, Next, Level, Added, Codes;
    var a := 8 * |e.input|;
    if k <= a {
      RunPrefix(e, s, ts, k);
    } else {
      var u, t := After(e, s, ts[..a]), ts[a];
      RunPrefix(e, s, ts, a);
      assert ts[..a + 0] == ts[..a];
      TailRepeats(e, s, ts, a, 0);
      var i, j := Recurs(e, s, ts);
      forall m: nat | m < k - a ensures Moves(e, Again(e, u, t, m), t) {
        forall l: nat | l < j ensures Moves(e, Again(e, u, t, l), t) {
          TailRepeats(e, s, ts, a, l);
        }
        MovesForever(e, u, t, i, j, m);
      }
      var us := RunOn(e, s, ts[..a], t, k - a);
    }
  }

  /** The repeated token adds nothing, and some number of bits held comes back. */
  lemma {:induction false} Recurs(e: Env, s: State, ts: seq<Token>) returns (i: nat, j: nat)
    requires Codes(e) && Level(s) && s.size <= e.cap && |ts| == TurnBound(e) && Run(e, s, ts)
    ensures var a := 8 * |e.input|;
      && Added(ts[a]) == 0 && i < j < 34
      && Again(e, After(e, s, ts[..a]), ts[a], i).n == Again(e, After(e, s, ts[..a]), ts[a], j).n
  {
    hide Run, Moves, Next, Level, Added, Codes;
    var a := 8 * |e.input|;
    var u, t, m := After(e, s, ts[..a]), ts[a], e.cap + 33;
    TailRepeats(e, s, ts, a, m);
    AgainGrows(e, u, t, m);
    RunPrefix(e, s, ts, a + m);
    RunIsSpelt(e, s, ts[..a + m]);
    assert Added(t) == 0;
    var f := seq(34, l requires 0 <= l => Again(e, u, t, l).n);
    forall l | 0 <= l < 34 ensures 0 <= f[l] < 33 {
      TailRepeats(e, s, ts, a, l);
      LevelBounds(Again(e, u, t, l));
    }
    if AllDifferent(f) {
      Pigeonhole(f, 33);
    }
    i, j :| 0 <= i < j < |f| && f[i] == f[j];
  }

  /** A loop that never ends keeps reading a reserved length symbol, spelt by the zeros past the end. */
  lemma {:induction false} NeverEndsReserved(e: Env, s: State) returns (t: Token)
    requires Codes(e) && Level(s) && s.size <= e.cap && CanRun(e, s, TurnBound(e))
    ensures ReservedLength(t) && TokenAt(e.input, 8 * |e.input|, e.ll, e.dl, t)
  {
    hide Run, Moves, Next, Level, Added, Codes;
    var ts :| |ts| == TurnBound(e) && Run(e, s, ts);
    var a := 8 * |e.input|;
    var i, j := Recurs(e, s, ts);
    t := ts[a];
    assert ts[..a + 0] == ts[..a];
    TailRepeats(e, s, ts, a, 0);
    NothingAdded(t);
    MovesToken(e, After(e, s, ts[..a]), t);
    SamePieces(e.input, After(e, s, ts[..a]).p, a, e.ll, e.dl, t);
  }

  lemma MovesToken(e: Env, s: State, t: Token)
    requires Moves(e, s, t)
    ensures TokenAt(e.input, s.p, e.ll, e.dl, t)
  {}

  lemma NothingAdded(t: Token)
    requires Added(t) == 0
    ensures ReservedLength(t)
  {
    if t.Copy? {
      LengthIsPositive(t.lsym);
    }
  }

  /** A run that gets stuck is short, and there is none longer. */
  lemma {:induction false} RunEnds(e: Env, s: State, ts: seq<Token>, steps: nat)
    requires Codes(e) && Level(s) && s.size <= e.cap
    requires Run(e, s, ts) && Stuck(e, After(e, s, ts)) && |ts| < steps
    ensures !CanRun(e, s, steps) && |ts| <= TurnBound(e)
  {
    hide Run, Stuck, Codes, Level;
    forall us | Run(e, s, us) ensures |us| <= |ts| {
      StuckIsLongest(e, s, ts, us);
    }
    if |ts| > TurnBound(e) {
      RunPrefix(e, s, ts, TurnBound(e));
      NeverEnds(e, s);
    }
  }
}
