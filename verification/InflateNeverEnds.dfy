/** A zlib stream of 32 bytes on which the inflate decoder never ends: one block with codes of its own, nine
    literals, and then zeros, which spell the reserved length symbol 286 and distance symbol 6 again and again. */
module InflateNeverEnds {
  import opened Bits
  import opened BitStream
  import opened HuffmanCode
  import opened Deflate
  import opened InflateFailure
  import opened InflateRuns
  import opened InflateEndless
  import opened Inflate

  /** The positions of the bits that are set: zlib header, block header, counts, code length code lengths,
      run-length operations, literals. */
  predicate One(k: nat) {
    || k in {3, 4, 5, 6, 8}
    || k in {16, 18}
    || k in {20, 21, 22, 23, 25, 26, 29, 30, 31, 32}
    || k in {37, 39, 40, 45, 46, 48, 49, 88}
    || k in {90, 92, 95, 96, 98} || 99 <= k <= 106 || 108 <= k <= 114 || k in {116, 117, 119, 120, 124, 125, 126}
    || k in {136, 144, 152, 160, 168, 176, 184, 192, 193, 207}
  }

  /** `n` bits from position `p`, first bit least significant. */
  function Field(p: nat, n: nat): (r: nat)
    ensures r < Pow2(n)
    decreases n
  {
    if n == 0 then 0 else Digit(One(p)) + 2 * Field(p + 1, n - 1)
  }

  /** `n` bits from position `p`, first bit most significant. */
  function CodeBits(p: nat, n: nat): nat {
    if n == 0 then 0 else 2 * CodeBits(p, n - 1) + Digit(One(p + n - 1))
  }

  function Input(): (r: seq<Byte>)
    ensures |r| == 32
  {
    assert Pow2(4) == 16 && Pow2(8) == 16 * Pow2(4);
    seq(32, i requires 0 <= i => Field(8 * i, 8))
  }

  lemma {:induction false} FieldBit(p: nat, n: nat, k: nat)
    requires k < n
    ensures BitOf(Field(p, n), k) == One(p + k)
    decreases n
  {
    hide One;
    if k > 0 {
      FieldBit(p + 1, n - 1, k - 1);
    }
  }

  lemma {:induction false} InputBit(k: nat)
    ensures StreamBit(Input(), k) == One(k)
  {
    hide One, Field;
    if k < 256 {
      FieldBit(k / 8 * 8, 8, k % 8);
    } else {
      BitOfZero(k % 8);
      NoneAbove(k);
    }
  }

  lemma NoneAbove(k: nat)
    requires k > 207
    ensures !One(k)
  {}

  lemma {:induction false} LsbIsField(p: nat, n: nat)
    ensures Lsb(Input(), p, n) == Field(p, n)
    decreases n
  {
    hide One, StreamBit;
    if n > 0 {
      InputBit(p);
      LsbIsField(p + 1, n - 1);
    }
  }

  lemma {:induction false} MsbIsCode(p: nat, n: nat, m: nat)
    requires n <= m
    ensures Msb(Lsb(Input(), p, m), n) == CodeBits(p, n)
  {
    hide One, StreamBit, Lsb;
    if n > 0 {
      MsbIsCode(p, n - 1, m);
      LsbBit(Input(), p, m, n - 1);
      InputBit(p + n - 1);
    }
  }

  lemma SymbolHere(p: nat, lens: seq<nat>, sym: nat)
    requires sym < |lens| && 0 < lens[sym] <= 16 && CodeBits(p, lens[sym]) == Code(lens, sym)
    ensures SymAt(Input(), p, lens, sym)
  {
    hide Code, CodeBits, Lsb;
    MsbIsCode(p, lens[sym], 16);
  }

  lemma {:induction false} Short(p: nat)
    ensures Field(p, 1) == Digit(One(p))
    ensures Field(p, 2) == Digit(One(p)) + 2 * Digit(One(p + 1))
    ensures Field(p, 3) == Digit(One(p)) + 2 * Digit(One(p + 1)) + 4 * Digit(One(p + 2))
    ensures CodeBits(p, 2) == 2 * Digit(One(p)) + Digit(One(p + 1))
    ensures CodeBits(p, 3) == 4 * Digit(One(p)) + 2 * Digit(One(p + 1)) + Digit(One(p + 2))
  {
    hide One;
    assert Field(p + 1, 1) == Digit(One(p + 1)) && Field(p + 2, 1) == Digit(One(p + 2));
    assert CodeBits(p, 1) == Digit(One(p));
  }

  lemma {:induction false} Longer(p: nat, n: nat)
    requires n > 3
    ensures Field(p, n) == Field(p, 3) + 8 * Field(p + 3, n - 3)
  {
    hide One;
    Short(p);
    assert Field(p + 1, n - 1) == Digit(One(p + 1)) + 2 * Field(p + 2, n - 2);
    assert Field(p + 2, n - 2) == Digit(One(p + 2)) + 2 * Field(p + 3, n - 3);
  }

  lemma HeaderBytes()
    ensures Field(0, 8) == 120 && Field(8, 8) == 1
  {
    hide Field, CodeBits;
    Longer(0, 8);
    Longer(3, 5);
    Short(0);
    Short(3);
    Short(6);
    Longer(8, 8);
    Longer(11, 5);
    Short(8);
    Short(11);
    Short(14);
  }

  lemma Counts()
    ensures Field(16, 1) == 1 && Field(17, 2) == 2 && Field(19, 5) == 30 && Field(24, 5) == 6 && Field(29, 4) == 15
  {
    hide Field, CodeBits;
    Short(16);
    Short(17);
    Longer(19, 5);
    Short(19);
    Short(22);
    Longer(24, 5);
    Short(24);
    Short(27);
    Longer(29, 4);
    Short(29);
    Short(32);
  }

  // ----- the code of the code lengths -----

  /** Lengths of the code length code: 3 for 7, 8 and 18, 2 for 15 and 17. */
  function Cl(): seq<nat> {
    seq(19, i requires 0 <= i => if i == 7 || i == 8 || i == 18 then 3 else if i == 15 || i == 17 then 2 else 0)
  }

  lemma {:induction false} ClStored(i: ClIndex)
    ensures Cl()[CodeLengthOrder(i)] == Field(33 + 3 * i, 3)
  {
    hide Field, CodeBits;
    Short(33 + 3 * i);
  }

  lemma {:induction false} ClCount(n: nat, l: nat)
    requires n <= 19 && l > 0
    ensures Count(Cl(), n, l) ==
      Digit(n > 7 && l == 3) + Digit(n > 8 && l == 3) + Digit(n > 15 && l == 2) + Digit(n > 17 && l == 2)
      + Digit(n > 18 && l == 3)
  {
    if n > 0 {
      ClCount(n - 1, l);
    }
  }

  lemma {:induction false} ClFirst(l: nat)
    requires 0 < l <= 15
    ensures FirstCode(Cl(), l) == if l <= 2 then 0 else if l == 3 then 4 else 14 * Pow2(l - 4)
    ensures LenCount(Cl(), l) == if l == 2 then 2 else if l == 3 then 3 else 0
  {
    ClCount(19, l);
    if l > 1 {
      ClFirst(l - 1);
    } else {
      assert FirstCode(Cl(), 0) == 0 && LenCount(Cl(), 0) == 0;
    }
  }

  lemma {:induction false} ClKraft()
    ensures Lengths(Cl()) && KraftOk(Cl())
  {
    hide FirstCode, LenCount, KraftSum, Cl;
    ClFirst(15);
    EndCodeIsKraft(Cl());
    Powers();
    assert Pow2(11) == 2 * Pow2(10);
    assert |Cl()| == 19 && forall i :: 0 <= i < 19 ==> Cl()[i] <= 3 by { ClRange(); }
  }

  lemma ClRange()
    ensures |Cl()| == 19 && forall i :: 0 <= i < 19 ==> Cl()[i] <= 3
  {}

  lemma {:induction false} ClCodes()
    ensures Code(Cl(), 7) == 4 && Code(Cl(), 8) == 5 && Code(Cl(), 18) == 6
    ensures Code(Cl(), 15) == 0 && Code(Cl(), 17) == 1
  {
    hide FirstCode, LenCount, Count;
    ClFirst(2);
    ClFirst(3);
    ClCount(7, 3);
    ClCount(8, 3);
    ClCount(18, 3);
    ClCount(15, 2);
    ClCount(17, 2);
  }

  // ----- the run-length operations -----

  function Ops(): (r: seq<LenOp>)
    ensures |r| == 8 && forall op :: op in r ==> !op.Repeat?
  {
    [Len(8), Len(15), ManyZeros(138), ManyZeros(138), Zeros(8), Len(7), Zeros(6), Len(15)]
  }

  /** Literal/length code: literal 0 has 8 bits, literal 1 has 15, length symbol 286 has 7. */
  function Lit(): seq<nat> {
    seq(287, i requires 0 <= i => if i == 0 then 8 else if i == 1 then 15 else if i == 286 then 7 else 0)
  }

  /** Distance code: only symbol 6, with 15 bits. */
  function Dist(): seq<nat> {
    seq(7, i requires 0 <= i => if i == 6 then 15 else 0)
  }

  lemma {:induction false} LenHere(p: nat, l: nat)
    requires (p in {90, 120} && l == (if p == 90 then 8 else 7)) || (p in {93, 128} && l == 15)
    ensures OpAt(Input(), p, Cl(), Len(l)) && OpBits(Cl(), Len(l)) == if l == 15 then 2 else 3
  {
    hide Code, CodeBits, SymAt;
    ClCodes();
    Short(p);
    SymbolHere(p, Cl(), l);
  }

  lemma {:induction false} ManyZerosHere(p: nat)
    requires p in {95, 105}
    ensures OpAt(Input(), p, Cl(), ManyZeros(138)) && OpBits(Cl(), ManyZeros(138)) == 10
  {
    hide Code, CodeBits, SymAt, Field, Lsb;
    ClCodes();
    Short(p);
    SymbolHere(p, Cl(), 18);
    LsbIsField(p + 3, 7);
    Longer(p + 3, 7);
    Short(p + 3);
    Longer(p + 6, 4);
    Short(p + 6);
    Short(p + 9);
  }

  lemma {:induction false} ZerosHere(p: nat, n: nat)
    requires (p == 115 && n == 8) || (p == 123 && n == 6)
    ensures OpAt(Input(), p, Cl(), Zeros(n)) && OpBits(Cl(), Zeros(n)) == 5
  {
    hide Code, CodeBits, SymAt, Field, Lsb;
    ClCodes();
    Short(p);
    SymbolHere(p, Cl(), 17);
    LsbIsField(p + 2, 3);
    Short(p + 2);
  }

  function OpPlace(k: nat): nat
    requires k <= 8
  {
    [90, 93, 95, 105, 115, 120, 123, 128, 130][k]
  }

  lemma {:induction false} OpHere(k: nat)
    requires k < 8
    ensures OpAt(Input(), OpPlace(k), Cl(), Ops()[k]) && OpBits(Cl(), Ops()[k]) == OpPlace(k + 1) - OpPlace(k)
  {
    hide OpAt, OpBits, Cl;
    match k
    case 0 => LenHere(90, 8);
    case 1 => LenHere(93, 15);
    case 2 => ManyZerosHere(95);
    case 3 => ManyZerosHere(105);
    case 4 => ZerosHere(115, 8);
    case 5 => LenHere(120, 7);
    case 6 => ZerosHere(123, 6);
    case 7 => LenHere(128, 15);
  }

  /** How many code lengths the first `k` operations give, and which. */
  function Unrolled(k: nat): seq<nat>
    requires k <= 8
  {
    (Lit() + Dist())[..[0, 1, 2, 140, 278, 286, 287, 293, 294][k]]
  }

  lemma {:induction false} UnrollStep(k: nat)
    requires k < 8
    ensures UnrollOp(Unrolled(k), Ops()[k]) == Unrolled(k + 1)
  {
    var n, m := |Unrolled(k)|, |Unrolled(k + 1)|;
    assert forall i :: n <= i < m ==> (Lit() + Dist())[i] == match k
      case 0 => 8 case 1 => 15 case 2 => 0 case 3 => 0 case 4 => 0 case 5 => 7 case 6 => 0 case _ => 15;
  }

  lemma NoOpsHere(ops: seq<LenOp>)
    requires ops == []
    ensures OpsAt(Input(), 90, Cl(), ops) && Unroll(ops) == Unrolled(0) && 90 + OpsBits(Cl(), ops) == OpPlace(0)
  {
    hide Cl;
  }

  lemma {:induction false} OpsHere(k: nat)
    requires k <= 8
    ensures OpsAt(Input(), 90, Cl(), Ops()[..k]) && Unroll(Ops()[..k]) == Unrolled(k)
    ensures 90 + OpsBits(Cl(), Ops()[..k]) == OpPlace(k)
  {
    hide OpAt, OpBits, OpsAt, OpsBits, Ops, Unroll, UnrollOp, Unrolled, OpPlace, Cl;
    if k == 0 {
      NoOpsHere(Ops()[..0]);
    } else {
      OpsHere(k - 1);
      OpHere(k - 1);
      UnrollStep(k - 1);
      var op := Ops()[k - 1];
      assert op in Ops();
      assert Ops()[..k] == Ops()[..k - 1] + [op];
      OpsSnoc(Input(), 90, Cl(), Ops()[..k - 1], op);
    }
  }

  function TheHeader(): Header {
    Header(287, 7, 19, Cl(), Ops())
  }

  // ----- the codes of the block -----

  lemma {:induction false} LitCount(n: nat, l: nat)
    requires n <= 287 && l > 0
    ensures Count(Lit(), n, l) == Digit(n > 0 && l == 8) + Digit(n > 1 && l == 15) + Digit(n > 286 && l == 7)
  {
    if n > 0 {
      LitCount(n - 1, l);
    }
  }

  lemma {:induction false} DistCount(n: nat, l: nat)
    requires n <= 7 && l > 0
    ensures Count(Dist(), n, l) == Digit(n > 6 && l == 15)
  {
    if n > 0 {
      DistCount(n - 1, l);
    }
  }

  lemma {:induction false} LitFirst(l: nat)
    requires 0 < l <= 15
    ensures FirstCode(Lit(), l) == if l <= 7 then 0 else if l == 8 then 2 else 6 * Pow2(l - 9)
    ensures LenCount(Lit(), l) == Digit(l == 7) + Digit(l == 8) + Digit(l == 15)
  {
    hide Lit;
    LitSize();
    LitCount(287, l);
    if l > 1 {
      LitFirst(l - 1);
    } else {
      assert FirstCode(Lit(), 0) == 0 && LenCount(Lit(), 0) == 0;
    }
  }

  lemma {:induction false} DistFirst(l: nat)
    requires 0 < l <= 15
    ensures FirstCode(Dist(), l) == 0 && LenCount(Dist(), l) == Digit(l == 15)
  {
    hide Dist;
    DistSize();
    DistCount(7, l);
    if l > 1 {
      DistFirst(l - 1);
    } else {
      assert FirstCode(Dist(), 0) == 0 && LenCount(Dist(), 0) == 0;
    }
  }

  lemma LitSize()
    ensures |Lit()| == 287 && Lit()[0] == 8 && Lit()[1] == 15 && Lit()[286] == 7 && Lengths(Lit())
  {}

  lemma DistSize()
    ensures |Dist()| == 7 && Dist()[6] == 15 && Lengths(Dist())
  {}

  lemma {:induction false} LitKraft()
    ensures KraftOk(Lit()) && Code(Lit(), 0) == 2 && Code(Lit(), 1) == 384 && Code(Lit(), 286) == 0
  {
    hide FirstCode, LenCount, KraftSum, Lit, Count;
    LitSize();
    LitFirst(7);
    LitFirst(8);
    LitFirst(15);
    LitCount(0, 8);
    LitCount(1, 15);
    LitCount(286, 7);
    EndCodeIsKraft(Lit());
    Powers();
  }

  lemma {:induction false} DistKraft()
    ensures KraftOk(Dist()) && Code(Dist(), 6) == 0
  {
    hide FirstCode, LenCount, KraftSum, Dist, Count;
    DistSize();
    DistFirst(15);
    DistCount(6, 15);
    EndCodeIsKraft(Dist());
    Powers();
  }

  lemma {:induction false} HeaderCodes()
    ensures |Unroll(Ops())| == 294
    ensures TheHeader().Lit() == Lit() && TheHeader().Dist() == Dist()
  {
    hide OpsAt, OpsBits, Unroll, Ops, Cl, Lit, Dist;
    OpsHere(8);
    assert Ops()[..8] == Ops();
    LitSize();
    DistSize();
    assert Unroll(Ops()) == Lit() + Dist();
  }

  lemma {:induction false} HeaderHere()
    ensures HeaderAt(Input(), 19, TheHeader()) && HeaderBits(TheHeader()) == 111
  {
    hide Field, Lsb, OpsAt, OpsBits, Unroll, Ops, Cl, KraftSum, KraftOk, Lit, Dist;
    Counts();
    LsbIsField(19, 5);
    LsbIsField(24, 5);
    LsbIsField(29, 4);
    ClRange();
    forall i: ClIndex ensures Cl()[CodeLengthOrder(i)] == Lsb(Input(), 33 + 3 * i, 3) {
      ClStored(i);
      LsbIsField(33 + 3 * i, 3);
    }
    ClKraft();
    OpsHere(8);
    assert Ops()[..8] == Ops();
    HeaderCodes();
    LitKraft();
    DistKraft();
  }

  // ----- the turns of the block loop -----

  lemma {:induction false} CodeShift(p: nat, n: nat, m: nat)
    requires forall k: nat :: p + n <= k < p + n + m ==> !One(k)
    ensures CodeBits(p, n + m) == CodeBits(p, n) * Pow2(m)
  {
    hide One;
    if m > 0 {
      CodeShift(p, n, m - 1);
    }
  }

  lemma {:induction false} ShortLiteral(p: nat)
    requires (130 <= p <= 178 && p % 8 == 2) || p == 201
    ensures SymAt(Input(), p, Lit(), 0)
  {
    hide One, Code, SymAt, Lit, CodeBits;
    LitSize();
    LitKraft();
    NoBits(p);
    LiteralBits(p);
    CodeShift(p, 0, 6);
    OneMore(p, 6);
    OneMore(p, 7);
    SymbolHere(p, Lit(), 0);
  }

  lemma LiteralBits(p: nat)
    requires (130 <= p <= 178 && p % 8 == 2) || p == 201
    ensures forall k: nat :: p <= k < p + 8 ==> (One(k) <==> k == p + 6)
  {
    assert p in {130, 138, 146, 154, 162, 170, 178, 201};
  }

  lemma NoBits(p: nat)
    ensures CodeBits(p, 0) == 0
  {}

  lemma OneMore(p: nat, n: nat)
    ensures CodeBits(p, n + 1) == 2 * CodeBits(p, n) + Digit(One(p + n))
  {
    hide One;
  }

  lemma {:induction false} LongLiteral()
    ensures SymAt(Input(), 186, Lit(), 1)
  {
    hide Code, SymAt, Lit, CodeBits;
    LitSize();
    LitKraft();
    NoBits(186);
    CodeShift(186, 0, 6);
    OneMore(186, 6);
    OneMore(186, 7);
    CodeShift(186, 8, 7);
    SymbolHere(186, Lit(), 1);
  }

  function Loop(cap: nat): Env {
    Env(Input(), Lit(), Dist(), cap)
  }

  lemma {:induction false} LiteralMoves(cap: nat, s: State)
    requires (130 <= s.p <= 178 && s.p % 8 == 2) || s.p == 201
    requires 0 <= s.n <= 32 && s.size < cap
    ensures Moves(Loop(cap), s, Literal(0))
    ensures Next(Loop(cap), s, Literal(0)) == State(s.p + 8, Ready(s.n) - 8, s.size + 1)
  {
    hide SymAt, Lit, Ready;
    LitSize();
    ShortLiteral(s.p);
  }

  lemma {:induction false} LongLiteralMoves(cap: nat, s: State)
    requires s.p == 186 && 0 <= s.n <= 32 && s.size < cap
    ensures Moves(Loop(cap), s, Literal(1)) && Next(Loop(cap), s, Literal(1)) == State(201, Ready(s.n) - 15, s.size + 1)
  {
    hide SymAt, Lit, Ready;
    LitSize();
    LongLiteral();
  }

  /** The symbols 286 and 6, with extra bits 00. */
  function Idle(): Token {
    Copy(286, 0, 6, 0)
  }

  lemma {:induction false} IdleHere(p: nat)
    requires p >= 209
    ensures TokenAt(Input(), p, Lit(), Dist(), Idle()) && TokenBits(Lit(), Dist(), Idle()) == 24
  {
    hide Code, SymAt, Lit, Dist, CodeBits, Lsb, Field, One;
    LitSize();
    DistSize();
    LitKraft();
    DistKraft();
    forall k: nat | k >= p ensures !One(k) {
      NoneAbove(k);
    }
    NoBits(p);
    NoBits(p + 7);
    CodeShift(p, 0, 7);
    CodeShift(p + 7, 0, 15);
    SymbolHere(p, Lit(), 286);
    SymbolHere(p + 7, Dist(), 6);
    LsbIsField(p + 22, 2);
    Short(p + 22);
    EmptyField(p + 7);
  }

  lemma EmptyField(p: nat)
    ensures Lsb(Input(), p, 0) == 0
  {}

  /** 23 bits held leave 16 after the length symbol, 1 after the distance symbol, and after the extra bits 23 again:
      the reservoir is only ever filled where the end of the input is not noticed. */
  lemma {:induction false} IdleMoves(cap: nat, s: State)
    requires s.p >= 209 && s.n == 23 && 9 <= s.size <= cap
    ensures Moves(Loop(cap), s, Idle()) && Next(Loop(cap), s, Idle()) == State(s.p + 24, 23, s.size)
  {
    hide TokenAt, TokenBits, Lit, Dist;
    IdleHere(s.p);
    LitSize();
    DistSize();
  }

  // ----- the run -----

  lemma {:induction false} SevenLiterals(cap: nat, s: State, k: nat) returns (ts: seq<Token>)
    requires s.p == 130 && Level(s) && s.size + 9 <= cap && k <= 7
    ensures |ts| == k && Run(Loop(cap), s, ts)
    ensures var u := After(Loop(cap), s, ts);
      u.p == 130 + 8 * k && u.size == s.size + k && 0 <= u.n <= 32 && u.n % 8 == 6
  {
    hide Run, After, Moves, Next, Loop;
    ts := [];
    Nothing(Loop(cap), s);
    if k > 0 {
      ts := SevenLiterals(cap, s, k - 1);
      var u := After(Loop(cap), s, ts);
      LiteralMoves(cap, u);
      RunSnoc(Loop(cap), s, ts, Literal(0));
      ts := ts + [Literal(0)];
    }
  }

  lemma Nothing(e: Env, s: State)
    ensures Run(e, s, []) && After(e, s, []) == s
  {}

  lemma {:induction false} AllLiterals(cap: nat, s: State) returns (ts: seq<Token>)
    requires s.p == 130 && Level(s) && s.size + 9 <= cap
    ensures Run(Loop(cap), s, ts) && After(Loop(cap), s, ts) == State(209, 23, s.size + 9)
  {
    hide Run, After, Moves, Next, Loop;
    var e := Loop(cap);
    ts := SevenLiterals(cap, s, 7);
    LongLiteralMoves(cap, After(e, s, ts));
    RunSnoc(e, s, ts, Literal(1));
    ts := ts + [Literal(1)];
    LiteralMoves(cap, After(e, s, ts));
    RunSnoc(e, s, ts, Literal(0));
    ts := ts + [Literal(0)];
  }

  lemma {:induction false} Idling(cap: nat, s: State, k: nat) returns (ts: seq<Token>)
    requires s.p == 130 && Level(s) && s.size + 9 <= cap
    ensures |ts| >= k && Run(Loop(cap), s, ts)
    ensures var u := After(Loop(cap), s, ts); u.p >= 209 && u.n == 23 && u.size == s.size + 9
  {
    hide Run, After, Moves, Next, Loop;
    if k == 0 {
      ts := AllLiterals(cap, s);
    } else {
      ts := Idling(cap, s, k - 1);
      IdleMoves(cap, After(Loop(cap), s, ts));
      RunSnoc(Loop(cap), s, ts, Idle());
      ts := ts + [Idle()];
    }
  }

  lemma {:induction false} RunsOn(cap: nat, s: State, k: nat)
    requires s.p == 130 && Level(s) && s.size + 9 <= cap
    ensures CanRun(Loop(cap), s, k)
  {
    hide Run, After, Moves, Loop;
    var ts := Idling(cap, s, k);
    RunPrefix(Loop(cap), s, ts, k);
  }

  /** The header lies too early in the input for the decoder to give up in it. */
  lemma {:induction false} HeaderIsFed(n: int)
    ensures HeaderFed(Input(), 19, n, TheHeader())
  {
    hide Cl, Ops, OpsFed, AfterCounts;
    OpsAreFed(AfterCounts(n, 19), 8);
    assert Ops()[..8] == Ops();
  }

  lemma {:induction false} OpsAreFed(n: int, k: nat)
    requires k <= 8
    ensures OpsFed(Input(), 90, n, Cl(), Ops()[..k])
  {
    hide Cl, Ops, OpsAt, OpsFed, OpsBits, AfterOps, Starved, Unroll, Unrolled, OpPlace;
    if k == 0 {
      NothingFed(n, Ops()[..0]);
    } else {
      var init := Ops()[..k - 1];
      OpsAreFed(n, k - 1);
      OpsHere(k - 1);
      PlaceBound(k - 1);
      EarlyIsFed(90 + OpsBits(Cl(), init), AfterOps(n, Cl(), init));
      assert Ops()[..k] == init + [Ops()[k - 1]];
      OpsFedSnoc(Input(), 90, n, Cl(), init, Ops()[k - 1]);
    }
  }

  lemma NothingFed(n: int, ops: seq<LenOp>)
    requires ops == []
    ensures OpsFed(Input(), 90, n, Cl(), ops)
  {}

  lemma PlaceBound(k: nat)
    requires k <= 8
    ensures OpPlace(k) <= 130
  {}

  lemma EarlyIsFed(p: nat, n: int)
    requires p <= 209
    ensures !Starved(Input(), p, n)
  {}

  lemma {:induction false} StartHere(cap: nat) returns (u: State)
    ensures Enters(Loop(cap), State(16, 0, 0), u) && u.p == 130 && u.size == 0 && Level(u)
  {
    hide HeaderAt, HeaderFed, Lit, Dist, Lsb, Field, HeaderBits, AfterHeader, TheHeader, AfterBlockHead, Held;
    var s := State(16, 0, 0);
    Counts();
    LsbIsField(17, 2);
    HeaderHere();
    HeaderCodes();
    LevelAtStart();
    HeaderIsFed(AfterBlockHead(0));
    HeaderEnters(Loop(cap), s, TheHeader());
    u := DynamicData(s, TheHeader());
    EntersLevel(Loop(cap), s, u);
  }

  lemma LevelAtStart()
    ensures Held(16, 0) && Held(19, AfterBlockHead(0))
  {}

  lemma {:induction false} StreamNeverEnds(cap: nat)
    requires cap >= 9
    ensures NeverEnding(Input(), cap, State(16, 0, 0))
  {
    hide Enters, CanRun, Loop, Reads, Lsb, Held;
    var e, s := Loop(cap), State(16, 0, 0);
    var u := StartHere(cap);
    forall k: nat ensures CanRun(e, u, k) {
      RunsOn(cap, u, k);
    }
    LoopOf(cap);
    ChainStart(Input(), cap, s);
    ChainLoops(Input(), cap, [], [s]);
  }

  lemma LoopOf(cap: nat)
    ensures Of(Loop(cap), Input(), cap)
  {}

  lemma HeaderIsZlib()
    ensures ZlibHeader(Input())
  {
    hide Field, One;
    HeaderBytes();
    assert Input()[0] == 120 && Input()[1] == 1;
    assert !BitOf(1, 5);
  }

  /** Whatever the budget of turns, it runs out on this stream. */
  method NeverDone(initialSize: nat, steps: nat) returns (r: Outcome, result: seq<Byte>)
    requires 0 < initialSize <= UINT_MAX
    ensures r == OutOfSteps
  {
    hide NeverEnding, ZlibHeader, Largest, DeflateAt;
    HeaderIsZlib();
    StreamNeverEnds(LargestFrom(initialSize));
    r, result := ZlibDecode(Input(), initialSize, true, steps);
  }

  // ----- an empty output buffer -----

  /** One stored block with one byte, and two bytes behind it. */
  function OneByte(): seq<Byte> {
    [0x78, 0x01, 0x01, 1, 0, 254, 255, 65, 0, 0]
  }

  lemma {:induction false} OneByteDecodes()
    ensures Decodes(OneByte(), true, [Stored([65])], [65])
  {
    hide OneByte, Lsb, StoredAt, ZlibHeader;
    var b := Stored([65]);
    OneByteHead();
    OneByteStored();
    OneByteZlib();
    assert [b][..0] == [];
    assert BlockAt(OneByte(), 16, true, b);
    assert Meaning(Bytes([]), [b]) == Bytes([] + [65]);
  }

  lemma OneByteZlib()
    ensures ZlibHeader(OneByte()) && |OneByte()| == 10
  {
    assert !BitOf(1, 5);
  }

  lemma OneByteStored()
    ensures StoredAt(OneByte(), 3, [65])
  {
    hide Lsb;
    LsbWord(OneByte(), 3);
    LsbWord(OneByte(), 5);
  }

  lemma OneByteHead()
    ensures Lsb(OneByte(), 16, 1) == 1 && Lsb(OneByte(), 17, 2) == 0
  {
    assert ByteAt(OneByte(), 2) == 1;
    assert StreamBit(OneByte(), 16) && !StreamBit(OneByte(), 17) && !StreamBit(OneByte(), 18);
    assert Lsb(OneByte(), 17, 0) == Lsb(OneByte(), 19, 0) == 0;
  }

  /** With an empty buffer the loop that doubles it is never left. */
  method EmptyBufferGrows(steps: nat) returns (r: Outcome, result: seq<Byte>)
    requires steps >= 1
    ensures r == GrowsForEver
  {
    hide Decodes, LargestFrom;
    OneByteDecodes();
    assert Turns([Stored([65])]) == 1;
    LargestFromEmpty();
    r, result := ZlibDecode(OneByte(), 0, true, steps);
  }

  lemma LargestFromEmpty()
    ensures LargestFrom(0) == UINT_MAX
  {}
}
