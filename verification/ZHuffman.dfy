/** The decoding table of stb_image (`stbi__zhuffman`): a 9-bit fast table and the arrays of the
    slow scan, built in place from a list of code lengths. */
module ZHuffmanTable {
  import opened Bits
  import opened BitReverse
  import opened HuffmanCode

  const FAST_BITS: nat := 9
  const FAST_SIZE: nat := 512

  /** What `fast[j]` must hold once the first `n` symbols are entered: length and symbol of the
      code of at most 9 bits that the index spells, or 0 when there is none. */
  ghost predicate FastEntry(lens: seq<nat>, n: nat, j: nat, v: nat)
    requires n <= |lens|
  {
    if v == 0 then
      forall sym: nat :: sym < n && Spells(lens, sym, j) ==> lens[sym] > FAST_BITS
    else
      && v % 512 < n
      && lens[v % 512] == v / 512 <= FAST_BITS
      && Spells(lens, v % 512, j)
  }

  class ZHuffman {
    const fast: array<nat>
    const firstcode: array<nat>
    const maxcode: array<nat>
    const firstsymbol: array<nat>
    const size: array<nat>
    const value: array<nat>

    ghost predicate Shape() {
      && fast.Length == FAST_SIZE && firstcode.Length == 16 && maxcode.Length == 17
      && firstsymbol.Length == 16 && size.Length == ZNSYMS && value.Length == ZNSYMS
      && fast !in {firstcode, maxcode, firstsymbol, size, value}
      && firstcode !in {maxcode, firstsymbol, size, value}
      && maxcode !in {firstsymbol, size, value}
      && firstsymbol !in {size, value}
      && size != value
    }

    ghost function Arrays(): set<object> {
      {fast, firstcode, maxcode, firstsymbol, size, value}
    }

    constructor ()
      ensures Shape()
      ensures fresh(Arrays())
    {
      fast := new nat[FAST_SIZE];
      firstcode := new nat[16];
      maxcode := new nat[17];
      firstsymbol := new nat[16];
      size := new nat[ZNSYMS];
      value := new nat[ZNSYMS];
    }

    /** The slow-scan arrays describe the canonical codes of `lens`. */
    ghost predicate ScanFor(lens: seq<nat>)
      requires Shape()
      reads firstcode, maxcode, firstsymbol
    {
      && (forall l: nat {:trigger firstcode[l]} :: 1 <= l <= MAX_LEN ==> firstcode[l] == FirstCode(lens, l))
      && (forall l: nat {:trigger firstsymbol[l]} :: 1 <= l <= MAX_LEN ==> firstsymbol[l] == FirstSym(lens, l))
      && (forall l: nat {:trigger maxcode[l]} :: 1 <= l <= MAX_LEN ==> maxcode[l] == Shl(EndCode(lens, l), 16 - l))
      && maxcode[16] == 0x10000
    }

    /** The first `n` symbols stand at their ranks. */
    ghost predicate RankedUpTo(lens: seq<nat>, n: nat)
      requires Shape() && n <= |lens|
      reads size, value
    {
      forall sym: nat {:trigger Rank(lens, sym)} :: sym < n && 0 < lens[sym] ==>
        var c := Rank(lens, sym);
        c < ZNSYMS && size[c] == lens[sym] && value[c] == sym
    }

    ghost predicate FastUpTo(lens: seq<nat>, n: nat)
      requires Shape() && n <= |lens|
      reads fast
    {
      forall j: nat :: j < FAST_SIZE ==> FastEntry(lens, n, j, fast[j])
    }

    /** The table decodes the canonical code of `lens`. */
    ghost predicate Built(lens: seq<nat>)
      reads Arrays()
    {
      && Shape() && Lengths(lens) && KraftOk(lens)
      && ScanFor(lens) && RankedUpTo(lens, |lens|) && FastUpTo(lens, |lens|)
    }

    ghost predicate NextCodes(lens: seq<nat>, n: nat, nextCode: array<nat>)
      requires n <= |lens| && nextCode.Length == 16
      reads nextCode
    {
      forall l: nat {:trigger nextCode[l]} :: 1 <= l <= MAX_LEN ==>
        nextCode[l] == FirstCode(lens, l) + Count(lens, n, l)
    }

    /** `stbi__zbuild_huffman`: succeeds exactly on the lists that satisfy the Kraft inequality. */
    method Build(sizelist: seq<nat>) returns (ok: bool)
      requires Shape() && Lengths(sizelist)
      modifies Arrays()
      ensures ok == KraftOk(sizelist)
      ensures ok ==> Built(sizelist)
    {
      var sizes := CountLengths(sizelist);
      forall j | 0 <= j < fast.Length {
        fast[j] := 0;
      }
      KraftIffCodesFit(sizelist);
      for i := 1 to 16 {
        if sizes[i] > Pow2(i) {
          assert !CodesFit(sizelist, i);
          return false;
        }
      }
      var nextCode := new nat[16];
      ok := AssignFirstCodes(sizelist, sizes, nextCode);
      if ok {
        EnterSymbols(sizelist, nextCode);
      }
    }

    /** The histogram of the lengths, with the unused symbols taken out. */
    method CountLengths(sizelist: seq<nat>) returns (sizes: array<nat>)
      requires Lengths(sizelist)
      ensures fresh(sizes) && sizes.Length == 17
      ensures forall l: nat {:trigger sizes[l]} :: l <= MAX_LEN ==> sizes[l] == LenCount(sizelist, l)
    {
      sizes := new nat[17](_ => 0);
      for i := 0 to |sizelist|
        invariant forall l: nat :: l < 17 ==> sizes[l] == Count(sizelist, i, l)
      {
        sizes[sizelist[i]] := sizes[sizelist[i]] + 1;
      }
      sizes[0] := 0;
    }

    /** The middle loop of the builder: first codes and ranks of each length, and the rejection. */
    method AssignFirstCodes(sizelist: seq<nat>, sizes: array<nat>, nextCode: array<nat>) returns (ok: bool)
      requires Shape() && Lengths(sizelist)
      requires sizes.Length == 17 && nextCode.Length == 16
      requires sizes !in Arrays() && nextCode !in Arrays() && sizes != nextCode
      requires forall l: nat {:trigger sizes[l]} :: l <= MAX_LEN ==> sizes[l] == LenCount(sizelist, l)
      modifies firstcode, firstsymbol, maxcode, nextCode
      ensures ok == KraftOk(sizelist)
      ensures ok ==> ScanFor(sizelist) && NextCodes(sizelist, 0, nextCode)
    {
      hide KraftOk, Shl, Lengths;
      KraftIffCodesFit(sizelist);
      var code, k := 0, 0;
      for i := 1 to 16
        invariant code == FirstCode(sizelist, i) && k == FirstSym(sizelist, i)
        invariant forall l: nat :: l < i ==> CodesFit(sizelist, l)
        invariant forall l: nat {:trigger nextCode[l]} :: 1 <= l < i ==> nextCode[l] == FirstCode(sizelist, l)
        invariant forall l: nat {:trigger firstcode[l]} :: 1 <= l < i ==> firstcode[l] == FirstCode(sizelist, l)
        invariant forall l: nat {:trigger firstsymbol[l]} :: 1 <= l < i ==> firstsymbol[l] == FirstSym(sizelist, l)
        invariant forall l: nat {:trigger maxcode[l]} :: 1 <= l < i ==> maxcode[l] == Shl(EndCode(sizelist, l), 16 - l)
      {
        nextCode[i] := code;
        firstcode[i] := code;
        firstsymbol[i] := k;
        code := code + sizes[i];
        if sizes[i] != 0 && code - 1 >= Pow2(i) {
          assert !CodesFit(sizelist, i);
          return false;
        }
        maxcode[i] := Shl(code, 16 - i);
        assert CodesFit(sizelist, i - 1);
        assert CodesFit(sizelist, i);
        code := 2 * code;
        k := k + sizes[i];
      }
      maxcode[16] := 0x10000;
      ok := true;
    }

    /** The last loop of the builder. */
    method EnterSymbols(sizelist: seq<nat>, nextCode: array<nat>)
      requires Shape() && Lengths(sizelist) && KraftOk(sizelist)
      requires nextCode.Length == 16 && nextCode !in Arrays()
      requires ScanFor(sizelist) && NextCodes(sizelist, 0, nextCode)
      requires forall j: nat :: j < FAST_SIZE ==> fast[j] == 0
      modifies fast, size, value, nextCode
      ensures Built(sizelist)
    {
      for i := 0 to |sizelist|
        invariant NextCodes(sizelist, i, nextCode)
        invariant ScanFor(sizelist) && RankedUpTo(sizelist, i) && FastUpTo(sizelist, i)
      {
        if sizelist[i] != 0 {
          EnterSymbol(sizelist, i, nextCode[sizelist[i]]);
        } else {
          SkipSymbol(sizelist, i);
        }
        AdvanceCode(sizelist, i, nextCode);
      }
    }

    /** `++next_code[s]` for a coded symbol. */
    method AdvanceCode(sizelist: seq<nat>, i: nat, nextCode: array<nat>)
      requires Lengths(sizelist) && i < |sizelist| && nextCode.Length == 16 && NextCodes(sizelist, i, nextCode)
      modifies nextCode
      ensures NextCodes(sizelist, i + 1, nextCode)
    {
      if sizelist[i] != 0 {
        nextCode[sizelist[i]] := nextCode[sizelist[i]] + 1;
      }
    }

    lemma SkipSymbol(sizelist: seq<nat>, i: nat)
      requires Shape() && i < |sizelist| && sizelist[i] == 0
      requires RankedUpTo(sizelist, i) && FastUpTo(sizelist, i)
      ensures RankedUpTo(sizelist, i + 1) && FastUpTo(sizelist, i + 1)
    {
      forall j: nat | j < FAST_SIZE ensures FastEntry(sizelist, i + 1, j, fast[j]) {
        FastEntrySkip(sizelist, i, j, fast[j]);
      }
    }

    method EnterSymbol(sizelist: seq<nat>, i: nat, code: nat)
      requires Shape() && Lengths(sizelist) && KraftOk(sizelist)
      requires i < |sizelist| && 0 < sizelist[i] && code == Code(sizelist, i)
      requires ScanFor(sizelist) && RankedUpTo(sizelist, i) && FastUpTo(sizelist, i)
      modifies fast, size, value
      ensures RankedUpTo(sizelist, i + 1) && FastUpTo(sizelist, i + 1)
    {
      hide KraftOk, Count, FirstCode, FirstSym;
      var s := sizelist[i];
      var c := code - firstcode[s] + firstsymbol[s];
      assert c == Rank(sizelist, i);
      RankBound(sizelist, i);
      forall sym: nat | sym < i && 0 < sizelist[sym] ensures Rank(sizelist, sym) != c {
        RankInjective(sizelist, sym, i);
      }
      size[c] := s;
      value[c] := i;
      if s <= FAST_BITS {
        EnterFast(sizelist, i, code);
      } else {
        forall j: nat | j < FAST_SIZE ensures FastEntry(sizelist, i + 1, j, fast[j]) {
          FastEntrySkip(sizelist, i, j, fast[j]);
        }
      }
    }

    /** The inner loop of the builder: every index whose low bits spell the code of `i` gets its entry.
        The slots it writes are all empty: fast entries never collide. */
    method EnterFast(sizelist: seq<nat>, i: nat, code: nat)
      requires Shape() && Lengths(sizelist) && KraftOk(sizelist)
      requires i < |sizelist| && 0 < sizelist[i] <= FAST_BITS && code == Code(sizelist, i)
      requires FastUpTo(sizelist, i)
      modifies fast
      ensures FastUpTo(sizelist, i + 1)
      ensures forall j: nat :: j < FAST_SIZE ==> fast[j] == old(fast[j]) || old(fast[j]) == 0
    {
      hide KraftOk, FastEntry, Count, FirstCode;
      var s := sizelist[i];
      var fastv := s * 512 + i;
      CodeFits(sizelist, i);
      BitReverseIsMsb(code, s);
      var j := BitReverseC(code, s);
      LowId(j, s);
      forall k: nat | k < j && k < FAST_SIZE ensures FastEntry(sizelist, i + 1, k, fast[k]) {
        NotSpeltBelow(sizelist, i, k);
        FastEntrySkip(sizelist, i, k, fast[k]);
      }
      while j < FAST_SIZE
        invariant Low(j, s) == Msb(code, s)
        invariant forall k: nat :: k < j && k < FAST_SIZE ==> FastEntry(sizelist, i + 1, k, fast[k])
        invariant forall k: nat :: j <= k < FAST_SIZE ==> FastEntry(sizelist, i, k, fast[k])
        invariant forall k: nat :: j <= k < FAST_SIZE ==> fast[k] == old(fast[k])
        invariant forall k: nat :: k < FAST_SIZE ==> fast[k] == old(fast[k]) || old(fast[k]) == 0
        decreases FAST_SIZE - j
      {
        SpellsIffLow(sizelist, i, j);
        EmptySlot(sizelist, i, j, fast[j]);
        NewEntry(sizelist, i, j);
        fast[j] := fastv;
        forall k: nat | j < k < j + Pow2(s) && k < FAST_SIZE
          ensures FastEntry(sizelist, i + 1, k, fast[k])
        {
          NotSpeltBetween(sizelist, i, j, k);
          FastEntrySkip(sizelist, i, k, fast[k]);
        }
        LowAddPow2(j, s);
        j := j + Pow2(s);
      }
    }
  }

  lemma {:induction false} SpellsIffLow(lens: seq<nat>, sym: nat, w: nat)
    requires sym < |lens| && 0 < lens[sym] && Code(lens, sym) < Pow2(lens[sym])
    ensures Spells(lens, sym, w) <==> Low(w, lens[sym]) == Msb(Code(lens, sym), lens[sym])
  {
    var s, code := lens[sym], Code(lens, sym);
    if Msb(w, s) == code {
      MsbMsb(w, s);
    } else if Low(w, s) == Msb(code, s) {
      MsbMsb(code, s);
      LowId(code, s);
      MsbLow(w, s, s);
    }
  }

  lemma {:induction false} NotSpeltBelow(lens: seq<nat>, sym: nat, w: nat)
    requires sym < |lens| && 0 < lens[sym] && Code(lens, sym) < Pow2(lens[sym])
    requires w < Msb(Code(lens, sym), lens[sym])
    ensures !Spells(lens, sym, w)
  {
    SpellsIffLow(lens, sym, w);
    LowId(w, lens[sym]);
  }

  lemma {:induction false} NotSpeltBetween(lens: seq<nat>, sym: nat, j: nat, w: nat)
    requires sym < |lens| && 0 < lens[sym] && Code(lens, sym) < Pow2(lens[sym])
    requires Low(j, lens[sym]) == Msb(Code(lens, sym), lens[sym])
    requires j < w < j + Pow2(lens[sym])
    ensures !Spells(lens, sym, w)
  {
    SpellsIffLow(lens, sym, w);
    if Low(j, lens[sym]) == Low(w, lens[sym]) {
      LowApart(j, w, lens[sym]);
    }
  }

  lemma FastEntrySkip(lens: seq<nat>, i: nat, j: nat, v: nat)
    requires i < |lens| && FastEntry(lens, i, j, v)
    requires !Spells(lens, i, j) || lens[i] > FAST_BITS
    ensures FastEntry(lens, i + 1, j, v)
  {}

  lemma EntryParts(l: nat, i: nat)
    requires i < 512
    ensures (l * 512 + i) % 512 == i && (l * 512 + i) / 512 == l
  {}

  /** A slot that the code of symbol `i` is about to take is still empty. */
  lemma {:induction false} EmptySlot(lens: seq<nat>, i: nat, j: nat, v: nat)
    requires i < |lens| && Spells(lens, i, j)
    requires FastEntry(lens, i, j, v)
    ensures v == 0
  {
    if v != 0 {
      SpellsUnique(lens, i, v % 512, j);
    }
  }

  lemma {:induction false} NewEntry(lens: seq<nat>, i: nat, j: nat)
    requires i < |lens| <= ZNSYMS && lens[i] <= FAST_BITS && Spells(lens, i, j)
    ensures FastEntry(lens, i + 1, j, lens[i] * 512 + i)
  {
    EntryParts(lens[i], i);
  }
}
