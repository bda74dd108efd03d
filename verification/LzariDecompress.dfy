/** The decompressor: adaptive tables and coder registers updated in place, bits pulled from
    the source one at a time, output mirrored in a 4096-byte ring.  Proved against the
    meaning of a stream in LzariStream. */
module LzariDecompress {
  import opened Words
  import opened Arith
  import opened LzariCoder
  import opened LzariModel
  import opened LzariStream

  const RING := 4096

  /** Ring cell of history position p; the first 60 positions are the uninitialised cells. */
  function Cell(p: int): (q: int)
    ensures 0 <= q < RING
  {
    (p - (RING - SPACES)) % RING
  }

  /** The ring holds the last 4096 bytes of the history. */
  ghost predicate Mirrors(buf: seq<byte>, hist: seq<byte>) {
    && RING <= |buf| && RING <= |hist|
    && forall p :: |hist| - RING <= p < |hist| ==> buf[Cell(p)] == hist[p]
  }

  lemma CellsDiffer(p: int, q: int)
    requires p < q < p + RING
    ensures Cell(p) != Cell(q)
  {
    var a, b := p - (RING - SPACES), q - (RING - SPACES);
    assert b - a == RING * (b / RING - a / RING) + (b % RING - a % RING);
  }

  /** Writing the next byte at the ring position keeps the mirror. */
  lemma MirrorsPush(buf: seq<byte>, hist: seq<byte>, b: byte)
    requires Mirrors(buf, hist)
    ensures Mirrors(buf[Cell(|hist|) := b], hist + [b])
  {
    var hist1 := hist + [b];
    forall p | |hist1| - RING <= p < |hist1|
      ensures buf[Cell(|hist|) := b][Cell(p)] == hist1[p]
    {
      if p < |hist| { CellsDiffer(p, |hist|); }
    }
  }

  /** Counts and cumulative counts stay far below 32 bits. */
  lemma AgedBounds(freq: seq<int>)
    requires Ordered(freq) && Suffix(freq, 0) <= MAX_CUM
    ensures forall i :: 0 <= i <= N_CHAR ==> 0 <= Suffix(freq, i) <= MAX_CUM && 0 <= freq[i] <= MAX_CUM
    ensures forall i :: 0 <= i <= N_CHAR ==> 0 <= Suffix(Halve(freq), i) <= MAX_CUM
  {
    var half := Halve(freq);
    HalveOrdered(freq);
    SuffixHalve(freq, 0);
    forall i | 0 <= i <= N_CHAR
      ensures 0 <= Suffix(freq, i) <= MAX_CUM && 0 <= freq[i] <= MAX_CUM && 0 <= Suffix(half, i) <= MAX_CUM
    {
      SuffixBounds(freq, i);
      SuffixBounds(half, i);
      if i > 0 {
        SuffixStrict(freq, 0, i);
        SuffixStrict(half, 0, i);
        SuffixStep(freq, i - 1);
        if i > 1 { SuffixStrict(freq, 0, i - 1); }
      }
    }
  }

  lemma CumCells(freq: seq<int>)
    requires |freq| == N_CHAR + 1
    ensures forall i :: 0 <= i <= N_CHAR ==> Cum(freq)[i] == Suffix(freq, i)
  {
  }

  lemma HalveCells(freq: seq<int>)
    requires Ordered(freq)
    ensures freq[0] == 0 == Halve(freq)[0]
    ensures forall i :: 0 <= i <= N_CHAR ==> Halve(freq)[i] == (freq[i] + 1) / 2
  {
  }

  /** Halving the mask moves to the next bit of the byte, or to zero after the last one. */
  lemma MaskStep(k: nat)
    requires k > 0
    ensures Mask((k - 1) % 8) / 2 == if k % 8 == 0 then 0 else Mask(k % 8)
    ensures (k + 8) / 8 == if k % 8 == 0 then (k + 7) / 8 + 1 else (k + 7) / 8
    ensures k % 8 == 0 ==> (k + 7) / 8 == k / 8
    ensures k % 8 != 0 ==> (k - 1) / 8 == k / 8
  {
    assert k % 8 == 0 ==> (k - 1) % 8 == 7;
    assert k % 8 != 0 ==> (k - 1) % 8 == k % 8 - 1;
  }

  lemma UpdateFacts(m: Model, sym: nat)
    requires Valid(m) && 1 <= sym <= N_CHAR
    ensures Ordered(m.freq) && Inverse(m.charSym, m.symChar) && Suffix(m.freq, 0) <= MAX_CUM
    ensures Cum(m.freq)[0] == Suffix(m.freq, 0)
    ensures Aged(m.freq) == if Cum(m.freq)[0] >= 0x7FFF then Halve(m.freq) else m.freq
    ensures Ordered(Aged(m.freq)) && Suffix(Aged(m.freq), 0) < MAX_CUM
    ensures 0 <= m.symChar[sym] < N_CHAR && m.charSym[m.symChar[sym]] == sym
    ensures 1 <= Leader(Aged(m.freq), sym) <= sym && 0 <= m.symChar[Leader(Aged(m.freq), sym)] < N_CHAR
    ensures Valid(Update(m, sym))
  {
    UpdateValid(m, sym);
    AgedOrdered(m.freq);
  }

  class Decompressor {
    const CharSym: array<u32>
    const SymChar: array<u32>
    const SymFreq: array<u32>
    const SymCum: array<u32>
    const PosCums: array<u32>

    // registers of a run
    var low: u32
    var high: u32
    var value: u32
    var sp: nat
    var mask: u32
    var ch: byte

    // what the registers stand for: the coder state and the code bytes
    ghost var coder: Coder
    ghost var code: seq<byte>

    constructor ()
      ensures Shape() && forall i :: 0 <= i < 4100 ==> PosCums[i] == 0
      ensures forall i :: 0 <= i < 320 ==> CharSym[i] == SymChar[i] == SymFreq[i] == SymCum[i] == 0
      ensures fresh(CharSym) && fresh(SymChar) && fresh(SymFreq) && fresh(SymCum) && fresh(PosCums)
    {
      CharSym := new u32[320](_ => 0);
      SymChar := new u32[320](_ => 0);
      SymFreq := new u32[320](_ => 0);
      SymCum := new u32[320](_ => 0);
      PosCums := new u32[4100](_ => 0);
      low, high, value, sp, mask, ch := 0, 0, 0, 0, 0, 0;
    }

    ghost predicate Shape() {
      && CharSym.Length == SymChar.Length == SymFreq.Length == SymCum.Length == 320
      && PosCums.Length == 4100
      && CharSym != SymChar && CharSym != SymFreq && CharSym != SymCum && CharSym != PosCums
      && SymChar != SymFreq && SymChar != SymCum && SymChar != PosCums
      && SymFreq != SymCum && SymFreq != PosCums && SymCum != PosCums
    }

    /** The adaptive model the tables hold. */
    ghost function Tables(): Model
      requires Shape()
      reads CharSym, SymChar, SymFreq
    {
      Model(CharSym[..N_CHAR], SymChar[..N_CHAR + 1], SymFreq[..N_CHAR + 1])
    }

    ghost predicate Consistent()
      reads CharSym, SymChar, SymFreq, SymCum
      ensures Consistent() ==> Shape()
    {
      && Shape()
      && Valid(Tables())
      && SymCum[..N_CHAR + 1] == Cum(Tables().freq)
    }

    lemma ZeroRank()
      requires Consistent()
      ensures SymChar[0] == 0
    {
      assert Tables().symChar[0] == 0;
    }

    /** The bit reader has handed out the first k code bits. */
    ghost predicate ReaderAt(k: nat)
      reads `sp, `mask, `ch, `code
    {
      && |code| >= 4
      && sp == Min(4 + (k + 7) / 8, |code|)
      && (k == 0 ==> mask == 0)
      && (k > 0 ==> mask == Mask((k - 1) % 8) && ch == ByteAt(code, 4 + (k - 1) / 8))
    }

    /** The registers hold the coder state and the code window. */
    ghost predicate Tracks()
      reads this
    {
      && Bounded(coder) && Inside(code, coder)
      && low == coder.low && high == coder.high && value == Value(code, coder)
      && ReaderAt(17 + coder.n)
    }

    method NextBit(src: array<byte>, srclen: nat, ghost k: nat) returns (bit: u32)
      requires srclen <= src.Length && code == src[..srclen] && ReaderAt(k)
      modifies this`sp, this`mask, this`ch
      ensures ReaderAt(k + 1) && bit == Bit(code, k)
    {
      if k > 0 { MaskStep(k); }
      assert Mask(0) == 128;
      hide Mask;
      mask := mask / 2;
      if mask == 0 {
        if sp >= srclen {
          ch := 0;
        } else {
          ch := src[sp];
          sp := sp + 1;
        }
        mask := 128;
      }
      bit := ch / mask % 2;
    }

    /** Double the interval and the window, pulling in the next code bit. */
    method Double(src: array<byte>, srclen: nat, ghost sub: int)
      requires srclen <= src.Length && code == src[..srclen] && ReaderAt(17 + coder.n)
      requires Bounded(coder) && Inside(code, coder) && sub == Excess(coder) >= 0
      requires low == coder.low - sub && high == coder.high - sub && value == Value(code, coder) - sub
      modifies this`low, this`high, this`value, this`sp, this`mask, this`ch, this`coder
      ensures Tracks() && coder == Shift(old(coder), sub)
    {
      hide ReaderAt, Prefix, Bit;
      ShiftBounded(coder);
      ShiftValue(code, coder, sub);
      low := low + low;
      high := high + high;
      value := value * 2;
      var bit := NextBit(src, srclen, 17 + coder.n);
      value := value + bit;
      coder := Shift(coder, sub);
    }

    /** The renormalisation loop: at most 17 doublings, ending in the state Renorm names. */
    method Renormalise(src: array<byte>, srclen: nat)
      requires srclen <= src.Length && code == src[..srclen] && Tracks()
      modifies this`low, this`high, this`value, this`sp, this`mask, this`ch, this`coder
      ensures Tracks() && coder == Renorm(old(coder)) && coder.n <= old(coder.n) + 17
    {
      hide Renorm, Value, ReaderAt;
      RenormAtMost17(coder);
      while true
        invariant Tracks() && Renorm(coder) == Renorm(old(coder))
        decreases WIDTH - (coder.high - coder.low)
      {
        ghost var sub := Excess(coder);
        RenormUnfold(coder);
        if low >= 0x1_0000 {
          value := value - 0x1_0000;
          low := low - 0x1_0000;
          high := high - 0x1_0000;
        } else if low >= 0x8000 && high <= 0x1_8000 {
          value := value - 0x8000;
          low := low - 0x8000;
          high := high - 0x8000;
        } else if high > 0x1_0000 {
          break;
        }
        Double(src, srclen, sub);
      }
    }

    /** Binary search for the rank whose cumulative bounds enclose x. */
    method GetSym(x: u32) returns (i: nat)
      requires Consistent() && x < SymCum[0]
      ensures 1 <= i <= N_CHAR && SymCum[i] <= x < SymCum[i - 1]
    {
      i := 1;
      var j := 314;
      assert SymCum[314] == Cum(Tables().freq)[314] == 0;
      while i < j
        invariant 1 <= i <= j <= 314
        invariant SymCum[j] <= x < SymCum[i - 1]
      {
        var k := (i + j) / 2;
        if SymCum[k] > x {
          i := k + 1;
        } else {
          j := k;
        }
      }
    }

    /** The same search over the fixed distance table; the caller sees the index below. */
    method GetPos(x: u32) returns (r: nat)
      requires Shape() && PosCums[..N_POS + 1] == PosCum() && x < PosCums[0] && PosCums[N_POS] == 0
      ensures r < N_POS && PosCums[r + 1] <= x < PosCums[r]
    {
      var i, j := 1, 4096;
      while i < j
        invariant 1 <= i <= j <= 4096
        invariant PosCums[j] <= x < PosCums[i - 1]
      {
        var k := (i + j) / 2;
        if PosCums[k] > x {
          i := k + 1;
        } else {
          j := k;
        }
      }
      r := i - 1;
    }

    /** Halving of every count, with the cumulative table rebuilt from the top. */
    method HalveCounts(ghost freq: seq<int>)
      requires Shape() && Ordered(freq) && Suffix(freq, 0) <= MAX_CUM && SymFreq[..N_CHAR + 1] == freq
      modifies SymFreq, SymCum
      ensures SymFreq[..N_CHAR + 1] == Halve(freq) && SymCum[..N_CHAR + 1] == Cum(Halve(freq))
    {
      hide Ordered, Suffix, Halve;
      ghost var half := Halve(freq);
      HalveCells(freq);
      AgedBounds(freq);
      SuffixStep(half, 314);
      var j: u32 := 0;
      var i := 314;
      while i > 0
        invariant 0 <= i <= 314 && j == Suffix(half, i)
        invariant forall k :: 0 <= k <= i ==> SymFreq[k] == freq[k]
        invariant forall k :: i < k <= 314 ==> SymFreq[k] == half[k] && SymCum[k] == Suffix(half, k)
      {
        SymCum[i] := j;
        SuffixStep(half, i - 1);
        SymFreq[i] := (SymFreq[i] + 1) / 2;
        j := j + SymFreq[i];
        i := i - 1;
      }
      SymCum[0] := j;
    }

    /** First rank of the run with the same count. */
    method FindLeader(sym: nat) returns (i: nat)
      requires Shape() && Ordered(SymFreq[..N_CHAR + 1]) && 1 <= sym <= N_CHAR
      ensures 1 <= i <= sym && i == Leader(SymFreq[..N_CHAR + 1], sym)
    {
      ghost var freq := SymFreq[..N_CHAR + 1];
      i := sym;
      while SymFreq[i] == SymFreq[i - 1]
        invariant 1 <= i <= sym && Leader(freq, i) == Leader(freq, sym)
        decreases i
      {
        LeaderRun(freq, i);
        i := i - 1;
      }
    }

    /** Exchange the characters at two ranks in both maps. */
    method SwapRanks(i: nat, sym: nat)
      requires Shape() && Inverse(CharSym[..N_CHAR], SymChar[..N_CHAR + 1]) && 1 <= i < sym <= N_CHAR
      modifies CharSym, SymChar
      ensures CharSym[..N_CHAR] ==
              old(CharSym[..N_CHAR])[old(SymChar[i]) := sym][old(SymChar[sym]) := i]
      ensures SymChar[..N_CHAR + 1] ==
              old(SymChar[..N_CHAR + 1])[i := old(SymChar[sym])][sym := old(SymChar[i])]
    {
      var k, c := SymChar[i], SymChar[sym];
      assert 0 <= k < N_CHAR && 0 <= c < N_CHAR by {
        assert k == SymChar[..N_CHAR + 1][i] && c == SymChar[..N_CHAR + 1][sym];
      }
      SymChar[i] := c;
      SymChar[sym] := k;
      CharSym[k] := sym;
      CharSym[c] := i;
    }

    /** One more use of rank i: its count and every cumulative count below it go up by one. */
    method BumpRank(i: nat, ghost freq: seq<int>)
      requires Shape() && 1 <= i <= N_CHAR && SymFreq[..N_CHAR + 1] == freq && SymCum[..N_CHAR + 1] == Cum(freq)
      requires Ordered(freq) && Suffix(freq, 0) < MAX_CUM
      modifies SymFreq, SymCum
      ensures SymFreq[..N_CHAR + 1] == freq[i := freq[i] + 1]
      ensures SymCum[..N_CHAR + 1] == Cum(freq[i := freq[i] + 1])
    {
      hide Ordered, Suffix, Cum;
      AgedBounds(freq);
      CumCells(freq);
      CumCells(freq[i := freq[i] + 1]);
      assert forall k :: 0 <= k <= N_CHAR ==> SymCum[k] == Cum(freq)[k] && SymFreq[k] == freq[k];
      SymFreq[i] := SymFreq[i] + 1;
      var l := i - 1;
      while l > 0
        modifies SymCum
        invariant 0 <= l < i
        invariant forall k :: 0 <= k <= N_CHAR ==>
          SymCum[k] == Suffix(freq, k) + if l < k < i then 1 else 0
      {
        SymCum[l] := SymCum[l] + 1;
        l := l - 1;
      }
      SymCum[0] := SymCum[0] + 1;
      forall k | 0 <= k <= N_CHAR
        ensures SymCum[k] == Cum(freq[i := freq[i] + 1])[k]
      {
        SuffixBump(freq, i, k);
      }
    }

    /** After any halving, the character at rank sym moves to the head of its run and is
        counted once more. */
    method UpdateNode(sym: nat)
      requires Consistent() && 1 <= sym <= N_CHAR
      modifies CharSym, SymChar, SymFreq, SymCum
      ensures Consistent() && Tables() == NextModel(old(Tables()), sym)
    {
      hide Valid, Inverse, Ordered, Suffix, Leader, Cum, Aged, Halve;
      ghost var m := Tables();
      ghost var freq := Aged(m.freq);
      UpdateFacts(m, sym);
      assert SymCum[0] == Cum(m.freq)[0];
      if SymCum[0] >= 0x7FFF {
        HalveCounts(m.freq);
      }
      var i := FindLeader(sym);
      if i < sym {
        SwapRanks(i, sym);
      }
      BumpRank(i, freq);
      assert Tables() == Update(m, sym);
    }

    /** Start registers and the first 17 code bits. */
    method Prime(src: array<byte>, srclen: nat)
      requires 4 <= srclen <= src.Length
      modifies this
      ensures code == src[..srclen] && Tracks() && coder == Start()
    {
      hide Pow2, Bit;
      ch, mask, low, value, high, sp := 0, 0, 0, 0, 0x2_0000, 4;
      code, coder := src[..srclen], Start();
      Pow2Of17();
      var i := 0;
      while i < 17
        invariant 0 <= i <= 17 && low == 0 && high == 0x2_0000
        invariant code == src[..srclen] && coder == Start()
        invariant ReaderAt(i) && value == Prefix(code, i)
      {
        if i < 16 { Pow2Grows(i + 1, 17); }
        assert 2 * Prefix(code, i) + Bit(code, i) == Prefix(code, i + 1) < 0x2_0000;
        value := value * 2;
        var bit := NextBit(src, srclen, i);
        value := value + bit;
        i := i + 1;
      }
    }

    /** Fresh tables: every symbol counted once, and the fixed distance table. */
    method SetupTables()
      requires Shape() && SymChar[0] == 0
      modifies CharSym, SymChar, SymFreq, SymCum, PosCums
      ensures Consistent() && Tables() == Initial()
      ensures forall c, d :: 0 <= c < d < 314 ==> CharSym[c] < CharSym[d]
      ensures forall s :: 1 <= s <= 314 ==> SymFreq[s] == 1
      ensures PosCums[..N_POS + 1] == PosCum() && Weighted(PosCums[..4097])
    {
      SymCum[314] := 0;
      var k := 314;
      while k >= 1
        modifies CharSym, SymChar, SymFreq, SymCum
        invariant 0 <= k <= 314 && SymChar[0] == 0
        invariant forall i :: k <= i <= 314 ==> SymCum[i] == 314 - i
        invariant forall i :: k < i <= 314 ==> SymChar[i] == i - 1 && SymFreq[i] == 1
        invariant forall c :: k <= c < 314 ==> CharSym[c] == c + 1
      {
        var j := k - 1;
        CharSym[j] := k;
        SymChar[k] := j;
        SymFreq[k] := 1;
        SymCum[k - 1] := SymCum[k] + SymFreq[k];
        k := k - 1;
      }
      SymFreq[0] := 0;
      assert CharSym[..N_CHAR] == Initial().charSym;
      assert SymChar[..N_CHAR + 1] == Initial().symChar;
      assert SymFreq[..N_CHAR + 1] == Initial().freq;
      InitialValid();
      hide Valid;
      forall i | 0 <= i <= N_CHAR
        ensures SymCum[i] == Suffix(Initial().freq, i)
      {
        OnesSuffix(Initial().freq, i);
      }
      SetupDistances();
    }

    method SetupDistances()
      requires Shape()
      modifies PosCums
      ensures PosCums[..N_POS + 1] == PosCum() && Weighted(PosCums[..4097])
    {
      ghost var freq := PosFreqs();
      PosSuffixBounds(freq);
      PosWeighted();
      PosCums[4096] := 0;
      SuffixStep(freq, N_POS);
      hide Suffix, PosFreq, Weighted;
      var i := 4096;
      while i >= 1
        invariant 0 <= i <= 4096
        invariant forall k :: i <= k <= 4096 ==> PosCums[k] == Suffix(freq, k)
      {
        SuffixStep(freq, i - 1);
        assert freq[i] == 10000 / (i + 200) by { assert PosFreq(i) == 10000 / (i + 200); }
        PosCums[i - 1] := PosCums[i] + 10000 / (i + 200);
        i := i - 1;
      }
    }

    /** Decode one symbol: the rank whose sub-interval holds the code window. */
    method DecodeSym(src: array<byte>, srclen: nat) returns (sym: nat)
      requires srclen <= src.Length && code == src[..srclen]
      requires Consistent() && Tracks() && Ready(coder)
      modifies this`low, this`high, this`value, this`sp, this`mask, this`ch, this`coder
      ensures Tracks() && Ready(coder)
      ensures sym == SymOf(code, Tables(), old(coder)) && coder == CodeChar(Tables(), old(coder), sym)
    {
      ghost var cum := Cum(Tables().freq);
      CumValid(Tables());
      assert SymCum[0] == cum[0];
      var range: u32 := high - low;
      ProductFits(value - low + 1, SymCum[0]);
      var product: u32 := (value - low + 1) * SymCum[0];
      MulMono(1, value - low + 1, SymCum[0]);
      QuotientRange(value, low, high, SymCum[0]);
      sym := GetSym((product - 1) / range);
      assert SymCum[sym] == cum[sym] && SymCum[sym - 1] == cum[sym - 1];
      QuotientFindsSlot(code, coder, cum, sym);
      SlotUnique(code, coder, cum, sym, SlotOf(code, coder, cum));
      NarrowTo(src, srclen, cum, sym, SymCum[sym], SymCum[sym - 1], SymCum[0]);
    }

    /** Decode one character and count it. */
    method DecodeChar(src: array<byte>, srclen: nat) returns (c: u32)
      requires srclen <= src.Length && code == src[..srclen]
      requires Consistent() && Tracks() && Ready(coder)
      modifies this`low, this`high, this`value, this`sp, this`mask, this`ch, this`coder
      modifies CharSym, SymChar, SymFreq, SymCum
      ensures Tracks() && Ready(coder) && Inside(code, coder) && Consistent() && Valid(Tables())
      ensures var m, s := old(Tables()), SymOf(code, old(Tables()), old(coder));
              && c == m.symChar[s] && c < N_CHAR
              && coder == CodeChar(m, old(coder), s) && Tables() == NextModel(m, s)
    {
      var sym := DecodeSym(src, srclen);
      c := SymChar[sym];
      assert c == Tables().symChar[sym];
      UpdateNode(sym);
    }

    /** Replace the interval by the sub-interval of slot s and renormalise. */
    method NarrowTo(src: array<byte>, srclen: nat, ghost cum: seq<int>, ghost s: nat, lo: u32, hi: u32, total: u32)
      requires srclen <= src.Length && code == src[..srclen]
      requires Tracks() && Ready(coder) && ValidCum(cum) && 1 <= s < |cum|
      requires lo == cum[s] && hi == cum[s - 1] && total == cum[0]
      requires Inside(code, Narrow(coder, cum, s))
      modifies this`low, this`high, this`value, this`sp, this`mask, this`ch, this`coder
      ensures Tracks() && Ready(coder) && coder == CodeSlot(old(coder), cum, s)
    {
      NarrowBounded(coder, cum, s);
      assert total > 0 && lo <= MAX_CUM && hi <= MAX_CUM;
      var range: u32 := high - low;
      ProductFits(range, hi);
      ProductFits(range, lo);
      var above: u32, below: u32 := range * hi, range * lo;
      coder := Narrow(coder, cum, s);
      high := low + above / total;
      low := low + below / total;
      RenormInside(code, coder);
      Renormalise(src, srclen);
    }

    /** Decode one match distance; the source's index i is the distance minus one. */
    method DecodePos(src: array<byte>, srclen: nat) returns (i: nat)
      requires srclen <= src.Length && code == src[..srclen]
      requires Shape() && PosCums[..N_POS + 1] == PosCum() && Tracks() && Ready(coder)
      modifies this`low, this`high, this`value, this`sp, this`mask, this`ch, this`coder
      ensures Tracks() && Ready(coder) && Inside(code, coder)
      ensures i < N_POS && i + 1 == DistOf(code, old(coder)) && coder == CodeDist(old(coder), i + 1)
    {
      ghost var cum := PosCum();
      PosCumValid();
      hide PosCum, Cum, Suffix;
      assert PosCums[0] == cum[0] && PosCums[N_POS] == cum[N_POS];
      var range: u32 := high - low;
      ProductFits(value - low + 1, PosCums[0]);
      var product: u32 := (value - low + 1) * PosCums[0];
      MulMono(1, value - low + 1, PosCums[0]);
      QuotientRange(value, low, high, PosCums[0]);
      i := GetPos((product - 1) / range);
      assert PosCums[i] == cum[i] && PosCums[i + 1] == cum[i + 1];
      QuotientFindsSlot(code, coder, cum, i + 1);
      SlotUnique(code, coder, cum, i + 1, SlotOf(code, coder, cum));
      NarrowTo(src, srclen, cum, i + 1, PosCums[i + 1], PosCums[i], PosCums[0]);
    }
  }

  lemma PosSuffixBounds(freq: seq<int>)
    requires freq == PosFreqs()
    ensures forall i :: 0 <= i <= N_POS ==> 0 <= Suffix(freq, i) <= MAX_CUM
  {
    PosCumValid();
    var cum := PosCum();
    assert forall i :: 0 <= i <= N_POS ==> cum[i] == Suffix(freq, i);
    assert forall i :: 0 < i <= N_POS ==> cum[i] < cum[0];
    assert forall i :: 0 <= i < N_POS ==> cum[N_POS] < cum[i];
  }

  /** What the output and the ring hold: hist is junk, 4036 spaces and the output so far. */
  ghost predicate Written(buf: seq<byte>, r: nat, dst: seq<byte>, dp: nat, junk: seq<byte>, hist: seq<byte>) {
    && |junk| == N_POS - SPACES && dp <= |dst|
    && hist == Window(junk) + dst[..dp]
    && Mirrors(buf, hist) && r == Cell(|hist|)
  }

  lemma WrittenFacts(buf: seq<byte>, r: nat, dst: seq<byte>, dp: nat, junk: seq<byte>, hist: seq<byte>)
    requires Written(buf, r, dst, dp, junk, hist)
    ensures RING <= |buf| && Mirrors(buf, hist) && |hist| == N_POS + dp && r == Cell(|hist|)
    ensures hist == Window(junk) + dst[..dp]
  {
  }

  /** Appending one byte to the output and the ring. */
  method PutByte(c: byte, dst: array<byte>, dp: nat, DataBuf: array<byte>, r: nat, ghost junk: seq<byte>,
          ghost hist: seq<byte>)
    returns (r': nat)
    requires dst != DataBuf && dp < dst.Length && Written(DataBuf[..], r, dst[..], dp, junk, hist)
    modifies dst, DataBuf
    ensures Written(DataBuf[..], r', dst[..], dp + 1, junk, hist + [c])
    ensures dst[..] == old(dst[..])[dp := c]
  {
    MirrorsPush(DataBuf[..], hist, c);
    dst[dp] := c;
    DataBuf[r] := c;
    r' := (r + 1) % 4096;
    assert dst[..dp + 1] == old(dst[..dp]) + [c];
  }

  /** The match loop: copy j bytes from i + 1 positions back, stopping at the end of the output. */
  method CopyBytes(i: nat, j: nat, dst: array<byte>, dstend: nat, dp0: nat, DataBuf: array<byte>, r0: nat,
                   ghost junk: seq<byte>, ghost hist: seq<byte>) returns (ok: bool, dp: nat, r: nat)
    requires dst != DataBuf && dp0 <= dstend <= dst.Length && i < N_POS
    requires Written(DataBuf[..], r0, dst[..], dp0, junk, hist)
    modifies dst, DataBuf
    ensures ok == (dp0 + j <= dstend)
    ensures ok ==> dp == dp0 + j && Written(DataBuf[..], r, dst[..], dp, junk, CopyMatch(hist, i + 1, j))
    ensures !ok ==> Window(junk) + dst[..dstend] == CopyMatch(hist, i + 1, j)[..N_POS + dstend]
    ensures dst[dstend..] == old(dst[dstend..])
  {
    hide Mirrors, Cell, Window, Written, CopyMatch;
    WrittenFacts(DataBuf[..], r0, dst[..], dp0, junk, hist);
    var start := (r0 - i - 1) % 4096;
    ghost var h, dst0 := hist, dst[..];
    ok, dp, r := true, dp0, r0;
    var k := 0;
    while k < j
      invariant k <= j && dp == dp0 + k <= dstend && |h| == |hist| + k
      invariant Written(DataBuf[..], r, dst[..], dp, junk, h)
      invariant CopyMatch(h, i + 1, j - k) == CopyMatch(hist, i + 1, j)
      invariant dst[dstend..] == dst0[dstend..]
    {
      WrittenFacts(DataBuf[..], r, dst[..], dp, junk, h);
      CopySource(DataBuf[..], h, |hist|, i, k);
      CopyUnfold(h, i + 1, j - k);
      var c := DataBuf[(start + k) % 4096];
      if dp >= dstend {
        ok := false;
        assert h <= CopyMatch(h, i + 1, j - k);
        return;
      }
      ghost var before := dst[..];
      r := PutByte(c, dst, dp, DataBuf, r, junk, h);
      assert dst[dstend..] == before[dstend..];
      h := h + [c];
      dp := dp + 1;
      k := k + 1;
    }
    CopyUnfold(h, i + 1, 0);
  }

  /** The ring cell read for byte k of a match holds the history byte i + 1 positions back. */
  lemma CopySource(buf: seq<byte>, h: seq<byte>, n: nat, i: nat, k: nat)
    requires Mirrors(buf, h) && |h| == n + k && i < N_POS && RING <= n
    ensures buf[((Cell(n) - i - 1) % 4096 + k) % 4096] == h[|h| - (i + 1)]
  {
    CellOfCopy(n, i, k);
  }

  lemma ModShift(a: int, k: int)
    ensures (a % RING + k) % RING == (a + k) % RING
  {
    var q := a / RING;
    assert a + k == RING * q + (a % RING + k);
  }

  lemma CellOfCopy(n: nat, i: nat, k: nat)
    requires i < N_POS && RING <= n
    ensures ((Cell(n) - i - 1) % 4096 + k) % 4096 == Cell(n + k - (i + 1))
  {
    var x := n - (RING - SPACES);
    var back: int := i + 1;
    ModShift(x, -back);
    ModShift(x - i - 1, k);
  }

  lemma StartMirrors(buf: seq<byte>, junk: seq<byte>)
    requires |buf| == 4200 && buf[SPACES..RING] == junk
    requires forall k :: 0 <= k < SPACES ==> buf[k] == ' ' as int
    ensures Mirrors(buf, Window(junk))
  {
    var hist := Window(junk);
    forall p | 0 <= p < |hist|
      ensures buf[Cell(p)] == hist[p]
    {
      if p < RING - SPACES {
        assert Cell(p) == SPACES + p;
        assert buf[SPACES + p] == buf[SPACES..RING][p];
      } else {
        assert Cell(p) == p - (RING - SPACES);
      }
    }
  }

  /** A fresh ring: 4036 spaces; the remaining cells are whatever the memory held. */
  method NewWindow() returns (DataBuf: array<byte>, ghost junk: seq<byte>)
    ensures fresh(DataBuf) && |junk| == N_POS - SPACES && Mirrors(DataBuf[..], Window(junk))
  {
    DataBuf := new byte[4200];
    junk := DataBuf[SPACES..RING];
    var i := 0;
    while i < 4036
      invariant 0 <= i <= 4036 && DataBuf[SPACES..RING] == junk
      invariant forall k :: 0 <= k < i ==> DataBuf[k] == ' ' as int
    {
      DataBuf[i] := ' ' as int;
      i := i + 1;
    }
    StartMirrors(DataBuf[..], junk);
  }

  lemma DecodeLiteral(code: seq<byte>, m: Model, c: Coder, hist: seq<byte>, n: nat, s: nat)
    requires Good(m, c) && Inside(code, c) && N_POS <= |hist| < n
    requires s == SymOf(code, m, c) && m.symChar[s] < 256
    ensures Inside(code, CodeChar(m, c, s))
    ensures Decode(code, m, c, hist, n) ==
            Decode(code, NextModel(m, s), CodeChar(m, c, s), hist + [m.symChar[s] as byte], n)
  {
    assert TokenOf(code, m, c) == Literal(m.symChar[s]);
  }

  lemma DecodeMatch(code: seq<byte>, m: Model, c: Coder, hist: seq<byte>, n: nat, s: nat, dist: nat)
    requires Good(m, c) && Inside(code, c) && N_POS <= |hist| < n
    requires s == SymOf(code, m, c) && m.symChar[s] >= 256
    requires dist == DistOf(code, CodeChar(m, c, s))
    ensures 1 <= dist <= N_POS && Inside(code, CodeDist(CodeChar(m, c, s), dist))
    ensures var hist1 := CopyMatch(hist, dist, m.symChar[s] - 253);
            Decode(code, m, c, hist, n) ==
            if |hist1| > n then (-1, hist1[..n])
            else Decode(code, NextModel(m, s), CodeDist(CodeChar(m, c, s), dist), hist1, n)
  {
    assert TokenOf(code, m, c) == Match(m.symChar[s] - 253, dist);
  }

  /** Between tokens: tables, registers, ring and output all stand for the same history. */
  ghost predicate Between(d: Decompressor, src: array<byte>, srclen: nat, dst: array<byte>, dp: nat,
                          DataBuf: array<byte>, r: nat, junk: seq<byte>, hist: seq<byte>)
    reads d, d.CharSym, d.SymChar, d.SymFreq, d.SymCum, d.PosCums, src, dst, DataBuf
    ensures Between(d, src, srclen, dst, dp, DataBuf, r, junk, hist) ==>
            && d.Shape() && Good(d.Tables(), d.coder) && Inside(d.code, d.coder)
            && |junk| == N_POS - SPACES && |hist| == N_POS + dp && dp <= dst.Length
            && hist == Window(junk) + dst[..dp]
  {
    && src != dst && DataBuf != dst && src != DataBuf
    && d.Consistent() && d.PosCums[..N_POS + 1] == PosCum()
    && srclen <= src.Length && d.code == src[..srclen] && d.Tracks() && Ready(d.coder)
    && Written(DataBuf[..], r, dst[..], dp, junk, hist)
  }

  /** A literal token. */
  method EmitLiteral(d: Decompressor, src: array<byte>, srclen: nat, dst: array<byte>, dstend: nat, dp: nat,
                     DataBuf: array<byte>, r0: nat, c: byte, ghost junk: seq<byte>, ghost hist: seq<byte>)
    returns (r: nat)
    requires Between(d, src, srclen, dst, dp, DataBuf, r0, junk, hist) && dp < dstend <= dst.Length
    modifies dst, DataBuf
    ensures dst[dstend..] == old(dst[dstend..]) && d.Consistent() && d.Tables() == old(d.Tables())
    ensures Between(d, src, srclen, dst, dp + 1, DataBuf, r, junk, hist + [c])
  {
    hide Mirrors, Valid, Ready, Window, PosCum, Cell, Cum, Written, Inside;
    hide Decompressor.Consistent, Decompressor.Tracks, Decompressor.Tables;
    ghost var before := dst[..];
    r := PutByte(c, dst, dp, DataBuf, r0, junk, hist);
    assert dst[dstend..] == before[dstend..];
  }

  /** A match token, after its length character: decode the distance and copy. */
  method EmitMatch(d: Decompressor, src: array<byte>, srclen: nat, dst: array<byte>, dstend: nat, dp0: nat,
                   DataBuf: array<byte>, r0: nat, c: u32, ghost junk: seq<byte>, ghost hist: seq<byte>)
    returns (ok: bool, dp: nat, r: nat, ghost dist: nat)
    requires Between(d, src, srclen, dst, dp0, DataBuf, r0, junk, hist) && dp0 < dstend <= dst.Length
    requires Inside(d.code, d.coder) && 256 <= c < N_CHAR
    modifies d, dst, DataBuf
    ensures dst[dstend..] == old(dst[dstend..]) && d.code == old(d.code)
    ensures dist == DistOf(d.code, old(d.coder)) && d.coder == CodeDist(old(d.coder), dist)
    ensures d.Consistent() && Ready(d.coder) && Inside(d.code, d.coder) && d.Tables() == old(d.Tables())
    ensures ok == (|CopyMatch(hist, dist, c - 253)| <= N_POS + dstend)
    ensures ok ==> dp0 < dp <= dstend
    ensures ok ==> Between(d, src, srclen, dst, dp, DataBuf, r, junk, CopyMatch(hist, dist, c - 253))
    ensures !ok ==> Window(junk) + dst[..dstend] == CopyMatch(hist, dist, c - 253)[..N_POS + dstend]
  {
    hide Mirrors, Valid, Ready, Window, PosCum, Cell, Cum, CodeDist, CopyMatch, Written, Inside, DistOf;
    hide Decompressor.Consistent, Decompressor.Tracks, Decompressor.Tables;
    var j := c - 253;
    var i := d.DecodePos(src, srclen);
    dist := i + 1;
    ok, dp, r := CopyBytes(i, j, dst, dstend, dp0, DataBuf, r0, junk, hist);
  }

  /** One token: a literal byte, or a match copied from the history. */
  method DecodeToken(d: Decompressor, src: array<byte>, srclen: nat, dst: array<byte>, dstend: nat, dp0: nat,
                     DataBuf: array<byte>, r0: nat, ghost junk: seq<byte>, ghost hist: seq<byte>)
    returns (ok: bool, dp: nat, r: nat, ghost hist': seq<byte>)
    requires Between(d, src, srclen, dst, dp0, DataBuf, r0, junk, hist) && dp0 < dstend <= dst.Length
    modifies d, d.CharSym, d.SymChar, d.SymFreq, d.SymCum, dst, DataBuf
    ensures d.Consistent() && d.code == old(d.code) && dst[dstend..] == old(dst[dstend..])
    ensures ok ==> dp0 < dp <= dstend && Between(d, src, srclen, dst, dp, DataBuf, r, junk, hist')
    ensures ok ==> Decode(old(d.code), old(d.Tables()), old(d.coder), hist, N_POS + dstend)
                   == Decode(d.code, d.Tables(), d.coder, hist', N_POS + dstend)
    ensures !ok ==> Decode(old(d.code), old(d.Tables()), old(d.coder), hist, N_POS + dstend)
                    == (-1, Window(junk) + dst[..dstend])
  {
    hide Decode, Mirrors, Valid, Ready, Window, PosCum, Cell, Cum, CodeChar, CodeDist, NextModel, CopyMatch, Written;
    hide Inside, SymOf, DistOf, Value, Bounded;
    hide Decompressor.Consistent, Decompressor.Tracks, Decompressor.Tables;
    ghost var code, m0, c0, n := d.code, d.Tables(), d.coder, N_POS + dstend;
    ghost var s := SymOf(code, m0, c0);
    var c := d.DecodeChar(src, srclen);
    if c < 256 {
      DecodeLiteral(code, m0, c0, hist, n, s);
      r := EmitLiteral(d, src, srclen, dst, dstend, dp0, DataBuf, r0, c, junk, hist);
      ok, dp, hist' := true, dp0 + 1, hist + [c as byte];
    } else {
      ghost var dist;
      ok, dp, r, dist := EmitMatch(d, src, srclen, dst, dstend, dp0, DataBuf, r0, c, junk, hist);
      DecodeMatch(code, m0, c0, hist, n, s, dist);
      hist' := CopyMatch(hist, dist, c - 253);
    }
  }

  /** The main loop, from prepared tables and registers. */
  method DecodeLoop(d: Decompressor, src: array<byte>, dst: array<byte>, srclen: nat, dstend: nat,
                    DataBuf: array<byte>, ghost junk: seq<byte>) returns (ret: int)
    requires Between(d, src, srclen, dst, 0, DataBuf, 4036, junk, Window(junk)) && dstend <= dst.Length
    modifies d, d.CharSym, d.SymChar, d.SymFreq, d.SymCum, dst, DataBuf
    ensures d.Consistent()
    ensures (ret, Window(junk) + dst[..dstend]) ==
            Decode(old(d.code), old(d.Tables()), old(d.coder), Window(junk), N_POS + dstend)
    ensures dst[dstend..] == old(dst[dstend..])
  {
    hide Decode, Mirrors, Valid, Window, PosCum, Cell, Cum, Written, Inside;
    hide Decompressor.Consistent, Decompressor.Tracks, Decompressor.Tables;
    var r, dp, ok := 4036, 0, true;
    ghost var hist, dst0 := Window(junk), dst[..];
    ghost var goal := Decode(d.code, d.Tables(), d.coder, hist, N_POS + dstend);
    while dp < dstend
      invariant dp <= dstend && Between(d, src, srclen, dst, dp, DataBuf, r, junk, hist)
      invariant Decode(d.code, d.Tables(), d.coder, hist, N_POS + dstend) == goal
      invariant dst[dstend..] == dst0[dstend..]
      decreases dstend - dp
    {
      ok, dp, r, hist := DecodeToken(d, src, srclen, dst, dstend, dp, DataBuf, r, junk, hist);
      if !ok {
        ret := -1;
        return;
      }
    }
    DecodeNothing(d.code, d.Tables(), d.coder, hist);
    ret := 0;
  }

  /** Decompress src[..srclen] into dst.  For every source of at least four bytes the return
      code and the output are those of DecodeAll; exactly the announced number of bytes is
      written, also when a match overruns the end and the result is -1. */
  method Decompress(d: Decompressor, src: array<byte>, dst: array<byte>, srclen: nat)
    returns (ret: int, dstlen: u32, ghost junk: seq<byte>)
    requires d.Shape() && d.SymChar[0] == 0
    requires 4 <= srclen <= src.Length && Be32(src[..srclen], 0) <= dst.Length
    requires src != dst
    modifies d, d.CharSym, d.SymChar, d.SymFreq, d.SymCum, d.PosCums, dst
    ensures d.Shape() && d.SymChar[0] == 0
    ensures dstlen == Be32(src[..srclen], 0) && |junk| == N_POS - SPACES
    ensures (ret, dst[..dstlen]) == DecodeAll(src[..srclen], junk)
    ensures dst[dstlen..] == old(dst[dstlen..])
  {
    hide Decode, Mirrors, Cum, PosCum, Initial, Window, Valid, Written, Inside, Cell;
    ghost var code := src[..srclen];
    StartGood(code);
    dstlen := ((src[0] as int * 0x100 + src[1]) * 0x100 + src[2]) * 0x100 + src[3];
    d.Prime(src, srclen);
    d.SetupTables();
    var DataBuf;
    DataBuf, junk := NewWindow();
    StartWritten(DataBuf[..], dst[..], junk);
    ret := DecodeLoop(d, src, dst, srclen, dstlen, DataBuf, junk);
    DropPrefix(Window(junk), dst[..dstlen], 0);
    d.ZeroRank();
  }

  lemma StartWritten(buf: seq<byte>, dst: seq<byte>, junk: seq<byte>)
    requires |junk| == N_POS - SPACES && Mirrors(buf, Window(junk))
    ensures Written(buf, 4036, dst, 0, junk, Window(junk))
  {
  }

  /** Decompressing an encoding of tokens returns 0 and writes exactly the bytes they stand for. */
  method DecompressEncoded(d: Decompressor, src: array<byte>, dst: array<byte>, srclen: nat, ghost tokens: seq<Token>)
    returns (ret: int, dstlen: u32)
    requires d.Shape() && d.SymChar[0] == 0 && src != dst
    requires Defined(SPACES, tokens) && 4 <= srclen <= src.Length && Encodes(src[..srclen], tokens)
    requires |Meaning(tokens)| <= dst.Length
    modifies d, d.CharSym, d.SymChar, d.SymFreq, d.SymCum, d.PosCums, dst
    ensures ret == 0 && dstlen == |Meaning(tokens)| && dst[..dstlen] == Meaning(tokens)
  {
    hide Encodes, DecodeAll, Expand, Window;
    ghost var code := src[..srclen];
    ghost var junk;
    EncodedLength(code, tokens);
    ret, dstlen, junk := Decompress(d, src, dst, srclen);
    DecodeInvertsEncode(code, tokens, junk);
  }

  lemma EncodedLength(src: seq<byte>, tokens: seq<Token>)
    requires Defined(SPACES, tokens) && Encodes(src, tokens)
    ensures |src| >= 4 && Be32(src, 0) == |Meaning(tokens)|
  {
    hide Expand, CodeTokens, Inside, Good, Initial, Start, Defined;
    ExpandSize(Window([]), tokens);
  }
}
