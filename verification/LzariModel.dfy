/** The adaptive symbol model of the decoder as a value: which character holds which rank,
    and how often each rank has been used.  Cumulative counts are derived. */
module LzariModel {
  import opened Arith
  import opened LzariCoder

  const N_CHAR := 314

  /** Index 0 of symChar and freq is a sentinel; ranks run from 1 to 314. */
  datatype Model = Model(charSym: seq<int>, symChar: seq<int>, freq: seq<int>)

  function Sum(s: seq<int>): int {
    if s == [] then 0 else s[0] + Sum(s[1..])
  }

  /** Sum of freq above index i. */
  function Suffix(freq: seq<int>, i: nat): int
    requires i < |freq|
  {
    Sum(freq[i + 1..])
  }

  lemma SuffixStep(freq: seq<int>, i: nat)
    requires i < |freq|
    ensures Suffix(freq, i) == if i == |freq| - 1 then 0 else freq[i + 1] + Suffix(freq, i + 1)
  {
    if i < |freq| - 1 { assert freq[i + 1..][1..] == freq[i + 2..]; }
  }

  /** Cumulative counts, largest first. */
  function Cum(freq: seq<int>): (r: seq<int>)
    ensures |r| == |freq|
  {
    seq(|freq|, i requires 0 <= i < |freq| => Suffix(freq, i))
  }

  ghost predicate Positive(freq: seq<int>) {
    |freq| >= 2 && forall i :: 1 <= i < |freq| ==> 1 <= freq[i]
  }

  ghost predicate Ordered(freq: seq<int>) {
    && |freq| == N_CHAR + 1
    && freq[0] == 0
    && (forall i :: 1 <= i <= N_CHAR ==> 1 <= freq[i])
    && (forall i, j :: 1 <= i <= j <= N_CHAR ==> freq[j] <= freq[i])
  }

  ghost predicate Inverse(charSym: seq<int>, symChar: seq<int>) {
    && |charSym| == N_CHAR && |symChar| == N_CHAR + 1 && symChar[0] == 0
    && (forall c :: 0 <= c < N_CHAR ==> 1 <= charSym[c] <= N_CHAR && symChar[charSym[c]] == c)
    && (forall s :: 1 <= s <= N_CHAR ==> 0 <= symChar[s] < N_CHAR && charSym[symChar[s]] == s)
  }

  ghost predicate Valid(m: Model) {
    && Ordered(m.freq)
    && Inverse(m.charSym, m.symChar)
    && Suffix(m.freq, 0) <= MAX_CUM
  }

  function Initial(): Model {
    Model(seq(N_CHAR, c => c + 1),
          seq(N_CHAR + 1, s => if s == 0 then 0 else s - 1),
          seq(N_CHAR + 1, s => if s == 0 then 0 else 1))
  }

  function Halve(freq: seq<int>): (r: seq<int>)
    ensures |r| == |freq|
  {
    seq(|freq|, i requires 0 <= i < |freq| => (freq[i] + 1) / 2)
  }

  /** The counts used by an update: halved first when the total has reached the cap. */
  function Aged(freq: seq<int>): (r: seq<int>)
    requires |freq| == N_CHAR + 1
    ensures |r| == |freq|
  {
    if Suffix(freq, 0) >= MAX_CUM then Halve(freq) else freq
  }

  /** First rank of the run of ranks with the same count as sym. */
  function Leader(freq: seq<int>, sym: nat): (i: nat)
    requires sym < |freq|
    ensures i <= sym
  {
    if sym > 0 && freq[sym] == freq[sym - 1] then Leader(freq, sym - 1) else sym
  }

  /** The character at rank sym moves to the head of its run and is counted once more. */
  function Update(m: Model, sym: nat): Model
    requires |m.freq| == |m.symChar| == N_CHAR + 1 && 1 <= sym <= N_CHAR
    requires |m.charSym| == N_CHAR && 0 <= m.symChar[sym] < N_CHAR
    requires 0 <= m.symChar[Leader(Aged(m.freq), sym)] < N_CHAR
  {
    var freq := Aged(m.freq);
    var i := Leader(freq, sym);
    var ch, k := m.symChar[sym], m.symChar[i];
    Model(m.charSym[k := sym][ch := i],
          m.symChar[i := ch][sym := k],
          freq[i := freq[i] + 1])
  }

  /** How often character c has been counted. */
  function Count(m: Model, c: nat): int
    requires c < |m.charSym| && 0 <= m.charSym[c] < |m.freq|
  {
    m.freq[m.charSym[c]]
  }

  // ----- suffix sums

  lemma {:induction false} SuffixBounds(freq: seq<int>, i: nat)
    requires Positive(freq) && i < |freq|
    ensures Suffix(freq, i) >= |freq| - 1 - i
    decreases |freq| - i
  {
    SuffixStep(freq, i);
    if i < |freq| - 1 { SuffixBounds(freq, i + 1); }
  }

  lemma {:induction false} SuffixStrict(freq: seq<int>, i: nat, j: nat)
    requires Positive(freq) && i < j < |freq|
    ensures Suffix(freq, j) < Suffix(freq, i)
    decreases j - i
  {
    SuffixStep(freq, i);
    if i + 1 < j { SuffixStrict(freq, i + 1, j); }
  }

  /** Positive counts whose sum is under the cap make a valid table for the coder. */
  lemma CumIsValid(freq: seq<int>)
    requires Positive(freq) && Suffix(freq, 0) <= MAX_CUM
    ensures ValidCum(Cum(freq)) && Cum(freq)[0] >= |freq| - 1
  {
    var cum := Cum(freq);
    forall i, j | 0 <= i < j < |cum|
      ensures cum[j] < cum[i]
    {
      SuffixStrict(freq, i, j);
    }
    SuffixBounds(freq, 0);
  }

  lemma CumValid(m: Model)
    requires Valid(m)
    ensures ValidCum(Cum(m.freq)) && Cum(m.freq)[0] >= N_CHAR
  {
    CumIsValid(m.freq);
  }

  lemma {:induction false} SuffixBump(freq: seq<int>, i: nat, k: nat)
    requires i < |freq| && k < |freq|
    ensures Suffix(freq[i := freq[i] + 1], k) == Suffix(freq, k) + if k < i then 1 else 0
    decreases |freq| - k
  {
    SuffixStep(freq, k);
    SuffixStep(freq[i := freq[i] + 1], k);
    if k < |freq| - 1 { SuffixBump(freq, i, k + 1); }
  }

  lemma {:induction false} SuffixHalve(freq: seq<int>, k: nat)
    requires k < |freq|
    ensures 2 * Suffix(Halve(freq), k) <= Suffix(freq, k) + |freq| - 1 - k
    decreases |freq| - k
  {
    SuffixStep(freq, k);
    SuffixStep(Halve(freq), k);
    if k < |freq| - 1 { SuffixHalve(freq, k + 1); }
  }

  lemma HalveOrdered(freq: seq<int>)
    requires Ordered(freq)
    ensures Ordered(Halve(freq))
  {
  }

  lemma AgedOrdered(freq: seq<int>)
    requires Ordered(freq) && Suffix(freq, 0) <= MAX_CUM
    ensures Ordered(Aged(freq)) && Suffix(Aged(freq), 0) < MAX_CUM
  {
    HalveOrdered(freq);
    SuffixHalve(freq, 0);
  }

  lemma {:induction false} LeaderRun(freq: seq<int>, sym: nat)
    requires Ordered(freq) && 1 <= sym <= N_CHAR
    ensures 1 <= Leader(freq, sym) <= sym
    ensures freq[Leader(freq, sym)] == freq[sym]
    ensures freq[Leader(freq, sym) - 1] != freq[sym]
  {
    if freq[sym] == freq[sym - 1] { LeaderRun(freq, sym - 1); }
  }

  lemma BumpOrdered(freq: seq<int>, i: nat)
    requires Ordered(freq) && 1 <= i <= N_CHAR && freq[i - 1] != freq[i]
    ensures Ordered(freq[i := freq[i] + 1])
  {
  }

  lemma SwapInverse(charSym: seq<int>, symChar: seq<int>, i: nat, sym: nat)
    requires Inverse(charSym, symChar) && 1 <= i <= sym <= N_CHAR
    ensures Inverse(charSym[symChar[i] := sym][symChar[sym] := i], symChar[i := symChar[sym]][sym := symChar[i]])
  {
  }

  /** An update keeps the tables sorted, mutually inverse and below the cap. */
  lemma UpdateValid(m: Model, sym: nat)
    requires Valid(m) && 1 <= sym <= N_CHAR
    ensures 1 <= Leader(Aged(m.freq), sym) <= sym
    ensures Valid(Update(m, sym))
  {
    hide Inverse, Ordered, Suffix, Leader, Aged;
    AgedOrdered(m.freq);
    var freq := Aged(m.freq);
    OrderedLeader(freq, sym);
    InverseRanges(m, sym, Leader(freq, sym));
    var i := Leader(freq, sym);
    SwapInverse(m.charSym, m.symChar, i, sym);
    SuffixBump(freq, i, 0);
  }

  lemma OrderedLeader(freq: seq<int>, sym: nat)
    requires Ordered(freq) && 1 <= sym <= N_CHAR
    ensures 1 <= Leader(freq, sym) <= sym && freq[Leader(freq, sym)] == freq[sym]
    ensures Ordered(freq[Leader(freq, sym) := freq[Leader(freq, sym)] + 1])
  {
    LeaderRun(freq, sym);
    BumpOrdered(freq, Leader(freq, sym));
  }

  lemma InverseRanges(m: Model, sym: nat, i: nat)
    requires Valid(m) && 1 <= i <= sym <= N_CHAR
    ensures |m.freq| == |m.symChar| == N_CHAR + 1 && |m.charSym| == N_CHAR
    ensures 0 <= m.symChar[sym] < N_CHAR && 0 <= m.symChar[i] < N_CHAR
  {
  }

  /** The model as a plain map from characters to counts: after any halving, the decoded
      character is counted once more and every other count is untouched. */
  lemma UpdateCounts(m: Model, sym: nat, c: nat)
    requires Valid(m) && 1 <= sym <= N_CHAR && c < N_CHAR
    ensures 1 <= Leader(Aged(m.freq), sym) <= sym
    ensures Valid(Update(m, sym))
    ensures Count(Update(m, sym), c) ==
            (if Suffix(m.freq, 0) >= MAX_CUM then (Count(m, c) + 1) / 2 else Count(m, c))
            + if c == m.symChar[sym] then 1 else 0
  {
    hide Valid, Suffix, Leader, Aged;
    UpdateValid(m, sym);
    UpdateSlots(m, sym, c);
    AgedCount(m, c);
  }

  /** The ranks after an update: the decoded character takes the first rank with its count, the
      character that was there takes the rank left, and no other character moves. */
  lemma UpdateRanks(m: Model, sym: nat, c: nat)
    requires Valid(m) && 1 <= sym <= N_CHAR && c < N_CHAR
    ensures 1 <= Leader(Aged(m.freq), sym) <= sym && Valid(Update(m, sym))
    ensures var freq, m', ch := Aged(m.freq), Update(m, sym), m.symChar[sym];
            var i := m'.charSym[ch];
            && 1 <= i <= sym && (forall s :: 1 <= s < i ==> freq[s] > freq[i]) && freq[i] == freq[sym]
            && m'.charSym[m.symChar[i]] == (if i == sym then i else sym)
            && (c != ch && c != m.symChar[i] ==> m'.charSym[c] == m.charSym[c])
  {
    UpdateValid(m, sym);
    hide Suffix, Aged;
    AgedOrdered(m.freq);
    LeaderRun(Aged(m.freq), sym);
    hide Leader;
    var freq, i, m' := Aged(m.freq), Leader(Aged(m.freq), sym), Update(m, sym);
    var ch, k := m.symChar[sym], m.symChar[i];
    assert m.charSym[ch] == sym && m.charSym[k] == i;
    assert m'.charSym[ch] == i;
    forall s | 1 <= s < i
      ensures freq[s] > freq[i]
    {
      assert freq[i - 1] <= freq[s] && freq[i] <= freq[i - 1];
    }
  }

  /** Where each character and each count is after an update. */
  lemma UpdateSlots(m: Model, sym: nat, c: nat)
    requires Valid(m) && 1 <= sym <= N_CHAR && c < N_CHAR
    ensures var freq, i, m' := Aged(m.freq), Leader(Aged(m.freq), sym), Update(m, sym);
            && 1 <= i <= sym && 1 <= m.charSym[c] <= N_CHAR && 1 <= m'.charSym[c] <= N_CHAR
            && 0 <= m.symChar[sym] < N_CHAR && |m'.freq| == N_CHAR + 1
            && m'.freq[m'.charSym[c]] == freq[m.charSym[c]] + if c == m.symChar[sym] then 1 else 0
  {
    hide Suffix, Aged;
    AgedOrdered(m.freq);
    LeaderRun(Aged(m.freq), sym);
    hide Leader;
    var i, m' := Leader(Aged(m.freq), sym), Update(m, sym);
    var ch, k := m.symChar[sym], m.symChar[i];
    assert m.charSym[ch] == sym && m.charSym[k] == i;
    if c != ch && c != k {
      assert m'.charSym[c] == m.charSym[c];
      assert m.symChar[m.charSym[c]] == c;
    }
  }

  lemma AgedCount(m: Model, c: nat)
    requires Valid(m) && c < N_CHAR
    ensures 1 <= m.charSym[c] <= N_CHAR
    ensures Aged(m.freq)[m.charSym[c]] ==
            if Suffix(m.freq, 0) >= MAX_CUM then (Count(m, c) + 1) / 2 else Count(m, c)
  {
  }

  lemma {:induction false} OnesSuffix(freq: seq<int>, i: nat)
    requires i < |freq| && forall k :: 1 <= k < |freq| ==> freq[k] == 1
    ensures Suffix(freq, i) == |freq| - 1 - i
    decreases |freq| - i
  {
    SuffixStep(freq, i);
    if i < |freq| - 1 { OnesSuffix(freq, i + 1); }
  }

  /** At the start every character counts once, and a higher character has a higher rank. */
  lemma InitialOrder()
    ensures Valid(Initial())
    ensures forall c :: 0 <= c < N_CHAR ==> Count(Initial(), c) == 1
    ensures forall c, d :: 0 <= c < d < N_CHAR ==> Initial().charSym[c] < Initial().charSym[d]
  {
    InitialValid();
  }

  lemma InitialRank(s: nat)
    requires 1 <= s <= N_CHAR
    ensures |Initial().freq| == |Initial().symChar| == N_CHAR + 1 && Initial().symChar[s] == s - 1
    ensures Cum(Initial().freq)[s] == N_CHAR - s && Cum(Initial().freq)[s - 1] == N_CHAR - s + 1
    ensures Cum(Initial().freq)[0] == N_CHAR
  {
    OnesSuffix(Initial().freq, s);
    OnesSuffix(Initial().freq, s - 1);
    OnesSuffix(Initial().freq, 0);
  }

  lemma InitialValid()
    ensures Valid(Initial())
  {
    var m := Initial();
    OnesSuffix(m.freq, 0);
    hide Suffix;
  }

  // ----- match distances: a fixed table

  const N_POS := 4096

  function PosFreq(i: nat): int { 10000 / (i + 200) }

  function PosFreqs(): (r: seq<int>)
    ensures |r| == N_POS + 1
  {
    seq(N_POS + 1, i requires 0 <= i <= N_POS => PosFreq(i))
  }

  function PosCum(): (r: seq<int>)
    ensures |r| == N_POS + 1
  {
    Cum(PosFreqs())
  }

  /** In a table of distances each weighs 10000 divided by the distance plus 200, rounded down. */
  ghost predicate Weighted(cum: seq<int>) {
    && |cum| == N_POS + 1 && cum[N_POS] == 0
    && forall i :: 1 <= i <= N_POS ==>
         (cum[i - 1] - cum[i]) * (i + 200) <= 10000 < (cum[i - 1] - cum[i] + 1) * (i + 200)
  }

  lemma PosWeighted()
    ensures Weighted(PosCum())
  {
    hide PosFreq, PosCum, Suffix;
    PosWeight(N_POS);
    forall i | 1 <= i <= N_POS
      ensures (PosCum()[i - 1] - PosCum()[i]) * (i + 200) <= 10000
              < (PosCum()[i - 1] - PosCum()[i] + 1) * (i + 200)
    {
      PosWeight(i);
    }
  }

  lemma PosWeight(i: nat)
    requires 1 <= i <= N_POS
    ensures (PosCum()[i - 1] - PosCum()[i]) * (i + 200) <= 10000
            < (PosCum()[i - 1] - PosCum()[i] + 1) * (i + 200)
    ensures PosCum()[N_POS] == 0
  {
    SuffixStep(PosFreqs(), i - 1);
    SuffixStep(PosFreqs(), N_POS);
    hide Suffix;
    var w := PosCum()[i - 1] - PosCum()[i];
    assert w == PosFreq(i) == 10000 / (i + 200);
    DivBounds(10000, i + 200);
  }

  lemma PosFreqBounds(lo: nat, i: nat)
    requires lo <= i <= N_POS
    ensures 2 <= PosFreq(i) <= PosFreq(lo)
  {
    var f := PosFreq(i);
    DivBelow(10000, i + 200, 2);
    DivBelow(10000, lo + 200, f);
    MulMono(f, f, lo + 200);
    assert f * (lo + 200) <= f * (i + 200) <= 10000;
  }

  /** The sum over (lo, hi] is at most the length times the first term. */
  lemma {:induction false} PosSumBelow(freq: seq<int>, lo: nat, hi: nat, first: int)
    requires freq == PosFreqs() && lo <= hi <= N_POS && (lo < N_POS ==> PosFreq(lo + 1) <= first)
    ensures Suffix(freq, lo) <= Suffix(freq, hi) + (hi - lo) * first
    decreases hi - lo
  {
    if lo < hi {
      SuffixStep(freq, lo);
      if lo + 1 < N_POS { PosFreqBounds(lo + 1, lo + 2); }
      PosSumBelow(freq, lo + 1, hi, first);
      assert (hi - lo) * first == (hi - (lo + 1)) * first + first;
    }
  }

  /** The total of the distance table stays below the cap. */
  lemma PosTotal(freq: seq<int>)
    requires freq == PosFreqs()
    ensures Suffix(freq, 0) <= MAX_CUM
  {
    var cut := [0, 77, 184, 355, 569, 911, 1466, 2300, 3133, N_POS];
    PosSumBelow(freq, cut[0], cut[1], 49);
    PosSumBelow(freq, cut[1], cut[2], 35);
    PosSumBelow(freq, cut[2], cut[3], 25);
    PosSumBelow(freq, cut[3], cut[4], 17);
    PosSumBelow(freq, cut[4], cut[5], 12);
    PosSumBelow(freq, cut[5], cut[6], 8);
    PosSumBelow(freq, cut[6], cut[7], 5);
    PosSumBelow(freq, cut[7], cut[8], 3);
    PosSumBelow(freq, cut[8], cut[9], 2);
    SuffixStep(freq, cut[9]);
  }

  lemma PosCumValid()
    ensures ValidCum(PosCum())
  {
    var freq := PosFreqs();
    forall i | 1 <= i < |freq|
      ensures 1 <= freq[i]
    {
      PosFreqBounds(i, i);
    }
    PosTotal(freq);
    CumIsValid(freq);
  }
}
