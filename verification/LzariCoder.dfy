/** The interval arithmetic of the arithmetic coder: narrowing to a sub-interval,
    renormalisation, and the position of a bit stream inside an interval.

    An interval [low, high) of the decoder is kept together with what the decoder has
    subtracted so far: after n doublings the window `value` is the integer made of the
    first 17 + n code bits, minus base.  So one Coder describes the encoder (which only
    has the interval) and the decoder (which also has code bits). */
module LzariCoder {
  import opened Arith
  import opened Words

  const WIDTH := 0x2_0000
  const MAX_CUM := 0x7FFF

  datatype Coder = Coder(low: int, high: int, base: int, n: nat)

  ghost predicate Bounded(c: Coder) {
    0 <= c.low < c.high <= WIDTH && 0 <= c.base
  }

  /** The state the renormalisation loop leaves behind. */
  ghost predicate Ready(c: Coder) {
    && Bounded(c)
    && c.low < 0x1_0000 < c.high
    && (c.low < 0x8000 || 0x1_8000 < c.high)
  }

  /** A cumulative-frequency table: strictly decreasing down to 0, at most 0x7FFF. */
  ghost predicate ValidCum(cum: seq<int>) {
    && 2 <= |cum|
    && cum[|cum| - 1] == 0
    && cum[0] <= MAX_CUM
    && forall i, j :: 0 <= i < j < |cum| ==> cum[j] < cum[i]
  }

  /** Sub-interval of slot s, 1 <= s < |cum|. */
  function Narrow(c: Coder, cum: seq<int>, s: nat): Coder
    requires 1 <= s < |cum| && cum[0] > 0
  {
    var range := c.high - c.low;
    c.(low := c.low + range * cum[s] / cum[0],
       high := c.low + range * cum[s - 1] / cum[0])
  }

  /** One doubling after subtracting sub. */
  function Shift(c: Coder, sub: int): Coder {
    Coder(2 * (c.low - sub), 2 * (c.high - sub), 2 * (c.base + sub), c.n + 1)
  }

  /** What the renormalisation loop subtracts next; -1 when it stops. */
  function Excess(c: Coder): int {
    if c.low >= 0x1_0000 then 0x1_0000
    else if c.low >= 0x8000 && c.high <= 0x1_8000 then 0x8000
    else if c.high > 0x1_0000 then -1
    else 0
  }

  lemma ShiftBounded(c: Coder)
    requires Bounded(c) && Excess(c) >= 0
    ensures Bounded(Shift(c, Excess(c)))
    ensures Shift(c, Excess(c)).high - Shift(c, Excess(c)).low == 2 * (c.high - c.low)
  {
  }

  ghost function Renorm(c: Coder): (r: Coder)
    requires Bounded(c)
    ensures Ready(r)
    decreases WIDTH - (c.high - c.low)
  {
    if Excess(c) < 0 then c
    else
      ShiftBounded(c);
      Renorm(Shift(c, Excess(c)))
  }

  lemma RenormUnfold(c: Coder)
    requires Bounded(c)
    ensures Renorm(c) == if Excess(c) < 0 then c else Renorm(Shift(c, Excess(c)))
  {
    if Excess(c) >= 0 { ShiftBounded(c); }
  }

  function Pow2(n: nat): (r: int)
    ensures r >= 1
  {
    if n == 0 then 1 else 2 * Pow2(n - 1)
  }

  lemma DoubleEither(w: int, p: int)
    ensures (2 * w) * p == w * (2 * p)
  {
  }

  /** Renormalisation multiplies the width by a power of two and never exceeds 2^17. */
  lemma {:induction false} RenormWidth(c: Coder)
    requires Bounded(c)
    ensures Renorm(c).n >= c.n
    ensures Renorm(c).high - Renorm(c).low == (c.high - c.low) * Pow2(Renorm(c).n - c.n)
    decreases WIDTH - (c.high - c.low)
  {
    if Excess(c) >= 0 {
      ShiftBounded(c);
      var d := Shift(c, Excess(c));
      RenormWidth(d);
      DoubleEither(c.high - c.low, Pow2(Renorm(d).n - d.n));
    }
  }

  lemma {:induction false} Pow2Grows(a: nat, b: nat)
    requires a < b
    ensures 2 * Pow2(a) <= Pow2(b)
    decreases b - a
  {
    if a + 1 < b { Pow2Grows(a, b - 1); }
  }

  lemma Pow2Of17()
    ensures Pow2(17) == WIDTH
  {
    assert Pow2(8) == 0x100;
    assert Pow2(17) == 2 * (2 * (2 * (2 * (2 * (2 * (2 * (2 * (2 * Pow2(8)))))))));
  }

  lemma PowerBelowWidth(w: int, k: nat)
    requires 1 <= w && w * Pow2(k) <= WIDTH
    ensures k <= 17
  {
    MulMono(1, w, Pow2(k));
    Pow2Of17();
    if k > 17 { Pow2Grows(17, k); }
  }

  /** The renormalisation loop runs at most 17 times. */
  lemma RenormAtMost17(c: Coder)
    requires Bounded(c)
    ensures c.n <= Renorm(c).n <= c.n + 17
  {
    RenormWidth(c);
    PowerBelowWidth(c.high - c.low, Renorm(c).n - c.n);
  }

  // ----- arithmetic of the divisions

  /** The decoder's quotient is below c exactly when v lies below the scaled bound of c. */
  lemma QuotientBelow(v: int, range: int, total: int, c: int)
    requires 0 <= v < range && 0 < total && 0 <= c
    ensures ((v + 1) * total - 1) / range < c <==> v < range * c / total
  {
    DivBelow((v + 1) * total - 1, range, c);
    assert c * range == range * c;
    // v < range*c/total  <==>  !(range*c/total < v + 1)
    DivBelow(range * c, total, v + 1);
  }

  /** Distinct cumulative counts give distinct bounds, because the range is at least total. */
  lemma BoundsStrict(range: int, total: int, lo: int, hi: int)
    requires 0 < total <= range && 0 <= lo < hi
    ensures range * lo / total < range * hi / total
  {
    var q := range * lo / total;
    assert range * hi == range * lo + range * (hi - lo);
    MulMono(1, hi - lo, range);
    assert range * (hi - lo) == (hi - lo) * range;
    DivBelow(range * hi, total, q + 1);
    assert q * total <= range * lo;
    assert (q + 1) * total == q * total + total;
  }

  lemma BoundInside(range: int, total: int, c: int)
    requires 0 < total && 0 <= range && 0 <= c <= total
    ensures 0 <= range * c / total <= range
  {
    assert range * c <= range * total by { MulMono(c, total, range); }
    DivBelow(range * c, total, range + 1);
    assert (range + 1) * total == range * total + total;
    assert 0 <= range * c by { MulMono(0, c, range); }
    DivBelow(range * c, total, 0);
  }

  /** Every slot has a non-empty sub-interval inside the current one. */
  lemma NarrowBounded(c: Coder, cum: seq<int>, s: nat)
    requires Ready(c) && ValidCum(cum) && 1 <= s < |cum|
    ensures Bounded(Narrow(c, cum, s))
    ensures c.low <= Narrow(c, cum, s).low && Narrow(c, cum, s).high <= c.high
  {
    var range := c.high - c.low;
    assert range > 0x8000;
    assert cum[s] >= 0 by { if s < |cum| - 1 { assert cum[|cum| - 1] < cum[s]; } }
    assert cum[s - 1] <= cum[0] by { if 0 < s - 1 { assert cum[s - 1] < cum[0]; } }
    BoundsStrict(range, cum[0], cum[s], cum[s - 1]);
    BoundInside(range, cum[0], cum[s]);
    BoundInside(range, cum[0], cum[s - 1]);
  }

  /** The bounds of a slot are its cumulative counts, scaled to the interval and rounded down. */
  lemma NarrowScales(c: Coder, cum: seq<int>, s: nat)
    requires Ready(c) && ValidCum(cum) && 1 <= s < |cum|
    ensures var range, lo, hi := c.high - c.low, Narrow(c, cum, s).low - c.low, Narrow(c, cum, s).high - c.low;
            && lo * cum[0] <= range * cum[s] < (lo + 1) * cum[0]
            && hi * cum[0] <= range * cum[s - 1] < (hi + 1) * cum[0]
    ensures Narrow(c, cum, s).base == c.base && Narrow(c, cum, s).n == c.n
  {
    var range := c.high - c.low;
    DivBounds(range * cum[s], cum[0]);
    DivBounds(range * cum[s - 1], cum[0]);
  }

  /** An interval can be doubled around sub if it lies in the half of the range that starts there. */
  ghost predicate Doubles(c: Coder, sub: int) {
    sub <= c.low && c.high <= sub + 0x1_0000
  }

  /** Renormalisation stops exactly when the interval lies in none of the three halves of the range,
      lower, middle and upper, and otherwise takes the highest half the interval lies in. */
  lemma ExcessHighest(c: Coder)
    requires Bounded(c)
    ensures Renorm(c) == c <==> forall sub | sub in {0, 0x8000, 0x1_0000} :: !Doubles(c, sub)
    ensures Renorm(c) != c ==>
      exists sub | sub in {0, 0x8000, 0x1_0000} && Doubles(c, sub) ::
        && (forall more | more in {0, 0x8000, 0x1_0000} && Doubles(c, more) :: more <= sub)
        && Renorm(c) == Renorm(Coder(2 * (c.low - sub), 2 * (c.high - sub), 2 * (c.base + sub), c.n + 1))
  {
    var sub := Excess(c);
    if sub >= 0 {
      ShiftBounded(c);
      RenormWidth(Shift(c, sub));
      assert Doubles(c, sub);
      assert Renorm(c) == Renorm(Shift(c, sub));
    } else {
      assert Renorm(c) == c;
    }
  }

  // ----- code bits

  /** Bit j of a byte, most significant first. */
  function Mask(j: int): (r: int)
    requires 0 <= j < 8
    ensures r > 0
  {
    [128, 64, 32, 16, 8, 4, 2, 1][j]
  }

  /** The byte loaded for the code stream; zero once the source has run out. */
  function ByteAt(src: seq<byte>, i: nat): byte {
    if i < |src| then src[i] else 0
  }

  /** Code bit k; the code starts after the four length bytes. */
  function Bit(src: seq<byte>, k: nat): (r: int)
    ensures 0 <= r <= 1
  {
    ByteAt(src, 4 + k / 8) / Mask(k % 8) % 2
  }

  /** Integer made of the first k code bits. */
  function Prefix(src: seq<byte>, k: nat): (r: int)
    ensures 0 <= r < Pow2(k)
  {
    if k == 0 then 0 else 2 * Prefix(src, k - 1) + Bit(src, k - 1)
  }

  /** The decoder's window `value`. */
  function Value(src: seq<byte>, c: Coder): int {
    Prefix(src, 17 + c.n) - c.base
  }

  ghost predicate Inside(src: seq<byte>, c: Coder) {
    c.low <= Value(src, c) < c.high
  }

  lemma ShiftValue(src: seq<byte>, c: Coder, sub: int)
    ensures Value(src, Shift(c, sub)) == 2 * (Value(src, c) - sub) + Bit(src, 17 + c.n)
    ensures Inside(src, Shift(c, sub)) <==> Inside(src, c)
  {
  }

  /** Renormalising neither loses nor gains code streams. */
  lemma {:induction false} RenormInside(src: seq<byte>, c: Coder)
    requires Bounded(c)
    ensures Inside(src, Renorm(c)) <==> Inside(src, c)
    decreases WIDTH - (c.high - c.low)
  {
    if Excess(c) >= 0 {
      ShiftBounded(c);
      ShiftValue(src, c, Excess(c));
      RenormInside(src, Shift(c, Excess(c)));
    }
  }

  /** The quotient the decoder looks up in its cumulative table. */
  function Quotient(value: int, low: int, high: int, total: int): int
    requires low < high
  {
    ((value - low + 1) * total - 1) / (high - low)
  }

  lemma QuotientRange(value: int, low: int, high: int, total: int)
    requires low <= value < high && 0 < total
    ensures 0 <= Quotient(value, low, high, total) < total
  {
    var range := high - low;
    var a := (value - low + 1) * total - 1;
    MulMono(1, value - low + 1, total);
    MulMono(value - low + 1, range, total);
    DivBelow(a, range, total);
    DivBelow(a, range, 0);
    assert total * range == range * total;
  }

  /** Looking the quotient up finds exactly the slot whose sub-interval holds the code. */
  lemma QuotientFindsSlot(src: seq<byte>, c: Coder, cum: seq<int>, s: nat)
    requires Ready(c) && ValidCum(cum) && Inside(src, c) && 1 <= s < |cum|
    ensures Inside(src, Narrow(c, cum, s)) <==>
            cum[s] <= Quotient(Value(src, c), c.low, c.high, cum[0]) < cum[s - 1]
  {
    var v, range := Value(src, c) - c.low, c.high - c.low;
    assert cum[s] >= 0 by { if s < |cum| - 1 { assert cum[|cum| - 1] < cum[s]; } }
    assert cum[s] < cum[s - 1];
    QuotientBelow(v, range, cum[0], cum[s]);
    QuotientBelow(v, range, cum[0], cum[s - 1]);
  }

  /** At most one slot's sub-interval holds the code. */
  lemma SlotUnique(src: seq<byte>, c: Coder, cum: seq<int>, s: nat, t: nat)
    requires Ready(c) && ValidCum(cum) && Inside(src, c)
    requires 1 <= s < |cum| && 1 <= t < |cum|
    requires Inside(src, Narrow(c, cum, s)) && Inside(src, Narrow(c, cum, t))
    ensures s == t
  {
    assert s < t ==> cum[t - 1] <= cum[s];
    assert t < s ==> cum[s - 1] <= cum[t];
    QuotientFindsSlot(src, c, cum, s);
    QuotientFindsSlot(src, c, cum, t);
  }

  lemma {:induction false} ScanSlot(cum: seq<int>, x: int, i: nat) returns (s: nat)
    requires ValidCum(cum) && 0 <= x && i + 1 < |cum| && x < cum[i]
    ensures 1 <= s < |cum| && cum[s] <= x < cum[s - 1]
    decreases |cum| - i
  {
    if cum[i + 1] <= x { s := i + 1; } else { s := ScanSlot(cum, x, i + 1); }
  }

  /** At least one slot's sub-interval holds the code: the sub-intervals tile the interval. */
  lemma SlotExists(src: seq<byte>, c: Coder, cum: seq<int>)
    requires Ready(c) && ValidCum(cum) && Inside(src, c)
    ensures exists s: nat :: 1 <= s < |cum| && Inside(src, Narrow(c, cum, s))
  {
    var x := Quotient(Value(src, c), c.low, c.high, cum[0]);
    QuotientRange(Value(src, c), c.low, c.high, cum[0]);
    var s := ScanSlot(cum, x, 0);
    QuotientFindsSlot(src, c, cum, s);
  }

  /** Every product the decoder forms fits in 32 bits. */
  lemma ProductFits(range: int, count: int)
    requires 0 <= range <= WIDTH && 0 <= count <= MAX_CUM
    ensures 0 <= range * count <= 0x1_0000_0000 - WIDTH
  {
    MulMono(range, WIDTH, count);
    MulMono(0, count, range);
  }

  /** base + [low, high] stays inside the integers of 17 + n bits. */
  ghost predicate Fits(c: Coder) {
    c.base + c.high <= Pow2(17 + c.n)
  }

  lemma {:induction false} RenormFits(c: Coder)
    requires Bounded(c) && Fits(c)
    ensures Fits(Renorm(c))
    decreases WIDTH - (c.high - c.low)
  {
    if Excess(c) >= 0 {
      ShiftBounded(c);
      assert Pow2(17 + c.n + 1) == 2 * Pow2(17 + c.n);
      RenormFits(Shift(c, Excess(c)));
    }
  }
}
