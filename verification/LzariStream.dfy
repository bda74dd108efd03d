/** Meaning of a compressed stream: token expansion, the decoder as a function of the code
    bits, the encoder, and the proof that decoding inverts encoding. */
module LzariStream {
  import opened Arith
  import opened Words
  import opened LzariCoder
  import opened LzariModel

  datatype Token = Literal(b: byte) | Match(len: int, dist: int)

  const MIN_MATCH := 3
  const MAX_MATCH := 60

  ghost predicate ValidToken(t: Token) {
    t.Match? ==> MIN_MATCH <= t.len <= MAX_MATCH && 1 <= t.dist <= N_POS
  }

  /** Character number of a token: 0..255 literals, 256..313 match lengths. */
  function CharOf(t: Token): (c: int)
    requires ValidToken(t)
    ensures 0 <= c < N_CHAR
  {
    match t
    case Literal(b) => b
    case Match(len, _) => len + 253
  }

  /** LZSS copying, one byte at a time, so a match may overlap its own output. */
  function CopyMatch(hist: seq<byte>, dist: int, len: nat): (r: seq<byte>)
    requires 1 <= dist <= |hist|
    ensures |r| == |hist| + len && hist <= r
    decreases len
  {
    if len == 0 then hist
    else CopyMatch(hist + [hist[|hist| - dist]], dist, len - 1)
  }

  /** Every byte a match adds is the one a distance back. */
  lemma {:induction false} CopyPeriodic(hist: seq<byte>, dist: int, len: nat, r: seq<byte>)
    requires 1 <= dist <= |hist| && r == CopyMatch(hist, dist, len)
    ensures forall k :: |hist| <= k < |r| ==> r[k] == r[k - dist]
    decreases len
  {
    if len > 0 {
      var h := hist + [hist[|hist| - dist]];
      CopyPeriodic(h, dist, len - 1, r);
      assert h[|hist|] == h[|hist| - dist];
    }
  }

  /** Bytes a token stands for. */
  function Size(t: Token): int {
    if t.Literal? then 1 else t.len
  }

  /** A match reaches back into the h bytes the history defines. */
  ghost predicate Reaches(h: nat, t: Token) {
    ValidToken(t) && (t.Match? ==> t.dist <= h)
  }

  ghost predicate Defined(h: nat, tokens: seq<Token>)
    decreases |tokens|
  {
    tokens == [] || (Reaches(h, tokens[0]) && Defined(h + Size(tokens[0]), tokens[1..]))
  }

  /** History after one token. */
  function Extend(hist: seq<byte>, t: Token): (r: seq<byte>)
    requires Reaches(|hist|, t)
    ensures |r| == |hist| + Size(t) && hist <= r
  {
    match t
    case Literal(b) => hist + [b]
    case Match(len, dist) => CopyMatch(hist, dist, len)
  }

  /** The history after a token list. */
  function Expand(hist: seq<byte>, tokens: seq<Token>): (r: seq<byte>)
    requires Defined(|hist|, tokens)
    ensures |hist| + |tokens| <= |r| && hist <= r
    decreases |tokens|
  {
    if tokens == [] then hist
    else
      Expand(Extend(hist, tokens[0]), tokens[1..])
  }

  // ----- encoder: the interval of a token list

  ghost function CodeSlot(c: Coder, cum: seq<int>, s: nat): (r: Coder)
    requires Ready(c) && ValidCum(cum) && 1 <= s < |cum|
    ensures Ready(r)
  {
    NarrowBounded(c, cum, s);
    Renorm(Narrow(c, cum, s))
  }

  ghost predicate Good(m: Model, c: Coder) {
    Valid(m) && Ready(c)
  }

  ghost function CodeChar(m: Model, c: Coder, s: nat): (r: Coder)
    requires Good(m, c) && 1 <= s <= N_CHAR
    ensures Ready(r)
  {
    CumValid(m);
    CodeSlot(c, Cum(m.freq), s)
  }

  ghost function NextModel(m: Model, s: nat): (r: Model)
    requires Valid(m) && 1 <= s <= N_CHAR
    ensures Valid(r)
  {
    UpdateValid(m, s);
    Update(m, s)
  }

  ghost function ModelAfter(m: Model, t: Token): (r: Model)
    requires Valid(m) && ValidToken(t)
    ensures Valid(r)
  {
    NextModel(m, m.charSym[CharOf(t)])
  }

  ghost function CodeDist(c: Coder, dist: nat): (r: Coder)
    requires Ready(c) && 1 <= dist <= N_POS
    ensures Ready(r)
  {
    PosCumValid();
    CodeSlot(c, PosCum(), dist)
  }

  /** Interval after one token. */
  ghost function CodeToken(m: Model, c: Coder, t: Token): (r: Coder)
    requires Good(m, c) && ValidToken(t)
    ensures Ready(r)
  {
    var c1 := CodeChar(m, c, m.charSym[CharOf(t)]);
    if t.Match? then CodeDist(c1, t.dist) else c1
  }

  /** Interval after a token list: any code in it is an encoding of the list. */
  ghost function CodeTokens(m: Model, c: Coder, tokens: seq<Token>): (r: Coder)
    requires Good(m, c) && forall t <- tokens :: ValidToken(t)
    ensures Ready(r)
    decreases |tokens|
  {
    if tokens == [] then c
    else CodeTokens(ModelAfter(m, tokens[0]), CodeToken(m, c, tokens[0]), tokens[1..])
  }

  function Start(): Coder { Coder(0, WIDTH, 0, 0) }

  // ----- decoder

  /** The slot whose sub-interval holds the code. */
  ghost function SlotOf(src: seq<byte>, c: Coder, cum: seq<int>): (s: nat)
    requires Ready(c) && ValidCum(cum) && Inside(src, c)
    ensures 1 <= s < |cum| && Inside(src, Narrow(c, cum, s))
    ensures Inside(src, CodeSlot(c, cum, s))
  {
    SlotExists(src, c, cum);
    var s: nat :| 1 <= s < |cum| && Inside(src, Narrow(c, cum, s));
    NarrowBounded(c, cum, s);
    RenormInside(src, Narrow(c, cum, s));
    s
  }

  ghost function SymOf(src: seq<byte>, m: Model, c: Coder): (s: nat)
    requires Good(m, c) && Inside(src, c)
    ensures 1 <= s <= N_CHAR && Inside(src, CodeChar(m, c, s))
  {
    CumValid(m);
    SlotOf(src, c, Cum(m.freq))
  }

  ghost function DistOf(src: seq<byte>, c: Coder): (s: nat)
    requires Ready(c) && Inside(src, c)
    ensures 1 <= s <= N_POS && Inside(src, CodeDist(c, s))
  {
    PosCumValid();
    SlotOf(src, c, PosCum())
  }

  /** The token the code selects: its character, and for a match its distance. */
  ghost function TokenOf(src: seq<byte>, m: Model, c: Coder): (t: Token)
    requires Good(m, c) && Inside(src, c)
    ensures ValidToken(t) && m.charSym[CharOf(t)] == SymOf(src, m, c)
    ensures Inside(src, CodeToken(m, c, t))
  {
    var s := SymOf(src, m, c);
    var ch := m.symChar[s];
    if ch < 256 then Literal(ch) else Match(ch - 253, DistOf(src, CodeChar(m, c, s)))
  }

  /** Decode until the history has n bytes; -1 when a match runs past n. */
  ghost function Decode(src: seq<byte>, m: Model, c: Coder, hist: seq<byte>, n: nat): (r: (int, seq<byte>))
    requires Good(m, c) && Inside(src, c) && N_POS <= |hist| <= n
    ensures |r.1| == n && hist <= r.1
    decreases n - |hist|
  {
    if |hist| == n then (0, hist)
    else
      var t := TokenOf(src, m, c);
      var hist1 := Extend(hist, t);
      if |hist1| > n then (-1, hist1[..n])
      else Decode(src, ModelAfter(m, t), CodeToken(m, c, t), hist1, n)
  }

  const SPACES := 4036

  function Window(junk: seq<byte>): (r: seq<byte>)
    ensures |r| == |junk| + SPACES
  {
    junk + seq(SPACES, _ => ' ' as int as byte)
  }

  lemma StartGood(src: seq<byte>)
    ensures Good(Initial(), Start()) && Inside(src, Start())
  {
    InitialValid();
    Pow2Of17();
  }

  /** Outcome of decompressing src: return code and output.  The last 60 cells of the ring
      buffer are not initialised by the program; junk is what they happen to hold. */
  ghost function DecodeAll(src: seq<byte>, junk: seq<byte>): (r: (int, seq<byte>))
    requires |src| >= 4 && |junk| == N_POS - SPACES
    ensures |r.1| == Be32(src, 0)
  {
    StartGood(src);
    var r := Decode(src, Initial(), Start(), Window(junk), N_POS + Be32(src, 0));
    (r.0, r.1[N_POS..])
  }

  // ----- decoding inverts encoding

  lemma SlotInside(src: seq<byte>, c: Coder, cum: seq<int>, s: nat)
    requires Ready(c) && ValidCum(cum) && 1 <= s < |cum|
    requires Inside(src, CodeSlot(c, cum, s))
    ensures Inside(src, c) && SlotOf(src, c, cum) == s
  {
    NarrowBounded(c, cum, s);
    RenormInside(src, Narrow(c, cum, s));
    SlotUnique(src, c, cum, s, SlotOf(src, c, cum));
  }

  /** A code inside the interval of a token decodes to that token. */
  lemma TokenInside(src: seq<byte>, m: Model, c: Coder, t: Token)
    requires Good(m, c) && ValidToken(t) && Inside(src, CodeToken(m, c, t))
    ensures Inside(src, c) && TokenOf(src, m, c) == t
  {
    var s := m.charSym[CharOf(t)];
    if t.Match? {
      PosCumValid();
      SlotInside(src, CodeChar(m, c, s), PosCum(), t.dist);
    }
    CumValid(m);
    SlotInside(src, c, Cum(m.freq), s);
  }

  /** The interval of a longer list lies in the interval of its prefix. */
  lemma {:induction false} TokensInside(src: seq<byte>, m: Model, c: Coder, tokens: seq<Token>)
    requires Good(m, c) && (forall t <- tokens :: ValidToken(t)) && Inside(src, CodeTokens(m, c, tokens))
    ensures Inside(src, c)
    decreases |tokens|
  {
    if tokens != [] {
      TokensInside(src, ModelAfter(m, tokens[0]), CodeToken(m, c, tokens[0]), tokens[1..]);
      TokenInside(src, m, c, tokens[0]);
    }
  }

  lemma {:induction false} DefinedValid(h: nat, tokens: seq<Token>)
    requires Defined(h, tokens)
    ensures forall t <- tokens :: ValidToken(t)
    decreases |tokens|
  {
    if tokens != [] {
      DefinedValid(h + Size(tokens[0]), tokens[1..]);
      assert forall t <- tokens :: t == tokens[0] || t in tokens[1..];
    }
  }

  /** A code inside the interval of a token makes the decoder take exactly that token. */
  lemma DecodeOne(src: seq<byte>, m: Model, c: Coder, hist: seq<byte>, t: Token, n: nat)
    requires Good(m, c) && N_POS <= |hist| && Reaches(|hist|, t)
    requires Inside(src, CodeToken(m, c, t)) && |Extend(hist, t)| <= n
    ensures Inside(src, c)
    ensures Decode(src, m, c, hist, n) ==
            Decode(src, ModelAfter(m, t), CodeToken(m, c, t), Extend(hist, t), n)
  {
    TokenInside(src, m, c, t);
  }

  lemma DecodeNothing(src: seq<byte>, m: Model, c: Coder, hist: seq<byte>)
    requires Good(m, c) && Inside(src, c) && N_POS <= |hist|
    ensures Decode(src, m, c, hist, |hist|) == (0, hist)
  {
  }

  /** Any code inside the interval of a token list decodes to the expansion of the list. */
  lemma {:induction false} DecodeTokens(src: seq<byte>, m: Model, c: Coder, hist: seq<byte>, tokens: seq<Token>)
    requires Good(m, c) && N_POS <= |hist| && Defined(|hist|, tokens)
    requires (forall t <- tokens :: ValidToken(t)) && Inside(src, CodeTokens(m, c, tokens))
    ensures Inside(src, c)
    ensures Decode(src, m, c, hist, |Expand(hist, tokens)|) == (0, Expand(hist, tokens))
    decreases |tokens|
  {
    hide Decode, Inside, CodeToken, ModelAfter, Valid, Ready;
    TokensInside(src, m, c, tokens);
    if tokens == [] {
      DecodeNothing(src, m, c, hist);
    } else {
      var t, rest := tokens[0], tokens[1..];
      var m1, c1, hist1 := ModelAfter(m, t), CodeToken(m, c, t), Extend(hist, t);
      assert Expand(hist, tokens) == Expand(hist1, rest);
      TokensInside(src, m1, c1, rest);
      DecodeOne(src, m, c, hist, t, |Expand(hist1, rest)|);
      DecodeTokens(src, m1, c1, hist1, rest);
    }
  }

  // ----- the uninitialised part of the window does not matter to defined tokens

  lemma CopyUnfold(hist: seq<byte>, dist: int, len: nat)
    requires 1 <= dist <= |hist|
    ensures CopyMatch(hist, dist, len) ==
            if len == 0 then hist else CopyMatch(hist + [hist[|hist| - dist]], dist, len - 1)
  {
  }

  lemma {:induction false} CopyPrefix(junk: seq<byte>, hist: seq<byte>, dist: int, len: nat)
    requires 1 <= dist <= |hist|
    ensures CopyMatch(junk + hist, dist, len) == junk + CopyMatch(hist, dist, len)
    decreases len
  {
    hide CopyMatch;
    CopyUnfold(hist, dist, len);
    CopyUnfold(junk + hist, dist, len);
    if len > 0 {
      var b := hist[|hist| - dist];
      assert (junk + hist)[|junk + hist| - dist] == b;
      assert (junk + hist) + [b] == junk + (hist + [b]);
      CopyPrefix(junk, hist + [b], dist, len - 1);
    }
  }

  lemma ExtendPrefix(junk: seq<byte>, hist: seq<byte>, t: Token)
    requires Reaches(|hist|, t)
    ensures Extend(junk + hist, t) == junk + Extend(hist, t)
  {
    match t
    case Literal(b) => assert (junk + hist) + [b] == junk + (hist + [b]);
    case Match(len, dist) => CopyPrefix(junk, hist, dist, len);
  }

  lemma {:induction false} DefinedMore(h: nat, h': nat, tokens: seq<Token>)
    requires Defined(h, tokens) && h <= h'
    ensures Defined(h', tokens)
    decreases |tokens|
  {
    if tokens != [] {
      DefinedMore(h + Size(tokens[0]), h' + Size(tokens[0]), tokens[1..]);
    }
  }

  lemma {:induction false} ExpandPrefix(junk: seq<byte>, hist: seq<byte>, tokens: seq<Token>)
    requires Defined(|hist|, tokens)
    ensures Defined(|junk + hist|, tokens)
    ensures Expand(junk + hist, tokens) == junk + Expand(hist, tokens)
    decreases |tokens|
  {
    DefinedMore(|hist|, |junk + hist|, tokens);
    if tokens != [] {
      ExtendPrefix(junk, hist, tokens[0]);
      ExpandPrefix(junk, Extend(hist, tokens[0]), tokens[1..]);
    }
  }

  ghost predicate ValidTokens(tokens: seq<Token>) {
    forall t <- tokens :: ValidToken(t)
  }

  /** Number of bytes a token list stands for. */
  function TotalSize(tokens: seq<Token>): int {
    if tokens == [] then 0 else Size(tokens[0]) + TotalSize(tokens[1..])
  }

  lemma {:induction false} ExpandSize(hist: seq<byte>, tokens: seq<Token>)
    requires Defined(|hist|, tokens)
    ensures |Expand(hist, tokens)| == |hist| + TotalSize(tokens)
    decreases |tokens|
  {
    if tokens != [] { ExpandSize(Extend(hist, tokens[0]), tokens[1..]); }
  }

  /** A full window defines every distance a token can name. */
  lemma {:induction false} WindowDefines(h: nat, tokens: seq<Token>)
    requires ValidTokens(tokens) && N_POS <= h
    ensures Defined(h, tokens)
    decreases |tokens|
  {
    if tokens != [] {
      assert tokens[0] in tokens;
      WindowDefines(h + Size(tokens[0]), tokens[1..]);
    }
  }

  /** Bytes a token list stands for: the history starts with 4036 spaces. */
  function Meaning(tokens: seq<Token>): seq<byte>
    requires Defined(SPACES, tokens)
  {
    Expand(Window([]), tokens)[SPACES..]
  }

  /** src encodes tokens: the length field is right and the code lies in the interval. */
  ghost predicate Encodes(src: seq<byte>, tokens: seq<Token>) {
    && ValidTokens(tokens)
    && |src| >= 4 && Be32(src, 0) == TotalSize(tokens)
    && Good(Initial(), Start())
    && Inside(src, CodeTokens(Initial(), Start(), tokens))
  }

  lemma DropPrefix(junk: seq<byte>, x: seq<byte>, k: nat)
    requires k <= |x|
    ensures (junk + x)[|junk| + k..] == x[k..]
  {
  }

  /** An encoding of any token list decodes to its expansion behind the initial window. */
  lemma DecodeEncoded(src: seq<byte>, tokens: seq<Token>, junk: seq<byte>)
    requires Encodes(src, tokens) && |junk| == N_POS - SPACES
    ensures Defined(|Window(junk)|, tokens)
    ensures DecodeAll(src, junk) == (0, Expand(Window(junk), tokens)[N_POS..])
  {
    hide Decode, Expand, CodeTokens, Initial, Start, Window, Defined, Inside;
    WindowDefines(|Window(junk)|, tokens);
    ExpandSize(Window(junk), tokens);
    DecodeTokens(src, Initial(), Start(), Window(junk), tokens);
  }

  lemma WindowSplits(junk: seq<byte>)
    ensures Window(junk) == junk + Window([])
  {
  }

  /** Decoding inverts encoding, whatever the uninitialised cells hold. */
  lemma DecodeInvertsEncode(src: seq<byte>, tokens: seq<Token>, junk: seq<byte>)
    requires Defined(SPACES, tokens) && Encodes(src, tokens)
    requires |junk| == N_POS - SPACES
    ensures DecodeAll(src, junk) == (0, Meaning(tokens))
  {
    hide DecodeAll, Expand, Window, Encodes, Defined;
    WindowSplits(junk);
    ExpandPrefix(junk, Window([]), tokens);
    DropPrefix(junk, Expand(Window([]), tokens), SPACES);
    DecodeEncoded(src, tokens, junk);
  }

  // ----- what the decoder selects

  /** The position of the code in the interval, scaled to the total, falls into slot s. */
  ghost predicate Selects(src: seq<byte>, c: Coder, cum: seq<int>, s: nat)
    requires 1 <= s < |cum| && c.low < c.high
  {
    cum[s] <= ((Value(src, c) - c.low + 1) * cum[0] - 1) / (c.high - c.low) < cum[s - 1]
  }

  lemma SlotSelected(src: seq<byte>, c: Coder, cum: seq<int>)
    requires Ready(c) && ValidCum(cum) && Inside(src, c)
    ensures 1 <= SlotOf(src, c, cum) < |cum| && Selects(src, c, cum, SlotOf(src, c, cum))
  {
    QuotientFindsSlot(src, c, cum, SlotOf(src, c, cum));
  }

  lemma Ordinary(m: Model, c: Coder)
    requires Good(m, c)
    ensures c.low < c.high && |Cum(m.freq)| == |m.symChar| == N_CHAR + 1
  {
  }

  /** Any token: its character holds the rank that the code selects in the cumulative counts;
      characters below 256 are bytes and the others lengths from 3; and the distance is the one
      that the code then selects in the cumulative weights. */
  lemma TokenSelected(src: seq<byte>, m: Model, c: Coder)
    requires Good(m, c) && Inside(src, c)
    ensures var t, s := TokenOf(src, m, c), SymOf(src, m, c);
            var c1 := CodeChar(m, c, s);
            && c.low < c.high && c1.low < c1.high && |Cum(m.freq)| == |m.symChar| == N_CHAR + 1
            && 1 <= s <= N_CHAR && Selects(src, c, Cum(m.freq), s)
            && (m.symChar[s] < 256 ==> t == Literal(m.symChar[s]))
            && (m.symChar[s] >= 256 ==> t.Match? && t.len == 3 + m.symChar[s] - 256)
            && (t.Match? ==> 1 <= t.dist <= N_POS && Selects(src, c1, PosCum(), t.dist))
  {
    hide Inside, Cum, PosCum, Value, Inverse, Ordered, Suffix, Selects, CodeSlot;
    Ordinary(m, c);
    var s := SymOf(src, m, c);
    CumValid(m);
    SlotSelected(src, c, Cum(m.freq));
    PosCumValid();
    SlotSelected(src, CodeChar(m, c, s), PosCum());
  }

  lemma SplitBits(b: byte)
    ensures b == 2 * (b / 2) + b / 1 % 2 && b / 2 == 2 * (b / 4) + b / 2 % 2
    ensures b / 4 == 2 * (b / 8) + b / 4 % 2 && b / 8 == 2 * (b / 16) + b / 8 % 2
    ensures b / 16 == 2 * (b / 32) + b / 16 % 2 && b / 32 == 2 * (b / 64) + b / 32 % 2
    ensures b / 64 == 2 * (b / 128) + b / 64 % 2 && b / 128 == b / 128 % 2
  {
    SplitBit(b, 1);
    SplitBit(b, 2);
    SplitBit(b, 4);
    SplitBit(b, 8);
    SplitBit(b, 16);
    SplitBit(b, 32);
    SplitBit(b, 64);
    DivBelow(b, 128, 2);
  }

  lemma SplitBit(x: nat, m: nat)
    requires m > 0
    ensures x / m == 2 * (x / (2 * m)) + x / m % 2
  {
    var q := x / m / 2;
    DivBelow(x, m, 2 * q);
    DivBelow(x, m, 2 * q + 2);
    DivUnique(x, 2 * m, q);
  }

  lemma BitInByte(src: seq<byte>, q: nat, j: nat)
    requires j < 8
    ensures Bit(src, 8 * q + j) == ByteAt(src, 4 + q) / Mask(j) % 2
  {
    DivAdd(q, j, 8);
  }

  /** A byte is made of its code bits, most significant first. */
  lemma BitsOfByte(src: seq<byte>, q: nat)
    ensures ByteAt(src, 4 + q) ==
            ByteOf(Bit(src, 8 * q), Bit(src, 8 * q + 1), Bit(src, 8 * q + 2), Bit(src, 8 * q + 3),
                   Bit(src, 8 * q + 4), Bit(src, 8 * q + 5), Bit(src, 8 * q + 6), Bit(src, 8 * q + 7))
  {
    hide Bit;
    SplitBits(ByteAt(src, 4 + q));
    BitInByte(src, q, 0);
    BitInByte(src, q, 1);
    BitInByte(src, q, 2);
    BitInByte(src, q, 3);
    BitInByte(src, q, 4);
    BitInByte(src, q, 5);
    BitInByte(src, q, 6);
    BitInByte(src, q, 7);
  }

  lemma PrefixStep(src: seq<byte>, k: nat)
    ensures Prefix(src, k + 1) == 2 * Prefix(src, k) + Bit(src, k)
  {
  }

  /** Eight more code bits are the next byte. */
  lemma PrefixByte(src: seq<byte>, q: nat)
    ensures Prefix(src, 8 * q + 8) == 256 * Prefix(src, 8 * q) + ByteAt(src, 4 + q)
  {
    hide Bit, Prefix, ByteAt;
    BitsOfByte(src, q);
    PrefixStep(src, 8 * q);
    PrefixStep(src, 8 * q + 1);
    PrefixStep(src, 8 * q + 2);
    PrefixStep(src, 8 * q + 3);
    PrefixStep(src, 8 * q + 4);
    PrefixStep(src, 8 * q + 5);
    PrefixStep(src, 8 * q + 6);
    PrefixStep(src, 8 * q + 7);
  }

  /** The 17 bits the decoder starts with. */
  lemma First17(src: seq<byte>)
    ensures Prefix(src, 17) == 512 * ByteAt(src, 4) + 2 * ByteAt(src, 5) + ByteAt(src, 6) / 128
  {
    hide Bit, Prefix, ByteAt;
    PrefixByte(src, 0);
    PrefixByte(src, 1);
    PrefixStep(src, 16);
    BitInByte(src, 2, 0);
    assert Prefix(src, 0) == 0 by { NoBits(src); }
  }

  lemma NoBits(src: seq<byte>)
    ensures Prefix(src, 0) == 0
  {
  }

  lemma StartIs(src: seq<byte>)
    ensures Start().low == 0 && Start().high == 0x2_0000 && Value(src, Start()) == Prefix(src, 17)
  {
    hide Prefix;
  }

  /** The first token of any source, from the bytes behind the length: all characters start with
      equal counts, the highest character lowest in the interval. */
  lemma FirstToken(src: seq<byte>)
    requires |src| >= 4 && Be32(src, 0) > 0
    ensures var v := 512 * ByteAt(src, 4) + 2 * ByteAt(src, 5) + ByteAt(src, 6) / 128;
            var ch := 313 - ((v + 1) * 314 - 1) / 0x2_0000;
            && 0 <= ch < N_CHAR && TokensIn(src) != []
            && (ch < 256 ==> TokensIn(src)[0] == Literal(ch))
            && (ch >= 256 ==> TokensIn(src)[0].Match? && TokensIn(src)[0].len == 3 + ch - 256)
            && (Be32(src, 0) <= Size(TokensIn(src)[0]) ==> |TokensIn(src)| == 1)
  {
    hide Initial, Start, Cum, PosCum, Value, Prefix, ByteAt, TokenOf, SymOf, Inside, Be32, Good, Ready, Valid, Tokens;
    var m, c := Initial(), Start();
    StartGood(src);
    TokenSelected(src, m, c);
    First17(src);
    StartIs(src);
    TokensStep(src, m, c, Be32(src, 0));
    InitialRank(SymOf(src, m, c));
  }

  /** Set code bits select character 0: one byte is announced, and one zero byte comes out. */
  lemma FirstByteExample(junk: seq<byte>)
    requires |junk| == N_POS - SPACES
    ensures DecodeAll([0, 0, 0, 1, 0xFF, 0xFF, 0xFF], junk) == (0, [0])
  {
    hide TokensIn, DecodeAll, Window, Encodes;
    var src: seq<byte> := [0, 0, 0, 1, 0xFF, 0xFF, 0xFF];
    FirstToken(src);
    var ts := TokensIn(src);
    assert ts == [Literal(0)] && ts[1..] == [];
    EverySource(src, junk);
    EncodesIff(src, ts);
    assert TotalSize(ts) == 1 + TotalSize(ts[1..]) == 1;
    DefinedMore(0, |Window(junk)|, ts);
    var h := Extend(Window(junk), ts[0]);
    assert Expand(Window(junk), ts) == Expand(h, ts[1..]) == Window(junk) + [0];
    assert (Window(junk) + [0])[N_POS..N_POS + 1] == [0];
    assert Be32(src, 0) == 1;
  }

  // ----- every source

  /** The tokens the decoder takes from a code until they stand for at least left bytes. */
  ghost function Tokens(src: seq<byte>, m: Model, c: Coder, left: nat): seq<Token>
    requires Good(m, c) && Inside(src, c)
    decreases left
  {
    if left == 0 then []
    else
      var t := TokenOf(src, m, c);
      if left <= Size(t) then [t]
      else [t] + Tokens(src, ModelAfter(m, t), CodeToken(m, c, t), left - Size(t))
  }

  /** The tokens of a source; the last one may run past the announced length. */
  ghost function TokensIn(src: seq<byte>): seq<Token>
    requires |src| >= 4
  {
    StartGood(src);
    Tokens(src, Initial(), Start(), Be32(src, 0))
  }

  /** A list stops at left bytes: with its last token, and not before. */
  ghost predicate StopsAt(tokens: seq<Token>, left: nat) {
    && left <= TotalSize(tokens)
    && if tokens == [] then left == 0 else TotalSize(tokens) - Size(tokens[|tokens| - 1]) < left
  }

  lemma TotalSizeCons(t: Token, rest: seq<Token>)
    ensures TotalSize([t] + rest) == Size(t) + TotalSize(rest)
  {
    assert ([t] + rest)[1..] == rest;
  }

  lemma {:induction false} LastFits(tokens: seq<Token>)
    requires ValidTokens(tokens) && tokens != []
    ensures TotalSize(tokens) >= Size(tokens[|tokens| - 1]) >= 1
    decreases |tokens|
  {
    assert tokens[0] in tokens;
    if |tokens| > 1 {
      LastFits(tokens[1..]);
    } else {
      assert TotalSize(tokens[1..]) == 0;
    }
  }

  /** The tokens taken are valid, stop at the length asked for, and code the source. */
  lemma {:induction false} TokensTaken(src: seq<byte>, m: Model, c: Coder, left: nat)
    requires Good(m, c) && Inside(src, c)
    ensures var ts := Tokens(src, m, c, left);
      ValidTokens(ts) && StopsAt(ts, left) && Inside(src, CodeTokens(m, c, ts))
    decreases left
  {
    hide Inside, CodeToken, ModelAfter, Valid, Ready, TokenOf;
    if left > 0 {
      var t := TokenOf(src, m, c);
      var m1, c1 := ModelAfter(m, t), CodeToken(m, c, t);
      var rest := if left <= Size(t) then [] else Tokens(src, m1, c1, left - Size(t));
      if left > Size(t) {
        TokensTaken(src, m1, c1, left - Size(t));
      }
      TotalSizeCons(t, rest);
      CodeTokensCons(m, c, t, rest);
      assert Tokens(src, m, c, left) == [t] + rest;
    }
  }

  lemma CodeTokensCons(m: Model, c: Coder, t: Token, rest: seq<Token>)
    requires Good(m, c) && ValidToken(t) && ValidTokens(rest)
    ensures ValidTokens([t] + rest)
    ensures CodeTokens(m, c, [t] + rest) == CodeTokens(ModelAfter(m, t), CodeToken(m, c, t), rest)
  {
    assert ([t] + rest)[1..] == rest;
  }

  /** They are the only such tokens. */
  lemma {:induction false} TokensUnique(src: seq<byte>, m: Model, c: Coder, left: nat, tokens: seq<Token>)
    requires Good(m, c) && ValidTokens(tokens) && StopsAt(tokens, left) && Inside(src, CodeTokens(m, c, tokens))
    ensures Inside(src, c) && Tokens(src, m, c, left) == tokens
    decreases |tokens|
  {
    hide Inside, CodeToken, ModelAfter, Valid, Ready, TokenOf;
    TokensInside(src, m, c, tokens);
    if tokens != [] {
      var t, rest := tokens[0], tokens[1..];
      assert t in tokens;
      TokensInside(src, ModelAfter(m, t), CodeToken(m, c, t), rest);
      TokenInside(src, m, c, t);
      if rest == [] {
        assert tokens == [t] && TotalSize(rest) == 0;
      } else {
        assert rest[|rest| - 1] == tokens[|tokens| - 1];
        LastFits(rest);
        TokensUnique(src, ModelAfter(m, t), CodeToken(m, c, t), left - Size(t), rest);
        assert tokens == [t] + rest;
      }
    }
  }

  /** A source encodes at most one list: the tokens in it, provided they end at the announced
      length. */
  lemma EncodesIff(src: seq<byte>, tokens: seq<Token>)
    requires |src| >= 4
    ensures Encodes(src, tokens) <==> tokens == TokensIn(src) && TotalSize(tokens) == Be32(src, 0)
  {
    hide Initial, Start, CodeTokens, Inside, Good, Tokens;
    StartGood(src);
    TokensTaken(src, Initial(), Start(), Be32(src, 0));
    if Encodes(src, tokens) {
      if tokens != [] { LastFits(tokens); }
      TokensUnique(src, Initial(), Start(), Be32(src, 0), tokens);
    }
  }

  /** From any state the decoder writes the expansion of the tokens it takes, cut off at the
      length; it fails exactly if they run past it. */
  lemma {:induction false} DecodeExpands(src: seq<byte>, m: Model, c: Coder, hist: seq<byte>, n: nat)
    requires Good(m, c) && Inside(src, c) && N_POS <= |hist| <= n
    ensures var ts := Tokens(src, m, c, n - |hist|);
      && Defined(|hist|, ts) && n <= |Expand(hist, ts)|
      && Decode(src, m, c, hist, n) == (if |Expand(hist, ts)| == n then 0 else -1, Expand(hist, ts)[..n])
    decreases n - |hist|
  {
    hide Inside, CodeToken, ModelAfter, TokenOf, Valid, Ready, Decode, Tokens, Extend;
    if |hist| == n {
      DecodeNothing(src, m, c, hist);
      TokensNone(src, m, c);
      assert Expand(hist, []) == hist && hist[..n] == hist;
    } else {
      var t := TokenOf(src, m, c);
      var hist1 := Extend(hist, t);
      DecodeStep(src, m, c, hist, n);
      TokensStep(src, m, c, n - |hist|);
      if |hist1| < n {
        DecodeExpands(src, ModelAfter(m, t), CodeToken(m, c, t), hist1, n);
        ExpandCons(hist, t, Tokens(src, ModelAfter(m, t), CodeToken(m, c, t), n - |hist1|));
      } else {
        ExpandCons(hist, t, []);
        assert [t] + [] == [t] && Expand(hist, [t]) == hist1;
        if |hist1| == n {
          DecodeNothing(src, ModelAfter(m, t), CodeToken(m, c, t), hist1);
          assert hist1[..n] == hist1;
        }
      }
    }
  }

  lemma TokensNone(src: seq<byte>, m: Model, c: Coder)
    requires Good(m, c) && Inside(src, c)
    ensures Tokens(src, m, c, 0) == []
  {
  }

  lemma TokensStep(src: seq<byte>, m: Model, c: Coder, left: nat)
    requires Good(m, c) && Inside(src, c) && left > 0
    ensures var t := TokenOf(src, m, c);
      Tokens(src, m, c, left) == if left <= Size(t) then [t]
                                 else [t] + Tokens(src, ModelAfter(m, t), CodeToken(m, c, t), left - Size(t))
  {
    hide Inside, CodeToken, ModelAfter, TokenOf, Valid, Ready;
  }

  lemma DecodeStep(src: seq<byte>, m: Model, c: Coder, hist: seq<byte>, n: nat)
    requires Good(m, c) && Inside(src, c) && N_POS <= |hist| < n
    ensures var t := TokenOf(src, m, c);
      Decode(src, m, c, hist, n) == if |Extend(hist, t)| > n then (-1, Extend(hist, t)[..n])
                                    else Decode(src, ModelAfter(m, t), CodeToken(m, c, t), Extend(hist, t), n)
  {
    hide Inside, CodeToken, ModelAfter, TokenOf, Valid, Ready;
  }

  lemma ExpandCons(hist: seq<byte>, t: Token, rest: seq<Token>)
    requires Reaches(|hist|, t) && Defined(|Extend(hist, t)|, rest)
    ensures Defined(|hist|, [t] + rest) && Expand(hist, [t] + rest) == Expand(Extend(hist, t), rest)
  {
    assert ([t] + rest)[1..] == rest;
  }

  /** Decompressing any source of at least 4 bytes: the output is the expansion of its tokens
      behind the initial window, cut off at the announced length, and the return code is 0
      exactly if the source encodes its tokens. */
  lemma EverySource(src: seq<byte>, junk: seq<byte>)
    requires |src| >= 4 && |junk| == N_POS - SPACES
    ensures var ts, n := TokensIn(src), Be32(src, 0);
      && ValidTokens(ts) && Defined(N_POS, ts) && n <= TotalSize(ts)
      && |Expand(Window(junk), ts)| == N_POS + TotalSize(ts)
      && DecodeAll(src, junk).1 == Expand(Window(junk), ts)[N_POS..N_POS + n]
      && (DecodeAll(src, junk).0 == 0 <==> Encodes(src, ts))
  {
    hide TokensIn, DecodeAll, Expand, Window, Defined, Encodes, Be32;
    TokensInStop(src);
    DecodeAllExpands(src, junk);
    ExpandSize(Window(junk), TokensIn(src));
    EncodesIff(src, TokensIn(src));
  }

  lemma TokensInStop(src: seq<byte>)
    requires |src| >= 4
    ensures ValidTokens(TokensIn(src)) && StopsAt(TokensIn(src), Be32(src, 0))
  {
    hide Initial, Start, Inside, Good, Tokens, StopsAt, Be32;
    StartGood(src);
    TokensTaken(src, Initial(), Start(), Be32(src, 0));
  }

  lemma DecodeAllExpands(src: seq<byte>, junk: seq<byte>)
    requires |src| >= 4 && |junk| == N_POS - SPACES
    ensures Defined(|Window(junk)|, TokensIn(src))
    ensures var n, e := Be32(src, 0), Expand(Window(junk), TokensIn(src));
      && N_POS + n <= |e|
      && DecodeAll(src, junk) == (if |e| == N_POS + n then 0 else -1, e[N_POS..N_POS + n])
  {
    hide Initial, Start, Inside, Good, Tokens, Decode, Expand, Window, Defined, Be32;
    StartGood(src);
    var n := Be32(src, 0);
    assert N_POS + n - |Window(junk)| == n;
    DecodeExpands(src, Initial(), Start(), Window(junk), N_POS + n);
    TakeDrop(Expand(Window(junk), TokensIn(src)), N_POS, N_POS + n);
  }

  lemma TakeDrop(e: seq<byte>, a: nat, b: nat)
    requires a <= b <= |e|
    ensures e[..b][a..] == e[a..b]
  {
  }

  /** Where a list leaves defined history, two memories that differ everywhere give different
      bytes, at or before the start of the last token. */
  lemma {:induction false} UndefinedShows(j1: seq<byte>, j2: seq<byte>, hist: seq<byte>,
          tokens: seq<Token>) returns (k: nat)
    requires |j1| == |j2| == N_POS - SPACES && forall i :: 0 <= i < |j1| ==> j1[i] != j2[i]
    requires ValidTokens(tokens) && SPACES <= |hist| && !Defined(|hist|, tokens)
    ensures Defined(|j1 + hist|, tokens) && Defined(|j2 + hist|, tokens) && tokens != []
    ensures |j1 + hist| <= k <= |j1 + hist| + TotalSize(tokens) - Size(tokens[|tokens| - 1])
    ensures k < |Expand(j1 + hist, tokens)| == |Expand(j2 + hist, tokens)|
    ensures Expand(j1 + hist, tokens)[k] != Expand(j2 + hist, tokens)[k]
    decreases |tokens|
  {
    hide Extend, TotalSize;
    WindowDefines(|j1 + hist|, tokens);
    ExpandSize(j1 + hist, tokens);
    ExpandSize(j2 + hist, tokens);
    LastFits(tokens);
    var t, rest := tokens[0], tokens[1..];
    assert tokens == [t] + rest;
    TotalSizeCons(t, rest);
    if Reaches(|hist|, t) {
      ExtendPrefix(j1, hist, t);
      ExtendPrefix(j2, hist, t);
      k := UndefinedShows(j1, j2, Extend(hist, t), rest);
    } else {
      k := |j1 + hist|;
      FirstCopied(j1, hist, t);
      FirstCopied(j2, hist, t);
      FirstStays(j1 + hist, tokens);
      FirstStays(j2 + hist, tokens);
    }
  }

  lemma FirstStays(hist: seq<byte>, tokens: seq<Token>)
    requires tokens != [] && Defined(|hist|, tokens)
    ensures Extend(hist, tokens[0]) <= Expand(hist, tokens) && |hist| < |Extend(hist, tokens[0])|
  {
  }

  lemma FirstCopied(junk: seq<byte>, hist: seq<byte>, t: Token)
    requires |junk| == N_POS - SPACES && SPACES <= |hist|
    requires ValidToken(t) && t.Match? && t.dist > |hist|
    ensures Reaches(|junk + hist|, t)
    ensures Extend(junk + hist, t)[|junk + hist|] == junk[|junk| + |hist| - t.dist]
  {
    var h := junk + hist;
    assert h + [h[|h| - t.dist]] <= CopyMatch(h, t.dist, t.len);
  }

  /** Exactly the sources whose matches stay inside defined history decompress independently of
      the uninitialised memory, whether they end at the announced length or run past it. */
  lemma OutputDeterminedIffDefined(src: seq<byte>)
    requires |src| >= 4
    ensures Defined(SPACES, TokensIn(src)) <==>
            forall j1: seq<byte>, j2: seq<byte> | |j1| == N_POS - SPACES == |j2| ::
              DecodeAll(src, j1) == DecodeAll(src, j2)
  {
    hide DecodeAll, Expand, Window, Encodes, Defined, TokensIn;
    if Defined(SPACES, TokensIn(src)) {
      forall j1: seq<byte>, j2: seq<byte> | |j1| == N_POS - SPACES == |j2|
        ensures DecodeAll(src, j1) == DecodeAll(src, j2)
      {
        SameOutput(src, j1, j2);
      }
    } else {
      var j1, j2: seq<byte> := seq(N_POS - SPACES, _ => 0), seq(N_POS - SPACES, _ => 1);
      JunkShows(src, j1, j2);
    }
  }

  lemma SameOutput(src: seq<byte>, j1: seq<byte>, j2: seq<byte>)
    requires |src| >= 4 && Defined(SPACES, TokensIn(src)) && |j1| == N_POS - SPACES == |j2|
    ensures DecodeAll(src, j1) == DecodeAll(src, j2)
  {
    hide Expand, Window, Encodes, Defined, TokensIn, DecodeAll;
    OutputIs(src, j1);
    OutputIs(src, j2);
  }

  lemma OutputIs(src: seq<byte>, junk: seq<byte>)
    requires |src| >= 4 && Defined(SPACES, TokensIn(src)) && |junk| == N_POS - SPACES
    ensures |Expand(Window([]), TokensIn(src))| >= SPACES + Be32(src, 0) >= SPACES
    ensures DecodeAll(src, junk) == (if Encodes(src, TokensIn(src)) then 0 else -1,
                                     Expand(Window([]), TokensIn(src))[SPACES..SPACES + Be32(src, 0)])
  {
    hide Expand, Window, Encodes, Defined, TokensIn, DecodeAll;
    var ts, n := TokensIn(src), Be32(src, 0);
    WindowSplits(junk);
    ExpandPrefix(junk, Window([]), ts);
    EverySource(src, junk);
    ReturnCodes(src, junk);
    CutPrefix(junk, Expand(Window([]), ts), SPACES, n);
  }

  lemma CutPrefix(junk: seq<byte>, x: seq<byte>, k: nat, n: nat)
    requires |junk| + k + n <= |junk + x|
    ensures (junk + x)[|junk| + k..|junk| + k + n] == x[k..k + n]
  {
  }

  lemma ReturnCodes(src: seq<byte>, junk: seq<byte>)
    requires |src| >= 4 && |junk| == N_POS - SPACES
    ensures DecodeAll(src, junk).0 == 0 || DecodeAll(src, junk).0 == -1
    ensures Be32(src, 0) >= 0
  {
    hide TokensIn, DecodeAll, Expand, Window, Defined, Be32;
    DecodeAllExpands(src, junk);
  }

  lemma JunkShows(src: seq<byte>, j1: seq<byte>, j2: seq<byte>)
    requires |src| >= 4 && !Defined(SPACES, TokensIn(src))
    requires |j1| == |j2| == N_POS - SPACES && forall i :: 0 <= i < |j1| ==> j1[i] != j2[i]
    ensures DecodeAll(src, j1) != DecodeAll(src, j2)
  {
    hide DecodeAll, Expand, Window, Encodes, Defined, TokensIn, Be32;
    var ts, n := TokensIn(src), Be32(src, 0);
    TokensInStop(src);
    EverySource(src, j1);
    EverySource(src, j2);
    WindowSplits(j1);
    WindowSplits(j2);
    var k := UndefinedShows(j1, j2, Window([]), ts);
    assert Expand(Window(j1), ts)[N_POS..N_POS + n][k - N_POS] != Expand(Window(j2), ts)[N_POS..N_POS + n][k - N_POS];
  }

  /** A match at the very start copies spaces, up to the distance 4036. */
  lemma SpacesAtStart(len: nat, dist: nat)
    requires MIN_MATCH <= len <= MAX_MATCH && 1 <= dist <= SPACES
    ensures Defined(SPACES, [Match(len, dist)])
    ensures Meaning([Match(len, dist)]) == seq(len, _ => 0x20)
  {
    var tokens := [Match(len, dist)];
    var w := Window([]);
    assert tokens[1..] == [] && Defined(SPACES + len, tokens[1..]);
    var r := CopyMatch(w, dist, len);
    assert Expand(w, tokens) == r;
    AllSpaces(w, dist, len);
  }

  lemma {:induction false} AllSpaces(hist: seq<byte>, dist: int, len: nat)
    requires 1 <= dist <= |hist| && forall k :: 0 <= k < |hist| ==> hist[k] == 0x20
    ensures forall k :: 0 <= k < |hist| + len ==> CopyMatch(hist, dist, len)[k] == 0x20
    decreases len
  {
    if len > 0 { AllSpaces(hist + [hist[|hist| - dist]], dist, len - 1); }
  }

  // ----- an encoder

  ghost predicate Bits(bits: seq<int>) {
    forall i :: 0 <= i < |bits| ==> 0 <= bits[i] <= 1
  }

  /** The low k bits of v, most significant first. */
  ghost function BitsOf(v: nat, k: nat): (r: seq<int>)
    ensures |r| == k && Bits(r)
  {
    if k == 0 then [] else BitsOf(v / 2, k - 1) + [v % 2]
  }

  ghost function BitOr0(bits: seq<int>, i: nat): (b: int)
    requires Bits(bits)
    ensures 0 <= b <= 1
  {
    if i < |bits| then bits[i] else 0
  }

  function ByteOf(b0: int, b1: int, b2: int, b3: int, b4: int, b5: int, b6: int, b7: int): int {
    128 * b0 + 64 * b1 + 32 * b2 + 16 * b3 + 8 * b4 + 4 * b5 + 2 * b6 + b7
  }

  /** Byte q of a bit stream padded with zero bits. */
  ghost function PackedByte(bits: seq<int>, q: nat): (r: byte)
    requires Bits(bits)
  {
    ByteOf(BitOr0(bits, 8 * q), BitOr0(bits, 8 * q + 1), BitOr0(bits, 8 * q + 2), BitOr0(bits, 8 * q + 3),
           BitOr0(bits, 8 * q + 4), BitOr0(bits, 8 * q + 5), BitOr0(bits, 8 * q + 6), BitOr0(bits, 8 * q + 7))
  }

  ghost function Pack(bits: seq<int>): (r: seq<byte>)
    requires Bits(bits)
  {
    seq((|bits| + 7) / 8, q requires 0 <= q => PackedByte(bits, q))
  }

  lemma ByteBits(b0: int, b1: int, b2: int, b3: int, b4: int, b5: int, b6: int, b7: int)
    requires 0 <= b0 <= 1 && 0 <= b1 <= 1 && 0 <= b2 <= 1 && 0 <= b3 <= 1
    requires 0 <= b4 <= 1 && 0 <= b5 <= 1 && 0 <= b6 <= 1 && 0 <= b7 <= 1
    ensures var x := ByteOf(b0, b1, b2, b3, b4, b5, b6, b7);
            && x / 128 % 2 == b0 && x / 64 % 2 == b1 && x / 32 % 2 == b2 && x / 16 % 2 == b3
            && x / 8 % 2 == b4 && x / 4 % 2 == b5 && x / 2 % 2 == b6 && x / 1 % 2 == b7
  {
    var x := ByteOf(b0, b1, b2, b3, b4, b5, b6, b7);
    assert x / 2 == 64 * b0 + 32 * b1 + 16 * b2 + 8 * b3 + 4 * b4 + 2 * b5 + b6;
    assert x / 4 == 32 * b0 + 16 * b1 + 8 * b2 + 4 * b3 + 2 * b4 + b5;
    assert x / 8 == 16 * b0 + 8 * b1 + 4 * b2 + 2 * b3 + b4;
    assert x / 16 == 8 * b0 + 4 * b1 + 2 * b2 + b3;
    assert x / 32 == 4 * b0 + 2 * b1 + b2;
    assert x / 64 == 2 * b0 + b1;
    assert x / 128 == b0;
  }

  lemma PackedByteBit(bits: seq<int>, q: nat, j: nat)
    requires Bits(bits) && j < 8
    ensures PackedByte(bits, q) / Mask(j) % 2 == BitOr0(bits, 8 * q + j)
  {
    ByteBits(BitOr0(bits, 8 * q), BitOr0(bits, 8 * q + 1), BitOr0(bits, 8 * q + 2), BitOr0(bits, 8 * q + 3),
             BitOr0(bits, 8 * q + 4), BitOr0(bits, 8 * q + 5), BitOr0(bits, 8 * q + 6), BitOr0(bits, 8 * q + 7));
  }

  lemma PackedBit(bits: seq<int>, head: seq<byte>, i: nat)
    requires Bits(bits) && |head| == 4 && i < |bits|
    ensures Bit(head + Pack(bits), i) == bits[i]
  {
    var q := i / 8;
    assert (head + Pack(bits))[4 + q] == PackedByte(bits, q);
    PackedByteBit(bits, q, i % 8);
  }

  lemma {:induction false} PrefixOfBits(src: seq<byte>, v: nat, k: nat)
    requires v < Pow2(k)
    requires forall i :: 0 <= i < k ==> Bit(src, i) == BitsOf(v, k)[i]
    ensures Prefix(src, k) == v
  {
    if k > 0 {
      assert forall i :: 0 <= i < k - 1 ==> BitsOf(v, k)[i] == BitsOf(v / 2, k - 1)[i];
      PrefixOfBits(src, v / 2, k - 1);
    }
  }

  lemma {:induction false} CodeTokensFits(m: Model, c: Coder, tokens: seq<Token>)
    requires Good(m, c) && Fits(c) && forall t <- tokens :: ValidToken(t)
    ensures Fits(CodeTokens(m, c, tokens))
    decreases |tokens|
  {
    if tokens != [] {
      var t := tokens[0];
      var s := m.charSym[CharOf(t)];
      CumValid(m);
      SlotFits(c, Cum(m.freq), s);
      if t.Match? {
        PosCumValid();
        SlotFits(CodeChar(m, c, s), PosCum(), t.dist);
      }
      CodeTokensFits(ModelAfter(m, t), CodeToken(m, c, t), tokens[1..]);
    }
  }

  lemma SlotFits(c: Coder, cum: seq<int>, s: nat)
    requires Ready(c) && ValidCum(cum) && 1 <= s < |cum| && Fits(c)
    ensures Fits(CodeSlot(c, cum, s))
  {
    NarrowBounded(c, cum, s);
    RenormFits(Narrow(c, cum, s));
  }

  /** Encoder: the length, then the lower end of the final interval. */
  ghost function Encode(tokens: seq<Token>): seq<byte>
    requires ValidTokens(tokens) && 0 <= TotalSize(tokens) < 0x1_0000_0000
  {
    StartGood([]);
    var c := CodeTokens(Initial(), Start(), tokens);
    ToBe32(TotalSize(tokens)) + Pack(BitsOf(c.base + c.low, 17 + c.n))
  }

  /** Packing v into k bits behind a four-byte head makes v the integer of the first k code bits. */
  lemma PackedPrefix(head: seq<byte>, v: nat, k: nat)
    requires |head| == 4 && v < Pow2(k)
    ensures Prefix(head + Pack(BitsOf(v, k)), k) == v
  {
    var bits := BitsOf(v, k);
    forall i | 0 <= i < k
      ensures Bit(head + Pack(bits), i) == bits[i]
    {
      PackedBit(bits, head, i);
    }
    PrefixOfBits(head + Pack(bits), v, k);
  }

  /** The packed lower end of an interval is a code inside the interval. */
  lemma LowEndInside(head: seq<byte>, c: Coder)
    requires |head| == 4 && Bounded(c) && Fits(c)
    ensures Inside(head + Pack(BitsOf(c.base + c.low, 17 + c.n)), c)
  {
    hide Prefix, BitsOf, Pack, Pow2;
    PackedPrefix(head, c.base + c.low, 17 + c.n);
  }

  lemma InitialFits(tokens: seq<Token>)
    requires Good(Initial(), Start()) && forall t <- tokens :: ValidToken(t)
    ensures Fits(CodeTokens(Initial(), Start(), tokens))
  {
    assert Fits(Start()) by { Pow2Of17(); }
    hide Initial, Start;
    CodeTokensFits(Initial(), Start(), tokens);
  }

  lemma EncodedInside(head: seq<byte>, m: Model, c: Coder, tokens: seq<Token>)
    requires |head| == 4 && Good(m, c) && forall t <- tokens :: ValidToken(t)
    requires Fits(CodeTokens(m, c, tokens))
    ensures var e := CodeTokens(m, c, tokens);
            Inside(head + Pack(BitsOf(e.base + e.low, 17 + e.n)), e)
  {
    hide CodeTokens, Inside, Fits, Pack, BitsOf, Valid, Pow2;
    LowEndInside(head, CodeTokens(m, c, tokens));
  }

  lemma EncodeEncodes(tokens: seq<Token>)
    requires ValidTokens(tokens) && 0 <= TotalSize(tokens) < 0x1_0000_0000
    ensures Encodes(Encode(tokens), tokens)
  {
    hide Initial, Start, CodeTokens, Inside, Good, Pack, BitsOf, ToBe32;
    StartGood([]);
    InitialFits(tokens);
    var head := ToBe32(TotalSize(tokens));
    EncodedInside(head, Initial(), Start(), tokens);
    Be32RoundTrip(TotalSize(tokens));
  }

  /** Round trip: what the encoder writes for a token list decompresses to its meaning. */
  lemma RoundTrip(tokens: seq<Token>, junk: seq<byte>)
    requires Defined(SPACES, tokens) && |Meaning(tokens)| < 0x1_0000_0000
    requires |junk| == N_POS - SPACES
    ensures ValidTokens(tokens) && |Meaning(tokens)| == TotalSize(tokens)
    ensures |Encode(tokens)| >= 4
    ensures DecodeAll(Encode(tokens), junk) == (0, Meaning(tokens))
  {
    hide Encodes, DecodeAll, Expand;
    DefinedValid(SPACES, tokens);
    ExpandSize(Window([]), tokens);
    EncodeEncodes(tokens);
    DecodeInvertsEncode(Encode(tokens), tokens, junk);
  }

  /** A match of length 3 and distance 4096 at the very start reads uninitialised cells: the
      encoder accepts it, and the output depends on what they hold. */
  lemma UndefinedExample()
    ensures var tokens := [Match(3, N_POS)];
      && ValidTokens(tokens) && TotalSize(tokens) == 3 && !Defined(SPACES, tokens)
      && TokensIn(Encode(tokens)) == tokens
      && exists j1: seq<byte>, j2: seq<byte> :: |j1| == N_POS - SPACES == |j2|
           && DecodeAll(Encode(tokens), j1) != DecodeAll(Encode(tokens), j2)
  {
    hide Encodes, DecodeAll, TokensIn, Encode;
    var tokens := [Match(3, N_POS)];
    assert tokens[1..] == [] && TotalSize(tokens[1..]) == 0;
    EncodeEncodes(tokens);
    EncodeLength(tokens);
    EncodesIff(Encode(tokens), tokens);
    OutputDeterminedIffDefined(Encode(tokens));
  }

  lemma EncodeLength(tokens: seq<Token>)
    requires ValidTokens(tokens) && 0 <= TotalSize(tokens) < 0x1_0000_0000
    ensures |Encode(tokens)| >= 4
  {
  }

  /** A match that runs past the announced length: the code of the list behind a shorter length. */
  lemma OverrunExample(junk: seq<byte>)
    requires |junk| == N_POS - SPACES
    ensures var tokens, src := [Match(3, 1)], ToBe32(1) + Encode([Match(3, 1)])[4..];
      TokensIn(src) == tokens && DecodeAll(src, junk).0 == -1
  {
    hide Initial, Start, CodeTokens, Inside, Good, Pack, BitsOf, ToBe32, Tokens, DecodeAll, Expand, Window;
    var tokens := [Match(3, 1)];
    assert tokens[1..] == [] && TotalSize(tokens[1..]) == 0;
    StartGood([]);
    InitialFits(tokens);
    EncodedInside(ToBe32(1), Initial(), Start(), tokens);
    Be32RoundTrip(1);
    var src := ToBe32(1) + Encode(tokens)[4..];
    StartGood(src);
    TokensUnique(src, Initial(), Start(), 1, tokens);
    EncodesIff(src, tokens);
    EverySource(src, junk);
    ReturnCodes(src, junk);
  }
}
