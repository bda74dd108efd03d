/** SHA-1 as FIPS 180-1 defines it: padding (section 4), functions and constants (sections 5
    and 6), and the computation with an 80-word schedule (section 7). */
module Sha1Spec {

  type word = bv32

  datatype State = State(a: word, b: word, c: word, d: word, e: word)

  const INITIAL := State(0x67452301, 0xEFCDAB89, 0x98BADCFE, 0x10325476, 0xC3D2E1F0)

  function Rot(x: word, n: nat): word
    requires 0 < n < 32
  {
    (x << n) | (x >> (32 - n))
  }

  function F(t: nat, b: word, c: word, d: word): word {
    if t < 20 then (b & c) | ((!b) & d)
    else if t < 40 then b ^ c ^ d
    else if t < 60 then (b & c) | (b & d) | (c & d)
    else b ^ c ^ d
  }

  function K(t: nat): word {
    if t < 20 then 0x5A827999
    else if t < 40 then 0x6ED9EBA1
    else if t < 60 then 0x8F1BBCDC
    else 0xCA62C1D6
  }

  function NextWord(ws: seq<word>): word
    requires |ws| >= 16
  {
    var t := |ws|;
    Rot(ws[t - 3] ^ ws[t - 8] ^ ws[t - 14] ^ ws[t - 16], 1)
  }

  /** The message schedule, extended to 80 words. */
  function Schedule(ws: seq<word>): (r: seq<word>)
    requires 16 <= |ws| <= 80
    ensures |r| == 80 && ws <= r
    ensures forall t :: |ws| <= t < 80 ==> r[t] == NextWord(r[..t])
    decreases 80 - |ws|
  {
    if |ws| == 80 then ws
    else
      var ws1 := ws + [NextWord(ws)];
      var r := Schedule(ws1);
      assert r[..|ws1|] == ws1 && r[..|ws|] == ws;
      r
  }

  function Temp(r: word, f: word, e: word, w: word, k: word): word { r + f + e + w + k }

  function Round(s: State, t: nat, w: word): State {
    State(Temp(Rot(s.a, 5), F(t, s.b, s.c, s.d), s.e, w, K(t)), s.a, Rot(s.b, 30), s.c, s.d)
  }

  /** Rounds t to 79. */
  function Rounds(s: State, ws: seq<word>, t: nat): State
    requires |ws| == 80 && t <= 80
    decreases 80 - t
  {
    if t == 80 then s else Rounds(Round(s, t, ws[t]), ws, t + 1)
  }

  /** Addition modulo 2^32. */
  function Plus(x: word, y: word): word { x + y }

  function Add(s: State, r: State): State {
    State(Plus(s.a, r.a), Plus(s.b, r.b), Plus(s.c, r.c), Plus(s.d, r.d), Plus(s.e, r.e))
  }

  function WordAt(block: seq<bv8>, i: nat): word
    requires i + 4 <= |block|
  {
    (block[i] as bv32 << 24) | (block[i + 1] as bv32 << 16) | (block[i + 2] as bv32 << 8) | (block[i + 3] as bv32)
  }

  function BlockWords(block: seq<bv8>): (r: seq<word>)
    requires |block| == 64
    ensures |r| == 16
  {
    seq(16, k requires 0 <= k < 16 => WordAt(block, 4 * k))
  }

  function Compress(h: State, block: seq<bv8>): State
    requires |block| == 64
  {
    Add(h, Rounds(h, Schedule(BlockWords(block)), 0))
  }

  lemma DropBlock(n: nat)
    requires n % 64 == 0
    ensures n > 0 ==> n >= 64 && (n - 64) % 64 == 0
  {
  }

  function Hash(h: State, bytes: seq<bv8>): State
    requires |bytes| % 64 == 0
    decreases |bytes|
  {
    DropBlock(|bytes|);
    if bytes == [] then h else Hash(Compress(h, bytes[..64]), bytes[64..])
  }

  // ----- padding and output

  function Zeros(n: nat): (r: seq<bv8>)
    ensures |r| == n
  {
    seq(n, _ => 0)
  }

  /** Eight bytes, most significant first. */
  function Be64(n: nat): (r: seq<bv8>)
    requires n < 0x1_0000_0000_0000_0000
    ensures |r| == 8
  {
    [(n / 0x100_0000_0000_0000) as bv8, (n / 0x1_0000_0000_0000 % 0x100) as bv8,
     (n / 0x100_0000_0000 % 0x100) as bv8, (n / 0x1_0000_0000 % 0x100) as bv8,
     (n / 0x100_0000 % 0x100) as bv8, (n / 0x1_0000 % 0x100) as bv8,
     (n / 0x100 % 0x100) as bv8, (n % 0x100) as bv8]
  }

  function ZeroCount(n: nat): (z: nat) {
    if n % 64 < 56 then 55 - n % 64 else 119 - n % 64
  }

  lemma PadLength(n: nat)
    ensures (n + 1 + ZeroCount(n) + 8) % 64 == 0
  {
    assert n == 64 * (n / 64) + n % 64;
  }

  /** A one bit, zeros up to 8 bytes short of a block, and the length in bits. */
  function Pad(msg: seq<bv8>): (r: seq<bv8>)
    requires |msg| < 0x2000_0000_0000_0000
    ensures |r| % 64 == 0
  {
    PadLength(|msg|);
    msg + [0x80] + Zeros(ZeroCount(|msg|)) + Be64(8 * |msg|)
  }

  function WordBytes(w: word): (r: seq<bv8>)
    ensures |r| == 4
  {
    [(w >> 24) as bv8, ((w >> 16) & 0xFF) as bv8, ((w >> 8) & 0xFF) as bv8, (w & 0xFF) as bv8]
  }

  function StateBytes(s: State): (r: seq<bv8>)
    ensures |r| == 20
  {
    WordBytes(s.a) + WordBytes(s.b) + WordBytes(s.c) + WordBytes(s.d) + WordBytes(s.e)
  }

  function Digest(msg: seq<bv8>): (r: seq<bv8>)
    requires |msg| < 0x2000_0000_0000_0000
    ensures |r| == 20
  {
    StateBytes(Hash(INITIAL, Pad(msg)))
  }

  lemma SumMultiple(a: nat, b: nat)
    requires a % 64 == 0 && b % 64 == 0
    ensures (a + b) % 64 == 0
  {
  }

  lemma {:induction false} HashAppend(h: State, x: seq<bv8>, y: seq<bv8>)
    requires |x| % 64 == 0 && |y| % 64 == 0
    ensures |x + y| % 64 == 0 && Hash(h, x + y) == Hash(Hash(h, x), y)
    decreases |x|
  {
    hide Compress;
    SumMultiple(|x|, |y|);
    if x == [] {
      assert x + y == y;
    } else {
      assert |x| >= 64 && |x[64..]| % 64 == 0;
      assert (x + y)[..64] == x[..64] && (x + y)[64..] == x[64..] + y;
      HashAppend(Compress(h, x[..64]), x[64..], y);
    }
  }

  lemma HashBlock(h: State, x: seq<bv8>, block: seq<bv8>)
    requires |x| % 64 == 0 && |block| == 64
    ensures |x + block| % 64 == 0 && Hash(h, x + block) == Compress(Hash(h, x), block)
  {
    hide Compress;
    HashAppend(h, x, block);
    assert block[..64] == block && block[64..] == [];
    assert Hash(Hash(h, x), block) == Hash(Compress(Hash(h, x), block[..64]), block[64..]);
  }
}
