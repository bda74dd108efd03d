/** The streaming SHA-1: a context updated in place, a 16-word circular schedule, and rounds
    unrolled with rotated arguments.  Proved against the definition in Sha1Spec. */
module Sha1 {
  import opened Words
  import opened Sha1Spec
  import opened Arith
  import opened SeqFacts

  /** The round functions as the rounds compute them. */
  function CodeF(q: nat, x: word, y: word, z: word): word {
    if q == 0 then z ^ (x & (y ^ z))
    else if q == 1 then x ^ y ^ z
    else if q == 2 then (x & y) | (z & (x | y))
    else x ^ y ^ z
  }

  function CodeK(q: nat): word {
    [0x5A827999, 0x6ED9EBA1, 0x8F1BBCDC, 0xCA62C1D6][if q < 4 then q else 3]
  }

  lemma ChooseBitwise(x: word, y: word, z: word)
    ensures z ^ (x & (y ^ z)) == (x & y) | ((!x) & z)
  {
  }

  lemma MajorityBitwise(x: word, y: word, z: word)
    ensures (x & y) | (z & (x | y)) == (x & y) | (x & z) | (y & z)
  {
  }

  lemma CodeFIsF(t: nat, x: word, y: word, z: word)
    requires t < 80
    ensures CodeF(t / 20, x, y, z) == F(t, x, y, z) && CodeK(t / 20) == K(t)
  {
    ChooseBitwise(x, y, z);
    MajorityBitwise(x, y, z);
  }

  /** Running the remaining rounds from the registers a..e reaches goal. */
  ghost predicate Pending(a: word, b: word, c: word, d: word, e: word, ws: seq<word>, t: nat, goal: State) {
    |ws| == 80 && t <= 80 && Rounds(State(a, b, c, d, e), ws, t) == goal
  }

  ghost predicate Scheduled(ws: seq<word>) {
    |ws| == 80 && forall t :: 16 <= t < 80 ==> ws[t] == NextWord(ws[..t])
  }

  /** The circular buffer holds the last 16 schedule words before t. */
  ghost predicate Circular(w: seq<word>, ws: seq<word>, t: nat) {
    && |w| == 16 && |ws| == 80 && 16 <= t <= 80
    && forall j :: t - 16 <= j < t ==> w[j % 16] == ws[j]
  }

  lemma CircularStep(w: seq<word>, ws: seq<word>, t: nat, x: word)
    requires Circular(w, ws, t) && t < 80 && x == ws[t]
    ensures Circular(w[t % 16 := x], ws, t + 1)
  {
    var w1 := w[t % 16 := x];
    forall j | t + 1 - 16 <= j < t + 1
      ensures w1[j % 16] == ws[j]
    {
      if j < t {
        assert j % 16 != t % 16 by {
          assert t - j == 16 * (t / 16 - j / 16) + (t % 16 - j % 16);
        }
      }
    }
  }

  lemma CircularAt(w: seq<word>, ws: seq<word>, t: nat, j: nat)
    requires Circular(w, ws, t) && t - 16 <= j < t
    ensures w[j % 16] == ws[j]
  {
  }

  lemma CircularNext(w: seq<word>, ws: seq<word>, t: nat)
    requires Scheduled(ws) && Circular(w, ws, t) && t < 80
    ensures Rot(w[(t - 3) % 16] ^ w[(t - 8) % 16] ^ w[(t - 14) % 16] ^ w[t % 16], 1) == ws[t]
  {
    CircularAt(w, ws, t, t - 3);
    CircularAt(w, ws, t, t - 8);
    CircularAt(w, ws, t, t - 14);
    CircularAt(w, ws, t, t - 16);
    SixteenBack(t);
    ScheduledAt(ws, t);
    hide Rot, Circular, Scheduled, NextWord;
  }

  lemma SixteenBack(t: nat)
    requires 16 <= t
    ensures (t - 16) % 16 == t % 16
  {
  }

  lemma ScheduledAt(ws: seq<word>, t: nat)
    requires Scheduled(ws) && 16 <= t < 80
    ensures ws[t] == Rot(ws[t - 3] ^ ws[t - 8] ^ ws[t - 14] ^ ws[t - 16], 1)
  {
    hide Rot;
    assert ws[t] == NextWord(ws[..t]);
  }

  lemma CircularStart(w: seq<word>, ws: seq<word>)
    requires |w| == 16 && |ws| == 80 && w == ws[..16]
    ensures Circular(w, ws, 16)
  {
  }

  lemma ScheduleScheduled(ws: seq<word>)
    requires |ws| == 16
    ensures Scheduled(Schedule(ws)) && Schedule(ws)[..16] == ws
  {
  }

  /** The new value of register e: the increment is formed first. */
  function CodeTemp(e: word, r: word, f: word, k: word, x: word): word { e + (r + f + k + x) }

  lemma SumOrder(e: word, r: word, f: word, k: word, x: word)
    ensures CodeTemp(e, r, f, k, x) == Temp(r, f, e, x, k)
  {
  }

  lemma RoundPending(a: word, b: word, c: word, d: word, e: word, ws: seq<word>, t: nat, goal: State)
    requires Pending(a, b, c, d, e, ws, t, goal) && t < 80
    ensures var x := CodeTemp(e, Rot(a, 5), CodeF(t / 20, b, c, d), CodeK(t / 20), ws[t]);
            Pending(x, a, Rot(b, 30), c, d, ws, t + 1, goal)
  {
    hide Rot, F, K, CodeF, CodeK, Temp, CodeTemp;
    CodeFIsF(t, b, c, d);
    SumOrder(e, Rot(a, 5), F(t, b, c, d), K(t), ws[t]);
  }

  class Context {
    const state: array<word>
    const total: array<u32>
    const buffer: array<bv8>

    /** The message so far: whole blocks already compressed, and a tail kept in the buffer. */
    ghost var hashed: seq<bv8>
    ghost var tail: seq<bv8>

    ghost predicate Shape() {
      && state.Length == 5 && total.Length == 2 && buffer.Length == 64
      && state as object != total && state as object != buffer && total as object != buffer
    }

    ghost function Chain(): State
      requires Shape()
      reads state
    {
      State(state[0], state[1], state[2], state[3], state[4])
    }

    ghost predicate Valid()
      reads this, state, total, buffer
      ensures Valid() ==> Shape()
    {
      && Shape()
      && |hashed| % 64 == 0 && |tail| < 64 && |hashed| + |tail| < 0x1_0000_0000_0000_0000
      && Chain() == Hash(INITIAL, hashed)
      && buffer[..|tail|] == tail
      && total[0] == (|hashed| + |tail|) % 0x1_0000_0000
      && total[1] == (|hashed| + |tail|) / 0x1_0000_0000
    }

    ghost function Message(): seq<bv8>
      reads this
    {
      hashed + tail
    }

    /** One round with its register rotation left to the caller. */
    static method P(q: nat, a: word, b: word, c: word, d: word, e: word, x: word,
                    ghost ws: seq<word>, ghost t: nat, ghost goal: State) returns (e': word, b': word)
      requires Pending(a, b, c, d, e, ws, t, goal) && t < 80 && q == t / 20 && x == ws[t]
      ensures Pending(e', a, b', c, d, ws, t + 1, goal)
    {
      hide Pending, CodeF, CodeK, Rot, CodeTemp;
      e' := CodeTemp(e, Rot(a, 5), CodeF(q, b, c, d), CodeK(q), x);
      b' := Rot(b, 30);
      RoundPending(a, b, c, d, e, ws, t, goal);
    }

    /** The next schedule word, written over the oldest one. */
    static method R(W: array<word>, t: nat, ghost ws: seq<word>) returns (x: word)
      requires Scheduled(ws) && Circular(W[..], ws, t) && t < 80
      modifies W
      ensures x == ws[t] && Circular(W[..], ws, t + 1)
    {
      CircularNext(W[..], ws, t);
      var temp := W[(t - 3) % 16] ^ W[(t - 8) % 16] ^ W[(t - 14) % 16] ^ W[t % 16];
      x := Rot(temp, 1);
      CircularStep(W[..], ws, t, x);
      W[t % 16] := x;
    }

    static method Rounds0to19(W: array<word>, a0: word, b0: word, c0: word, d0: word, e0: word,
                       ghost ws: seq<word>, ghost goal: State)
      returns (A: word, B: word, C: word, D: word, E: word)
      requires Scheduled(ws) && Circular(W[..], ws, 16) && Pending(a0, b0, c0, d0, e0, ws, 0, goal)
      modifies W
      ensures Circular(W[..], ws, 20) && Pending(A, B, C, D, E, ws, 20, goal)
    {
      hide Pending, Scheduled;
      var x;
      A, B, C, D, E := a0, b0, c0, d0, e0;
      E, B := P(0, A, B, C, D, E, W[0], ws, 0, goal);
      D, A := P(0, E, A, B, C, D, W[1], ws, 1, goal);
      C, E := P(0, D, E, A, B, C, W[2], ws, 2, goal);
      B, D := P(0, C, D, E, A, B, W[3], ws, 3, goal);
      A, C := P(0, B, C, D, E, A, W[4], ws, 4, goal);
      E, B := P(0, A, B, C, D, E, W[5], ws, 5, goal);
      D, A := P(0, E, A, B, C, D, W[6], ws, 6, goal);
      C, E := P(0, D, E, A, B, C, W[7], ws, 7, goal);
      B, D := P(0, C, D, E, A, B, W[8], ws, 8, goal);
      A, C := P(0, B, C, D, E, A, W[9], ws, 9, goal);
      E, B := P(0, A, B, C, D, E, W[10], ws, 10, goal);
      D, A := P(0, E, A, B, C, D, W[11], ws, 11, goal);
      C, E := P(0, D, E, A, B, C, W[12], ws, 12, goal);
      B, D := P(0, C, D, E, A, B, W[13], ws, 13, goal);
      A, C := P(0, B, C, D, E, A, W[14], ws, 14, goal);
      E, B := P(0, A, B, C, D, E, W[15], ws, 15, goal);
      x := R(W, 16, ws); D, A := P(0, E, A, B, C, D, x, ws, 16, goal);
      x := R(W, 17, ws); C, E := P(0, D, E, A, B, C, x, ws, 17, goal);
      x := R(W, 18, ws); B, D := P(0, C, D, E, A, B, x, ws, 18, goal);
      x := R(W, 19, ws); A, C := P(0, B, C, D, E, A, x, ws, 19, goal);
    }

    /** Five rounds from t on; afterwards every register has its role again. */
    static method FiveRounds(q: nat, t: nat, W: array<word>, a0: word, b0: word, c0: word, d0: word, e0: word,
                             ghost ws: seq<word>, ghost goal: State)
      returns (A: word, B: word, C: word, D: word, E: word)
      requires 16 <= t && t + 5 <= 80 && q == t / 20 == (t + 4) / 20
      requires Scheduled(ws) && Circular(W[..], ws, t) && Pending(a0, b0, c0, d0, e0, ws, t, goal)
      modifies W
      ensures Circular(W[..], ws, t + 5) && Pending(A, B, C, D, E, ws, t + 5, goal)
    {
      hide Pending, Scheduled, Circular;
      var x;
      A, B, C, D, E := a0, b0, c0, d0, e0;
      x := R(W, t, ws); E, B := P(q, A, B, C, D, E, x, ws, t, goal);
      x := R(W, t + 1, ws); D, A := P(q, E, A, B, C, D, x, ws, t + 1, goal);
      x := R(W, t + 2, ws); C, E := P(q, D, E, A, B, C, x, ws, t + 2, goal);
      x := R(W, t + 3, ws); B, D := P(q, C, D, E, A, B, x, ws, t + 3, goal);
      x := R(W, t + 4, ws); A, C := P(q, B, C, D, E, A, x, ws, t + 4, goal);
    }

    /** Rounds 20 to 79. */
    static method Rounds20to79(W: array<word>, a0: word, b0: word, c0: word, d0: word, e0: word,
                               ghost ws: seq<word>, ghost goal: State)
      returns (A: word, B: word, C: word, D: word, E: word)
      requires Scheduled(ws) && Circular(W[..], ws, 20) && Pending(a0, b0, c0, d0, e0, ws, 20, goal)
      modifies W
      ensures Pending(A, B, C, D, E, ws, 80, goal)
    {
      hide Pending, Scheduled, Circular;
      A, B, C, D, E := FiveRounds(1, 20, W, a0, b0, c0, d0, e0, ws, goal);
      A, B, C, D, E := FiveRounds(1, 25, W, A, B, C, D, E, ws, goal);
      A, B, C, D, E := FiveRounds(1, 30, W, A, B, C, D, E, ws, goal);
      A, B, C, D, E := FiveRounds(1, 35, W, A, B, C, D, E, ws, goal);
      A, B, C, D, E := FiveRounds(2, 40, W, A, B, C, D, E, ws, goal);
      A, B, C, D, E := FiveRounds(2, 45, W, A, B, C, D, E, ws, goal);
      A, B, C, D, E := FiveRounds(2, 50, W, A, B, C, D, E, ws, goal);
      A, B, C, D, E := FiveRounds(2, 55, W, A, B, C, D, E, ws, goal);
      A, B, C, D, E := FiveRounds(3, 60, W, A, B, C, D, E, ws, goal);
      A, B, C, D, E := FiveRounds(3, 65, W, A, B, C, D, E, ws, goal);
      A, B, C, D, E := FiveRounds(3, 70, W, A, B, C, D, E, ws, goal);
      A, B, C, D, E := FiveRounds(3, 75, W, A, B, C, D, E, ws, goal);
    }

    /** Compress one block into the chaining state. */
    method Process(data: seq<bv8>)
      requires Shape() && |data| == 64
      modifies state
      ensures Chain() == Compress(old(Chain()), data)
    {
      hide Rot, Rounds, Round, F, K, NextWord, WordAt, Circular, Scheduled, Pending;
      hide Schedule, BlockWords, Compress, Plus;
      ghost var s0, ws := Chain(), Schedule(BlockWords(data));
      ghost var goal := Rounds(s0, ws, 0);
      var W := new word[16](i requires 0 <= i < 16 => WordAt(data, 4 * i));
      WordsCells(data);
      assert W[..] == BlockWords(data);
      ScheduleScheduled(BlockWords(data));
      CircularStart(W[..], ws);
      PendingStart(s0, ws);
      var A, B, C, D, E := Rounds0to19(W, state[0], state[1], state[2], state[3], state[4], ws, goal);
      A, B, C, D, E := Rounds20to79(W, A, B, C, D, E, ws, goal);
      PendingDone(A, B, C, D, E, ws, goal);
      CompressIs(s0, data);
      state[0] := Plus(state[0], A);
      state[1] := Plus(state[1], B);
      state[2] := Plus(state[2], C);
      state[3] := Plus(state[3], D);
      state[4] := Plus(state[4], E);
    }

    constructor ()
      ensures Valid() && Message() == []
      ensures fresh(state) && fresh(total) && fresh(buffer)
    {
      state := new word[5](i => 0);
      total := new u32[2](i => 0);
      buffer := new bv8[64](i => 0);
      new;
      total[0] := 0;
      total[1] := 0;
      state[0] := 0x67452301;
      state[1] := 0xEFCDAB89;
      state[2] := 0x98BADCFE;
      state[3] := 0x10325476;
      state[4] := 0xC3D2E1F0;
      hashed, tail := [], [];
    }

    /** One whole block joins the compressed part. */
    method Absorb(block: seq<bv8>)
      requires Shape() && |block| == 64 && |hashed| % 64 == 0 && Chain() == Hash(INITIAL, hashed)
      modifies state, this`hashed
      ensures hashed == old(hashed) + block && |hashed| % 64 == 0 && Chain() == Hash(INITIAL, hashed)
    {
      hide Compress, Hash;
      HashBlock(INITIAL, hashed, block);
      Process(block);
      hashed := hashed + block;
    }

    /** Add the length to the 64-bit byte count, with the carry found by comparison. */
    method Count(length: u32, ghost n: nat)
      requires Shape() && n + length < 0x1_0000_0000_0000_0000
      requires total[0] == n % 0x1_0000_0000 && total[1] == n / 0x1_0000_0000
      modifies total
      ensures total[0] == (n + length) % 0x1_0000_0000 && total[1] == (n + length) / 0x1_0000_0000
    {
      total[0] := (total[0] as int + length) % 0x1_0000_0000;
      if total[0] < length {
        total[1] := (total[1] as int + 1) % 0x1_0000_0000;
      }
    }

    /** The compressed part and the buffered tail of the message, apart from the byte count. */
    ghost predicate Holding()
      reads this, state, buffer
      ensures Holding() ==> Shape() && |hashed| % 64 == 0 && |tail| < 64
    {
      && Shape() && |hashed| % 64 == 0 && |tail| < 64
      && Chain() == Hash(INITIAL, hashed) && buffer[..|tail|] == tail
    }

    /** Complete a partly filled buffer, if the input reaches that far. */
    method TopUp(input: seq<bv8>, left: nat) returns (pos: nat, left': nat)
      requires Holding() && left == |tail|
      modifies this, state, buffer
      ensures Holding() && left' == |tail| && pos <= |input|
      ensures hashed + tail + input[pos..] == old(hashed + tail) + input
      ensures left' > 0 ==> pos == 0 && |tail| + |input| < 64
    {
      hide Hash;
      pos, left' := 0, left;
      var fill := 64 - left;
      if left > 0 && |input| >= fill {
        Fill(left, input[..fill]);
        assert buffer[..64] == buffer[..];
        ghost var h, t := hashed, tail;
        Absorb(buffer[..]);
        Joined(h, t, input, fill);
        tail := [];
        pos, left' := fill, 0;
        assert hashed + tail + input[pos..] == hashed + input[pos..];
      } else {
        assert input[0..] == input;
      }
    }

    /** Compress the whole blocks of the input directly. */
    method WholeBlocks(input: seq<bv8>, pos0: nat) returns (pos: nat)
      requires Holding() && pos0 <= |input| && (tail != [] ==> |input| - pos0 < 64)
      modifies this, state
      ensures Holding() && tail == old(tail) && pos0 <= pos <= |input| && |input| - pos < 64
      ensures hashed + tail + input[pos..] == old(hashed + tail + input[pos0..])
      ensures tail != [] ==> pos == pos0
    {
      hide Hash;
      pos := pos0;
      while |input| - pos >= 64
        invariant pos0 <= pos <= |input| && Holding() && tail == old(tail)
        invariant tail != [] ==> pos == pos0
        invariant hashed + tail + input[pos..] == old(hashed + tail + input[pos0..])
      {
        BlockMoves(hashed, input, pos);
        Absorb(input[pos..pos + 64]);
        pos := pos + 64;
      }
    }

    /** Append input to the message, in whatever pieces it arrives. */
    method Update(input: seq<bv8>)
      requires Valid() && |input| < 0x1_0000_0000 && |Message()| + |input| < 0x1_0000_0000_0000_0000
      modifies this, state, total, buffer
      ensures Valid() && Message() == old(Message()) + input
    {
      hide Hash;
      if |input| == 0 { assert Message() + input == Message(); return; }
      TailLength(|hashed|, |tail|);
      var left := total[0] % 64;
      Count(|input|, |hashed| + |tail|);
      ghost var msg := Message();
      var pos;
      pos, left := TopUp(input, left);
      pos := WholeBlocks(input, pos);
      if |input| - pos > 0 {
        Fill(left, input[pos..]);
      }
      Regrouped(hashed, tail, input[pos..]);
      tail := tail + input[pos..];
      assert |hashed + tail| == |msg| + |input|;
    }

    /** Copy bytes into the buffer behind the first left ones. */
    method Fill(left: nat, bytes: seq<bv8>)
      requires Shape() && left + |bytes| <= 64
      modifies buffer
      ensures buffer[..left] == old(buffer[..left]) && buffer[left..left + |bytes|] == bytes
      ensures buffer[..left + |bytes|] == old(buffer[..left]) + bytes
    {
      forall i | 0 <= i < |bytes| { buffer[left + i] := bytes[i]; }
      assert buffer[left..left + |bytes|] == bytes;
    }

    /** Pad, and return the digest of the whole message. */
    method Finish() returns (digest: seq<bv8>)
      requires Valid() && |Message()| < 0x2000_0000_0000_0000
      modifies this, state, total, buffer
      ensures digest == Digest(old(Message()))
    {
      hide Hash, Be64, WordBytes, Pad, Zeros, ZeroCount, IntBytes;
      ghost var msg := Message();
      assert |msg| == |hashed| + |tail|;
      LengthBits(|msg|);
      TailLength(|hashed|, |tail|);
      var high: u32 := (total[0] as int / 0x2000_0000 + total[1] as int * 8) % 0x1_0000_0000;
      var low: u32 := total[0] as int * 8 % 0x1_0000_0000;
      var msglen := IntBytes(high) + IntBytes(low);
      var last := total[0] % 64;
      assert last == |tail| == |msg| % 64;
      var padn := if last < 56 then 56 - last else 120 - last;
      PadCount(|msg|, last, padn);
      PadParts(msg, padn, msglen);
      Update(([0x80] + Zeros(63))[..padn]);
      Update(msglen);
      NoTail(|hashed|, |tail|);
      assert hashed == Pad(msg);
      digest := WordBytes(state[0]) + WordBytes(state[1]) + WordBytes(state[2])
              + WordBytes(state[3]) + WordBytes(state[4]);
    }
  }

  /** Four bytes of a 32-bit count, most significant first. */
  function IntBytes(n: u32): (r: seq<bv8>)
    ensures |r| == 4
  {
    [(n / 0x100_0000) as bv8, (n / 0x1_0000 % 0x100) as bv8, (n / 0x100 % 0x100) as bv8, (n % 0x100) as bv8]
  }

  lemma TailLength(h: nat, t: nat)
    requires h % 64 == 0 && t < 64
    ensures (h + t) % 64 == t && (h + t) % 0x1_0000_0000 % 64 == t
  {
    var n := h + t;
    DivAdd(h / 64, t, 64);
    var k := n / 0x1_0000_0000;
    DivAdd(-0x400_0000 * k, n, 64);
  }

  lemma NoTail(h: nat, t: nat)
    requires h % 64 == 0 && t < 64 && (h + t) % 64 == 0
    ensures t == 0
  {
    TailLength(h, t);
  }

  lemma BitCount(n: nat)
    requires n < 0x2000_0000_0000_0000
    ensures var t0, t1 := n % 0x1_0000_0000, n / 0x1_0000_0000;
            && 0 <= t0 / 0x2000_0000 + t1 * 8 < 0x1_0000_0000
            && 8 * n == 0x1_0000_0000 * (t0 / 0x2000_0000 + t1 * 8) + t0 * 8 % 0x1_0000_0000
  {
    var t0 := n % 0x1_0000_0000;
    var e := t0 / 0x2000_0000;
    assert t0 == 0x2000_0000 * e + t0 % 0x2000_0000;
    DivUnique(t0 * 8, 0x1_0000_0000, e);
  }

  /** The two halves of the bit count, computed from the two halves of the byte count. */
  lemma LengthBits(n: nat)
    requires n < 0x2000_0000_0000_0000
    ensures var t0, t1 := n % 0x1_0000_0000, n / 0x1_0000_0000;
            && 0 <= t0 / 0x2000_0000 + t1 * 8 < 0x1_0000_0000
            && IntBytes(t0 / 0x2000_0000 + t1 * 8) + IntBytes(t0 * 8 % 0x1_0000_0000) == Be64(8 * n)
  {
    BitCount(n);
    SplitBytes(n % 0x1_0000_0000 / 0x2000_0000 + n / 0x1_0000_0000 * 8, n % 0x1_0000_0000 * 8 % 0x1_0000_0000);
  }

  lemma SplitHigh(high: u32, low: u32)
    ensures var n := 0x1_0000_0000 * high + low;
            && n / 0x100_0000_0000_0000 == high / 0x100_0000 && n / 0x1_0000_0000_0000 == high / 0x1_0000
            && n / 0x100_0000_0000 == high / 0x100 && n / 0x1_0000_0000 == high
  {
    var n := 0x1_0000_0000 * high + low;
    assert high == 0x100_0000 * (high / 0x100_0000) + high % 0x100_0000;
    DivUnique(n, 0x100_0000_0000_0000, high / 0x100_0000);
    assert high == 0x1_0000 * (high / 0x1_0000) + high % 0x1_0000;
    DivUnique(n, 0x1_0000_0000_0000, high / 0x1_0000);
    assert high == 0x100 * (high / 0x100) + high % 0x100;
    DivUnique(n, 0x100_0000_0000, high / 0x100);
    DivUnique(n, 0x1_0000_0000, high);
  }

  lemma SplitLow(high: u32, low: u32)
    ensures var n := 0x1_0000_0000 * high + low;
            && n / 0x100_0000 % 0x100 == low / 0x100_0000 && n / 0x1_0000 % 0x100 == low / 0x1_0000 % 0x100
            && n / 0x100 % 0x100 == low / 0x100 % 0x100 && n % 0x100 == low % 0x100
  {
    DivAdd(0x100 * high, low, 0x100_0000);
    DivAdd(high, low / 0x100_0000, 0x100);
    DivAdd(0x1_0000 * high, low, 0x1_0000);
    DivAdd(0x100 * high, low / 0x1_0000, 0x100);
    DivAdd(0x100_0000 * high, low, 0x100);
    DivAdd(0x1_0000 * high, low / 0x100, 0x100);
  }

  lemma SplitBytes(high: u32, low: u32)
    ensures IntBytes(high) + IntBytes(low) == Be64(0x1_0000_0000 * high + low)
  {
    SplitHigh(high, low);
    SplitLow(high, low);
  }

  lemma PadCount(n: nat, last: nat, padn: nat)
    requires last == n % 64 && padn == if last < 56 then 56 - last else 120 - last
    ensures padn == 1 + ZeroCount(n) && padn <= 64 && (n + padn + 8) % 64 == 0
  {
    PadLength(n);
  }

  lemma PadParts(msg: seq<bv8>, padn: nat, msglen: seq<bv8>)
    requires |msg| < 0x2000_0000_0000_0000 && padn == 1 + ZeroCount(|msg|) && msglen == Be64(8 * |msg|)
    ensures |Pad(msg)| % 64 == 0
    ensures msg + ([0x80] + Zeros(63))[..padn] + msglen == Pad(msg)
  {
    hide Be64;
    assert ([0x80] + Zeros(63))[..padn] == [0x80] + Zeros(ZeroCount(|msg|));
    assert msg + ([0x80] + Zeros(ZeroCount(|msg|))) == msg + [0x80] + Zeros(ZeroCount(|msg|));
  }

  lemma Joined(h: seq<bv8>, t: seq<bv8>, input: seq<bv8>, fill: nat)
    requires fill <= |input|
    ensures h + (t + input[..fill]) + input[fill..] == h + t + input
  {
  }

  lemma BlockMoves(h: seq<bv8>, input: seq<bv8>, pos: nat)
    requires pos + 64 <= |input|
    ensures h + [] + input[pos..] == h + input[pos..pos + 64] + [] + input[pos + 64..]
  {
  }

  lemma Regrouped(h: seq<bv8>, t: seq<bv8>, i: seq<bv8>)
    ensures h + (t + i) == h + t + i
  {
  }

  lemma WordsCells(block: seq<bv8>)
    requires |block| == 64
    ensures forall k :: 0 <= k < 16 ==> BlockWords(block)[k] == WordAt(block, 4 * k)
  {
  }

  lemma PendingStart(s: State, ws: seq<word>)
    requires |ws| == 80
    ensures Pending(s.a, s.b, s.c, s.d, s.e, ws, 0, Rounds(s, ws, 0))
  {
  }

  lemma CompressIs(h: State, block: seq<bv8>)
    requires |block| == 64
    ensures Compress(h, block) == Add(h, Rounds(h, Schedule(BlockWords(block)), 0))
  {
  }

  lemma PendingDone(a: word, b: word, c: word, d: word, e: word, ws: seq<word>, goal: State)
    requires Pending(a, b, c, d, e, ws, 80, goal)
    ensures goal == State(a, b, c, d, e)
  {
  }

  /** The one-shot digest. */
  method Sha1(src: seq<bv8>) returns (out: seq<bv8>)
    requires |src| < 0x1_0000_0000
    ensures out == Digest(src)
  {
    hide Digest, Hash;
    var ctx := new Context();
    assert [] + src == src;
    ctx.Update(src);
    out := ctx.Finish();
  }

  /** Any split of the message over successive updates gives the digest of the whole. */
  method Sha1OfParts(parts: seq<seq<bv8>>) returns (out: seq<bv8>)
    requires (forall p <- parts :: |p| < 0x1_0000_0000) && |Concat(parts)| < 0x2000_0000_0000_0000
    ensures out == Digest(Concat(parts))
  {
    hide Digest;
    var ctx := new Context();
    var i := 0;
    assert parts[..0] == [];
    while i < |parts|
      invariant 0 <= i <= |parts| && ctx.Valid() && ctx.Message() == Concat(parts[..i])
      invariant fresh(ctx) && fresh(ctx.state) && fresh(ctx.total) && fresh(ctx.buffer)
    {
      assert parts[..i + 1][..i] == parts[..i];
      ConcatPrefix(parts, i + 1);
      ctx.Update(parts[i]);
      i := i + 1;
    }
    assert parts[..i] == parts;
    out := ctx.Finish();
  }

  lemma {:induction false} ConcatPrefix(parts: seq<seq<bv8>>, k: nat)
    requires k <= |parts|
    ensures |Concat(parts[..k])| <= |Concat(parts)|
    decreases |parts| - k
  {
    if k < |parts| {
      assert parts[..k + 1][..k] == parts[..k];
      ConcatPrefix(parts, k + 1);
    } else {
      assert parts[..k] == parts;
    }
  }
}
