/** The write loop of the in-memory flash, as it stands: it skips 0xFF bytes without moving on,
    so later bytes land too early.  It meets the flash contract exactly on data without gaps. */
module FlashMemory {
  import opened Words
  import opened FlashBank
  import opened TlvLayout

  /** The bytes the loop stores, in order. */
  function Squeeze(data: seq<byte>): (r: seq<byte>)
    ensures |r| <= |data| && forall i :: 0 <= i < |r| ==> r[i] != 0xFF
  {
    if data == [] then []
    else if data[0] == 0xFF then Squeeze(data[1..])
    else [data[0]] + Squeeze(data[1..])
  }

  lemma {:induction false} SqueezeAppend(a: seq<byte>, b: byte)
    ensures Squeeze(a + [b]) == Squeeze(a) + if b == 0xFF then [] else [b]
    decreases |a|
  {
    if a == [] {
      assert [] + [b] == [b];
    } else {
      assert (a + [b])[1..] == a[1..] + [b];
      SqueezeAppend(a[1..], b);
    }
  }

  /** Store data from offset on; false when a cell would be written twice. */
  method WriteLoop(cells: array<byte>, offset: nat, data: seq<byte>) returns (ok: bool)
    requires offset + |data| <= cells.Length
    modifies cells
    ensures ok <==> MayProgram(old(cells[..]), offset, Squeeze(data))
    ensures ok ==> cells[..] == Program(old(cells[..]), offset, Squeeze(data))
  {
    ghost var before, all := cells[..], Squeeze(data);
    var pos, i := offset, 0;
    assert data[..|data|] == data;
    while i < |data|
      invariant 0 <= i <= |data| && pos == offset + |Squeeze(data[..i])|
      invariant Squeeze(data[..i]) <= all
      invariant MayProgram(before, offset, Squeeze(data[..i]))
      invariant cells[..] == Program(before, offset, Squeeze(data[..i]))
    {
      assert data[..i + 1] == data[..i] + [data[i]];
      SqueezeAppend(data[..i], data[i]);
      SqueezePrefix(data, i + 1);
      if data[i] != 0xFF {
        assert cells[pos] == cells[..][pos] == before[pos];
        if cells[pos] != 0xFF && data[i] != 0x00 {
          assert all[pos - offset] == data[i];
          return false;
        }
        cells[pos] := data[i];
        pos := pos + 1;
      }
      i := i + 1;
    }
    return true;
  }

  lemma {:induction false} SqueezePrefix(data: seq<byte>, k: nat)
    requires k <= |data|
    ensures Squeeze(data[..k]) <= Squeeze(data)
    decreases |data| - k
  {
    if k < |data| {
      assert data[..k + 1] == data[..k] + [data[k]];
      SqueezeAppend(data[..k], data[k]);
      SqueezePrefix(data, k + 1);
    } else {
      assert data[..k] == data;
    }
  }

  /** No 0xFF byte stands before another value. */
  ghost predicate NoGap(data: seq<byte>) {
    forall i, j :: 0 <= i < j < |data| && data[i] == 0xFF ==> data[j] == 0xFF
  }

  lemma {:induction false} AllBlank(data: seq<byte>)
    requires forall k :: 0 <= k < |data| ==> data[k] == 0xFF
    ensures Squeeze(data) == []
  {
    if data != [] { AllBlank(data[1..]); }
  }

  lemma {:induction false} NoGapSqueezes(data: seq<byte>)
    requires NoGap(data)
    ensures Squeeze(data) <= data && forall k :: |Squeeze(data)| <= k < |data| ==> data[k] == 0xFF
    decreases |data|
  {
    if data != [] {
      NoGapSqueezes(data[1..]);
      if data[0] == 0xFF { AllBlank(data); }
    }
  }

  /** Position of the first 0xFF byte. */
  function FirstBlank(data: seq<byte>): (g: nat)
    ensures g <= |data| && (g < |data| ==> data[g] == 0xFF)
    ensures forall i :: 0 <= i < g ==> data[i] != 0xFF
  {
    if data == [] || data[0] == 0xFF then 0 else 1 + FirstBlank(data[1..])
  }

  /** Behind the first 0xFF byte there are only zeros and 0xFF, and where the loop and the contract
      put the zeros differently the cell is zero already. */
  ghost predicate Harmless(bank: seq<byte>, off: nat, data: seq<byte>)
    requires off + |data| <= |bank|
  {
    forall i :: FirstBlank(data) <= i < |data| ==>
      && (data[i] == 0xFF || data[i] == 0)
      && ((i < |Squeeze(data)|) != (data[i] == 0) ==> bank[off + i] == 0)
  }

  /** What the loop does with the data, from the cells as they are: it does not stop, and leaves
      what the contract says. */
  ghost predicate MeetsContract(bank: seq<byte>, off: nat, data: seq<byte>)
    requires off + |data| <= |bank|
  {
    MayProgram(bank, off, Squeeze(data)) && Program(bank, off, Squeeze(data)) == Program(bank, off, data)
  }

  /** Where a byte of the data ends up: not behind its place, and in front of it behind a blank. */
  lemma {:induction false} SqueezeAt(data: seq<byte>, i: nat)
    requires i < |data| && data[i] != 0xFF
    ensures var k := |Squeeze(data[..i])|; k < |Squeeze(data)| && k <= i && Squeeze(data)[k] == data[i]
    ensures i < FirstBlank(data) ==> |Squeeze(data[..i])| == i
    ensures FirstBlank(data) < i ==> FirstBlank(data) <= |Squeeze(data[..i])| < i
    decreases i
  {
    if i == 0 {
      assert data[..0] == [];
    } else {
      SqueezeAt(data[1..], i - 1);
      assert data[..i][1..] == data[1..][..i - 1];
    }
  }

  /** Every byte the loop stores is one of the data, at or behind its place. */
  lemma {:induction false} SqueezeFrom(data: seq<byte>, k: nat) returns (i: nat)
    requires k < |Squeeze(data)|
    ensures k <= i < |data| && data[i] == Squeeze(data)[k]
    ensures FirstBlank(data) <= k ==> FirstBlank(data) < i
    ensures k < FirstBlank(data) ==> i == k
    decreases |data|
  {
    if data[0] == 0xFF {
      i := SqueezeFrom(data[1..], k);
      i := i + 1;
    } else if k == 0 {
      i := 0;
    } else {
      i := SqueezeFrom(data[1..], k - 1);
      i := i + 1;
    }
  }

  /** Under the contract everything the loop stores behind the first blank is zero. */
  lemma {:induction false} OnlyZerosBehind(bank: seq<byte>, off: nat, data: seq<byte>, k: nat)
    requires off + |data| <= |bank| && MeetsContract(bank, off, data)
    requires FirstBlank(data) <= k < |Squeeze(data)|
    ensures Squeeze(data)[k] == 0
    decreases k
  {
    hide Squeeze, FirstBlank;
    var sq := Squeeze(data);
    assert Program(bank, off, sq)[off + k] == sq[k];
    assert Program(bank, off, data)[off + k] == if data[k] != 0xFF then data[k] else bank[off + k];
    if data[k] != 0xFF && k != FirstBlank(data) {
      SqueezeAt(data, k);
      OnlyZerosBehind(bank, off, data, |Squeeze(data[..k])|);
    }
  }

  lemma HarmlessMeets(bank: seq<byte>, off: nat, data: seq<byte>)
    requires MayProgram(bank, off, data) && Harmless(bank, off, data)
    ensures MeetsContract(bank, off, data)
  {
    hide Squeeze, FirstBlank;
    var sq := Squeeze(data);
    forall k | 0 <= k < |sq|
      ensures k < FirstBlank(data) ==> sq[k] == data[k]
      ensures FirstBlank(data) <= k ==> sq[k] == 0
    {
      var i := SqueezeFrom(data, k);
    }
    if FirstBlank(data) > 0 { SqueezeAt(data, FirstBlank(data) - 1); }
    assert FirstBlank(data) <= |sq|;
    assert MayProgram(bank, off, sq);
    forall c | 0 <= c < |bank|
      ensures Program(bank, off, sq)[c] == Program(bank, off, data)[c]
    {
      var i := c - off;
      if 0 <= i < |data| && i >= FirstBlank(data) { assert data[i] == 0xFF || data[i] == 0; }
    }
  }

  lemma MeetsHarmless(bank: seq<byte>, off: nat, data: seq<byte>)
    requires off + |data| <= |bank| && MeetsContract(bank, off, data)
    ensures Harmless(bank, off, data)
  {
    hide Squeeze, FirstBlank;
    var sq := Squeeze(data);
    forall i | FirstBlank(data) <= i < |data|
      ensures data[i] == 0xFF || data[i] == 0
      ensures (i < |sq|) != (data[i] == 0) ==> bank[off + i] == 0
    {
      if data[i] != 0xFF {
        SqueezeAt(data, i);
        OnlyZerosBehind(bank, off, data, |Squeeze(data[..i])|);
      }
      if i < |sq| { OnlyZerosBehind(bank, off, data, i); }
      assert Program(bank, off, sq)[off + i] == Program(bank, off, data)[off + i];
    }
  }

  /** On any cells the contract allows the data for: the loop meets the contract exactly if there
      is no 0xFF byte in front of another value, or the rest is harmless. */
  lemma MeetsContractIff(bank: seq<byte>, off: nat, data: seq<byte>)
    requires MayProgram(bank, off, data)
    ensures MeetsContract(bank, off, data) <==> NoGap(data) || Harmless(bank, off, data)
  {
    if Harmless(bank, off, data) { HarmlessMeets(bank, off, data); }
    if MeetsContract(bank, off, data) { MeetsHarmless(bank, off, data); }
    if NoGap(data) { NoGapSqueezes(data); }
  }

  /** On erased cells the loop never stops, and meets the contract exactly if the data has no 0xFF
      byte in front of another value. */
  lemma MeetsContractIffNoGap(bank: seq<byte>, off: nat, data: seq<byte>)
    requires off + |data| <= |bank| && forall i :: off <= i < off + |data| ==> bank[i] == 0xFF
    ensures MayProgram(bank, off, Squeeze(data))
    ensures MeetsContract(bank, off, data) <==> NoGap(data)
  {
    hide Squeeze, FirstBlank, MeetsContract;
    MeetsContractIff(bank, off, data);
    if Harmless(bank, off, data) {
      forall i, j | 0 <= i < j < |data| && data[i] == 0xFF
        ensures data[j] == 0xFF
      {
        assert FirstBlank(data) <= i;
      }
    }
  }

  // ----- the writes of the store

  lemma GapInFront(x: seq<byte>, y: seq<byte>)
    requires y != [] && y[0] != 0xFF
    ensures NoGap(x + y) <==> (forall i :: 0 <= i < |x| ==> x[i] != 0xFF) && NoGap(y)
  {
    assert (x + y)[|x|] == y[0];
    if NoGap(x + y) {
      forall i | 0 <= i < |x|
        ensures x[i] != 0xFF
      {
        assert (x + y)[i] == x[i];
      }
      forall i, j | 0 <= i < j < |y| && y[i] == 0xFF
        ensures y[j] == 0xFF
      {
        assert (x + y)[|x| + i] == y[i] && (x + y)[|x| + j] == y[j];
      }
    }
  }

  /** Bank headers and deletions always get through the loop unchanged. */
  lemma HeaderAndDeletionMeet(epoch: byte)
    ensures epoch < 4 ==> NoGap(Header(epoch))
    ensures NoGap([0, 0, 0, 0])
  {
  }

  /** An entry is written to erased cells as value and header: both get through unchanged exactly
      if neither the value nor the length has a 0xFF byte in front of another value, and the tag
      has no 0xFF byte. */
  lemma AppendMeetsIff(bank: seq<byte>, off: nat, e: Entry)
    requires off + 8 + |e.val| <= |bank| && forall i :: off <= i < off + 8 + |e.val| ==> bank[i] == 0xFF
    ensures MeetsContract(bank, off + 8, e.val) && MeetsContract(bank, off, Head(e)) <==>
            NoGap(e.val) && NoGap(ToBe32(|e.val|)) && forall i :: 0 <= i < 4 ==> ToBe32(e.tag)[i] != 0xFF
  {
    hide NoGap, MeetsContract;
    MeetsContractIffNoGap(bank, off + 8, e.val);
    MeetsContractIffNoGap(bank, off, Head(e));
    assert ToBe32(|e.val|)[0] < 0x80;
    GapInFront(ToBe32(e.tag), ToBe32(|e.val|));
  }

  // ----- the copy of a migration

  const PIECE := 32

  /** No 0xFF byte stands before another value of the same piece. */
  ghost predicate NoGapInPieces(data: seq<byte>) {
    forall i, j :: 0 <= i < j < |data| && i / PIECE == j / PIECE && data[i] == 0xFF ==> data[j] == 0xFF
  }

  /** The loop takes the data a piece at a time, is stopped in none, and leaves the target. */
  ghost predicate CopyLeaves(bank: seq<byte>, off: nat, data: seq<byte>, target: seq<byte>)
    decreases |data|
  {
    if data == [] then bank == target
    else
      var n := Min(|data|, PIECE);
      && MayProgram(bank, off, Squeeze(data[..n]))
      && CopyLeaves(Program(bank, off, Squeeze(data[..n])), off + n, data[n..], target)
  }

  lemma FirstPiece(data: seq<byte>)
    requires data != []
    ensures var n := Min(|data|, PIECE); NoGapInPieces(data) <==> NoGap(data[..n]) && NoGapInPieces(data[n..])
  {
    var n := Min(|data|, PIECE);
    if NoGapInPieces(data) { FirstAndRest(data, n); }
    if NoGap(data[..n]) && NoGapInPieces(data[n..]) { FirstThenRest(data, n); }
  }

  lemma FirstAndRest(data: seq<byte>, n: nat)
    requires NoGapInPieces(data) && n == Min(|data|, PIECE)
    ensures NoGap(data[..n]) && NoGapInPieces(data[n..])
  {
    var rest := data[n..];
    forall i, j | 0 <= i < j < |rest| && i / PIECE == j / PIECE && rest[i] == 0xFF
      ensures rest[j] == 0xFF
    {
      assert data[i + PIECE] == rest[i] && data[j + PIECE] == rest[j];
    }
  }

  lemma FirstThenRest(data: seq<byte>, n: nat)
    requires n == Min(|data|, PIECE) && NoGap(data[..n]) && NoGapInPieces(data[n..])
    ensures NoGapInPieces(data)
  {
    forall i, j | 0 <= i < j < |data| && i / PIECE == j / PIECE && data[i] == 0xFF
      ensures data[j] == 0xFF
    {
      if i < PIECE {
        assert data[..n][i] == data[i] && data[..n][j] == data[j];
      } else {
        assert data[n..][i - PIECE] == data[i] && data[n..][j - PIECE] == data[j];
      }
    }
  }

  /** The cells in front of a copy stay. */
  lemma {:induction false} CopyStays(bank: seq<byte>, off: nat, data: seq<byte>, target: seq<byte>)
    requires CopyLeaves(bank, off, data, target)
    ensures |target| == |bank| && forall c :: 0 <= c < off && c < |bank| ==> target[c] == bank[c]
    decreases |data|
  {
    hide Squeeze;
    if data != [] {
      var n := Min(|data|, PIECE);
      CopyStays(Program(bank, off, Squeeze(data[..n])), off + n, data[n..], target);
    }
  }

  lemma ProgramInTwo(bank: seq<byte>, off: nat, data: seq<byte>, n: nat)
    requires n <= |data| && off + |data| <= |bank|
    ensures Program(Program(bank, off, data[..n]), off + n, data[n..]) == Program(bank, off, data)
  {
  }

  /** Copied to erased cells in pieces, as a migration does, data arrives as the contract says
      exactly if no piece has a 0xFF byte in front of another value. */
  lemma {:induction false} CopyMeetsIff(bank: seq<byte>, off: nat, data: seq<byte>)
    requires off + |data| <= |bank| && forall i :: off <= i < off + |data| ==> bank[i] == 0xFF
    ensures CopyLeaves(bank, off, data, Program(bank, off, data)) <==> NoGapInPieces(data)
    decreases |data|
  {
    hide Squeeze, FirstBlank, NoGap, NoGapInPieces;
    var target := Program(bank, off, data);
    if data == [] {
      assert bank == target;
      NothingToCopy();
    } else {
      var n := Min(|data|, PIECE);
      var mid := Program(bank, off, Squeeze(data[..n]));
      FirstPiece(data);
      MeetsContractIffNoGap(bank, off, data[..n]);
      ProgramInTwo(bank, off, data, n);
      CopyMeetsIff(mid, off + n, data[n..]);
      if CopyLeaves(bank, off, data, target) {
        CopyStays(mid, off + n, data[n..], target);
        assert forall c :: 0 <= c < off + n ==> target[c] == mid[c];
        assert mid == Program(bank, off, data[..n]);
      }
    }
  }

  lemma NothingToCopy()
    ensures NoGapInPieces([])
  {
  }

  /** An entry of length 255 with a value of ones: the append meets the contract, but the last byte
      of the length is a gap once the value follows it in the same piece of a migration. */
  lemma MigrationGap()
    ensures var e := Entry(1, seq(255, i => 1)); NoGap(e.val) && NoGap(Head(e)) && !NoGapInPieces(Head(e) + e.val)
  {
    var e := Entry(1, seq(255, i => 1));
    var data := Head(e) + e.val;
    assert Head(e) == [0, 0, 0, 1, 0, 0, 0, 255];
    assert data[7] == 0xFF && data[8] == 1;
  }

  /** A gap that goes wrong. */
  lemma GapExample()
    ensures Program([0xFF, 0xFF], 0, Squeeze([0xFF, 0x2A])) == [0x2A, 0xFF]
    ensures Program([0xFF, 0xFF], 0, [0xFF, 0x2A]) == [0xFF, 0x2A]
  {
    assert [0xFF, 0x2A][1..] == [0x2A];
    assert Squeeze([0x2A]) == [0x2A];
  }
}
