/** Two flash banks: erase sets every cell to 0xFF, a cell takes a non-zero value only once
    after that, and zero can always be written. */
module FlashBank {
  import opened Words

  function Erased(n: nat): (r: seq<byte>)
    ensures |r| == n
  {
    seq(n, _ => 0xFF)
  }

  /** Writing 0xFF changes nothing; anything else but zero needs an erased cell. */
  ghost predicate MayProgram(bank: seq<byte>, off: nat, data: seq<byte>) {
    && off + |data| <= |bank|
    && forall i :: 0 <= i < |data| ==> data[i] == 0xFF || data[i] == 0 || bank[off + i] == 0xFF
  }

  /** Byte i of data goes to cell off + i. */
  function Program(bank: seq<byte>, off: nat, data: seq<byte>): (r: seq<byte>)
    requires off + |data| <= |bank|
    ensures |r| == |bank|
  {
    seq(|bank|, i requires 0 <= i < |bank| =>
      if off <= i < off + |data| && data[i - off] != 0xFF then data[i - off] else bank[i])
  }

  datatype Image = Image(b0: seq<byte>, b1: seq<byte>) {
    function Bank(b: nat): seq<byte> { if b == 0 then b0 else b1 }

    function With(b: nat, x: seq<byte>): Image { if b == 0 then Image(x, b1) else Image(b0, x) }
  }

  class FlashBanks {
    const size: nat
    const bank0: array<byte>
    const bank1: array<byte>

    /** A recording: what flash held after each call that changes it. */
    var trace: seq<Image>

    ghost predicate Valid() {
      bank0 != bank1 && bank0.Length == bank1.Length == size && size < 0x8000_0000
    }

    function Img(): Image
      reads bank0, bank1
    {
      Image(bank0[..], bank1[..])
    }

    constructor (storage: nat)
      requires storage / 2 < 0x8000_0000
      ensures Valid() && fresh(bank0) && fresh(bank1) && size == storage / 2 && trace == []
      ensures Img() == Image(Erased(size), Erased(size))
    {
      size := storage / 2;
      bank0 := new byte[storage / 2](_ => 0xFF);
      bank1 := new byte[storage / 2](_ => 0xFF);
      trace := [];
    }

    method Read(bank: nat, offset: nat, n: nat) returns (data: seq<byte>)
      requires Valid() && bank < 2 && offset + n <= size
      ensures data == Img().Bank(bank)[offset..offset + n]
    {
      if bank == 0 {
        data := bank0[offset..offset + n];
      } else {
        data := bank1[offset..offset + n];
      }
    }

    method Erase(bank: nat)
      requires Valid() && bank < 2
      modifies this, bank0, bank1
      ensures Img() == old(Img()).With(bank, Erased(size)) && trace == old(trace) + [Img()]
    {
      var cells := if bank == 0 then bank0 else bank1;
      forall i | 0 <= i < cells.Length { cells[i] := 0xFF; }
      trace := trace + [Img()];
      assert Img().Bank(bank) == Erased(size);
    }

    method Write(bank: nat, offset: nat, data: seq<byte>)
      requires Valid() && bank < 2 && MayProgram(Img().Bank(bank), offset, data)
      modifies this, bank0, bank1
      ensures Img() == old(Img()).With(bank, Program(old(Img()).Bank(bank), offset, data))
      ensures trace == old(trace) + [Img()]
    {
      var cells := if bank == 0 then bank0 else bank1;
      ghost var before := cells[..];
      var i := 0;
      while i < |data|
        modifies cells
        invariant 0 <= i <= |data|
        invariant forall k :: 0 <= k < size ==>
          cells[k] == (if offset <= k < offset + i && data[k - offset] != 0xFF then data[k - offset] else before[k])
      {
        if data[i] != 0xFF {
          cells[offset + i] := data[i];
        }
        i := i + 1;
      }
      trace := trace + [Img()];
      assert cells[..] == Program(before, offset, data);
    }

    /** Power loss: flash is left as it was after some earlier call. */
    method Restore(img: Image)
      requires Valid() && |img.b0| == |img.b1| == size
      modifies bank0, bank1
      ensures Img() == img
    {
      forall i | 0 <= i < size { bank0[i] := img.b0[i]; }
      forall i | 0 <= i < size { bank1[i] := img.b1[i]; }
      assert bank0[..] == img.b0 && bank1[..] == img.b1;
    }
  }
}
