/** The byte ring buffer: a fixed array with two indices and a flag that tells full from empty. */
module RingBuffer {
  import opened Words

  /** n bytes from position r on, wrapping around at the end of the storage. */
  ghost function Held(s: seq<byte>, r: nat, n: nat): (held: seq<byte>)
    requires r < |s| && n <= |s|
    ensures |held| == n
  {
    if r + n <= |s| then s[r..r + n] else s[r..] + s[..r + n - |s|]
  }

  ghost function Wrap(size: nat, i: nat): nat
    requires i <= 2 * size
  {
    if i < size then i else i - size
  }

  /** A piece stored behind the bytes held, short of the end of the storage. */
  lemma HeldAppend(s: seq<byte>, t: seq<byte>, r: nat, n: nat, piece: seq<byte>)
    requires r < |s| && n + |piece| <= |s| && Wrap(|s|, r + n) + |piece| <= |s|
    requires var w := Wrap(|s|, r + n); t == s[..w] + piece + s[w + |piece|..]
    ensures Held(t, r, n + |piece|) == Held(s, r, n) + piece
  {
    var w := Wrap(|s|, r + n);
    var h := Held(t, r, n + |piece|);
    assert forall i :: 0 <= i < n ==> h[i] == Held(s, r, n)[i];
    assert forall i :: 0 <= i < |piece| ==> h[n + i] == piece[i];
  }

  /** A piece taken off the front, short of the end of the storage. */
  lemma HeldTake(s: seq<byte>, r: nat, n: nat, k: nat)
    requires r + k <= |s| && r < |s| && k <= n <= |s|
    ensures Held(s, r, n) == s[r..r + k] + Held(s, Wrap(|s|, r + k), n - k)
  {
    if r + n <= |s| {
      assert s[r..r + n] == s[r..r + k] + s[r + k..r + n];
    } else {
      var back := s[..r + n - |s|];
      assert s[r..] == s[r..r + k] + s[r + k..];
      assert s[r..] + back == s[r..r + k] + (s[r + k..] + back);
    }
  }

  class Ring {
    const storage: array<byte>
    var lastRead: nat
    var lastWritten: nat
    var full: bool

    constructor (storage: array<byte>)
      requires storage.Length > 0
      ensures Valid() && Contents() == [] && this.storage == storage
    {
      this.storage := storage;
      lastRead, lastWritten, full := 0, 0, false;
    }

    ghost predicate Valid()
      reads this
    {
      && lastRead < storage.Length && lastWritten < storage.Length
      && (full ==> lastRead == lastWritten)
    }

    ghost function Count(): (n: nat)
      requires Valid()
      reads this
      ensures n <= storage.Length && lastWritten == Wrap(storage.Length, lastRead + n)
      ensures full <==> n == storage.Length
    {
      if full then storage.Length
      else if lastRead <= lastWritten then lastWritten - lastRead
      else lastWritten + storage.Length - lastRead
    }

    /** The bytes waiting, oldest first. */
    ghost function Contents(): (s: seq<byte>)
      requires Valid()
      reads this, storage
      ensures |s| == Count()
    {
      Held(storage[..], lastRead, Count())
    }

    method BytesAvailable() returns (n: nat)
      requires Valid()
      ensures n == |Contents()|
    {
      if full { return storage.Length; }
      var diff := lastWritten - lastRead;
      if diff >= 0 { return diff; }
      return diff + storage.Length;
    }

    method BytesFree() returns (n: nat)
      requires Valid()
      ensures n == storage.Length - |Contents()|
    {
      var available := BytesAvailable();
      n := storage.Length - available;
    }

    /** Copy a piece that does not reach past the end of the storage behind the n bytes held. */
    method StorePiece(piece: seq<byte>, ghost n: nat)
      requires lastRead < storage.Length && n + |piece| <= storage.Length
      requires lastWritten == Wrap(storage.Length, lastRead + n) && lastWritten + |piece| <= storage.Length
      modifies this`lastWritten, storage
      ensures lastWritten == old(lastWritten) + |piece|
      ensures Held(storage[..], lastRead, n + |piece|) == old(Held(storage[..], lastRead, n)) + piece
    {
      hide Held;
      forall i | 0 <= i < |piece| {
        storage[lastWritten + i] := piece[i];
      }
      assert storage[..] == old(storage[..lastWritten]) + piece + old(storage[lastWritten + |piece|..]);
      HeldAppend(old(storage[..]), storage[..], lastRead, n, piece);
      lastWritten := lastWritten + |piece|;
    }

    /** All or nothing: the bytes are appended exactly if there is room for all of them. */
    method Write(data: seq<byte>) returns (ok: bool)
      requires Valid()
      modifies this, storage
      ensures Valid() && ok == (|old(Contents())| + |data| <= storage.Length)
      ensures Contents() == if ok then old(Contents()) + data else old(Contents())
    {
      hide Held;
      var free := BytesFree();
      if free < |data| { return false; }
      if data == [] { return true; }
      ghost var n := Count();
      var first := Min(storage.Length - lastWritten, |data|);
      assert data == data[..first] + data[first..];
      StorePiece(data[..first], n);
      if lastWritten == storage.Length { lastWritten := 0; }
      if first < |data| {
        StorePiece(data[first..], n + first);
      }
      if lastWritten == lastRead { full := true; }
      assert Count() == n + |data|;
      return true;
    }

    /** Take a piece out that does not reach past the end of the storage. */
    method TakePiece(k: nat, ghost n: nat) returns (piece: seq<byte>)
      requires lastRead < storage.Length && lastRead + k <= storage.Length && k <= n <= storage.Length
      modifies this`lastRead
      ensures lastRead == old(lastRead) + k && |piece| == k
      ensures piece + Held(storage[..], Wrap(storage.Length, lastRead), n - k) == old(Held(storage[..], lastRead, n))
    {
      hide Held;
      HeldTake(storage[..], lastRead, n, k);
      piece := storage[lastRead..lastRead + k];
      lastRead := lastRead + k;
    }

    /** Takes the oldest bytes out, at most as many as asked for. */
    method Read(length: nat) returns (data: seq<byte>)
      requires Valid()
      modifies this
      ensures Valid() && |data| == Min(length, |old(Contents())|)
      ensures data + Contents() == old(Contents())
    {
      hide Held;
      var available := BytesAvailable();
      var wanted := Min(length, available);
      if wanted == 0 { return []; }
      ghost var n := Count();
      var first := Min(storage.Length - lastRead, wanted);
      data := TakePiece(first, n);
      if lastRead == storage.Length { lastRead := 0; }
      if first < wanted {
        var rest := TakePiece(wanted - first, n - first);
        data := data + rest;
      }
      full := false;
      assert Count() == n - wanted;
    }
  }
}
