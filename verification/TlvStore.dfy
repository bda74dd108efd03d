/** The tag-length-value store on two flash banks: append, tombstones, migration, recovery. */
module TlvStore {
  import opened Words
  import opened FlashBank
  import opened TlvLayout
  import opened SeqFacts

  datatype Iterator = Iterator(bank: nat, offset: nat, tag: u32, len: u32)

  class TagStore {
    const flash: FlashBanks
    var currentBank: int
    var writeOffset: nat

    // the current bank as header byte, entries and remaining space
    ghost var hb: byte
    ghost var es: seq<Entry>
    ghost var rest: seq<byte>

    constructor (flash: FlashBanks)
      ensures this.flash == flash
    {
      this.flash := flash;
      currentBank, writeOffset := -1, 0;
      hb, es, rest := 0, [], [];
    }

    /** The current bank parses; behind the entries there may still be debris. */
    ghost predicate Open()
      reads this, flash.bank0, flash.bank1
      ensures Open() ==> flash.Valid() && 0 <= currentBank < 2 && 16 <= flash.size
    {
      && flash.Valid() && 0 <= currentBank < 2 && 16 <= flash.size
      && Current(flash.Img(), flash.size, currentBank, hb, es, rest)
    }

    /** State between operations: each live tag once, and only erased cells from writeOffset on. */
    ghost predicate Valid()
      reads this, flash.bank0, flash.bank1
      ensures Valid() ==> Open()
    {
      && Open()
      && Unique(es) && rest == Erased(|rest|) && writeOffset == End(es)
    }

    ghost function Map(): TagMap
      reads this
    {
      Live(es)
    }

    /** A power loss now is survivable: the bank is not completely full. */
    ghost predicate Durable()
      reads this
    {
      rest != []
    }

    /** Start-up from every flash image since n gives one of two maps. */
    ghost predicate SafeSince(n: nat, before: TagMap, after: TagMap)
      reads flash
    {
      && n <= |flash.trace|
      && forall i :: n <= i < |flash.trace| ==>
           Recovers(flash.trace[i], flash.size, before) || Recovers(flash.trace[i], flash.size, after)
    }

    // ----- iterator

    ghost predicate At(it: Iterator, k: nat)
      reads this
    {
      && k <= |es| && it.bank == currentBank && it.offset == End(es[..k])
      && (k < |es| ==> it.tag == es[k].tag && it.len == |es[k].val|)
      && (k == |es| ==> it.tag == NO_TAG)
    }

    /** What the next step needs: the tag may have been zeroed in the meantime. */
    ghost predicate OnEntry(it: Iterator, k: nat)
      reads this
    {
      k < |es| && it.bank == currentBank && it.offset == End(es[..k]) && it.len == |es[k].val|
    }

    method FetchTagLen(bank: nat, offset: nat) returns (it: Iterator)
      requires flash.Valid() && bank < 2 && offset + 8 <= flash.size
      ensures it.bank == bank && it.offset == offset
      ensures it.tag == Be32(flash.Img().Bank(bank), offset) && it.len == Be32(flash.Img().Bank(bank), offset + 4)
    {
      var entry := flash.Read(bank, offset, 8);
      it := Iterator(bank, offset, Be32(entry, 0), Be32(entry, 4));
    }

    /** The iterator fields read from flash are those of entry k, or the end mark. */
    lemma FetchedAt(it: Iterator, k: nat)
      requires Open() && k <= |es| && it.bank == currentBank && it.offset == End(es[..k])
      requires k < |es| || rest != []
      ensures it.offset + 8 <= flash.size == |flash.Img().Bank(currentBank)|
      ensures (it.tag == Be32(flash.Img().Bank(currentBank), it.offset)
               && it.len == Be32(flash.Img().Bank(currentBank), it.offset + 4)) ==> At(it, k)
    {
      hide Be32, Ser;
      var bank := flash.Img().Bank(currentBank);
      if k < |es| {
        EntryAt(bank, hb, es, rest, k);
      } else {
        EndAt(bank, hb, es, rest);
      }
    }

    method IteratorInit() returns (it: Iterator)
      requires Open()
      ensures At(it, 0)
    {
      hide Be32, Ser, Holds, NoEntry;
      StartOffset(flash.Img().Bank(currentBank), hb, es, rest);
      FetchedAt(Iterator(currentBank, 8, 0, 0), 0);
      it := FetchTagLen(currentBank, 8);
      FetchedAt(it, 0);
    }

    method FetchNext(it: Iterator, ghost k: nat) returns (it': Iterator)
      requires Open() && OnEntry(it, k)
      ensures At(it', k + 1)
    {
      hide Be32, Ser, Holds, NoEntry;
      ghost var bank := flash.Img().Bank(currentBank);
      EntryAt(bank, hb, es, rest, k);
      EndAt(bank, hb, es, rest);
      var offset := it.offset + 8 + it.len;
      if offset >= flash.size {
        it' := Iterator(it.bank, offset, NO_TAG, 0);
        EndReached(bank, hb, es, rest, k + 1);
      } else {
        EndNotReached(bank, hb, es, rest, k + 1);
        FetchedAt(Iterator(it.bank, offset, 0, 0), k + 1);
        it' := FetchTagLen(it.bank, offset);
        FetchedAt(it', k + 1);
      }
    }

    /** All cells from offset on are erased; checked in pieces of 16 bytes. */
    method TestErased(bank: nat, offset: nat) returns (erased: bool)
      requires flash.Valid() && bank < 2 && offset <= flash.size
      ensures erased <==> flash.Img().Bank(bank)[offset..] == Erased(flash.size - offset)
    {
      ghost var cells := flash.Img().Bank(bank);
      var pos := offset;
      while pos < flash.size
        invariant offset <= pos <= flash.size
        invariant forall i :: offset <= i < pos ==> cells[i] == 0xFF
        decreases flash.size - pos
      {
        var n := if pos + 16 < flash.size then 16 else flash.size - pos;
        var buffer := flash.Read(bank, pos, n);
        if buffer != Erased(n) {
          ghost var i :| 0 <= i < n && buffer[i] != 0xFF;
          assert cells[pos + i] != 0xFF;
          assert cells[offset..][pos + i - offset] != 0xFF;
          return false;
        }
        assert forall i :: pos <= i < pos + n ==> cells[i] == buffer[i - pos];
        pos := pos + n;
      }
      return true;
    }

    method GetLatestBank() returns (bank: int)
      requires flash.Valid() && 16 <= flash.size
      ensures bank == Latest(flash.Img())
    {
      var header0 := flash.Read(0, 0, 8);
      var header1 := flash.Read(1, 0, 8);
      SubSlice(flash.Img().b0, 0, 8, 0, 7);
      SubSlice(flash.Img().b1, 0, 8, 0, 7);
      var valid0, valid1 := header0[0..7] == MAGIC, header1[0..7] == MAGIC;
      if !valid0 && !valid1 { return -1; }
      if valid0 && !valid1 { return 0; }
      if !valid0 && valid1 { return 1; }
      var epoch0, epoch1 := header0[7] % 4, header1[7] % 4;
      if epoch0 == (epoch1 + 1) % 4 { return 0; }
      if epoch1 == (epoch0 + 1) % 4 { return 1; }
      return -1;
    }

    /** Write data, if there is any: the driver makes no call for an empty block. */
    method WriteBlock(bank: nat, offset: nat, data: seq<byte>)
      requires flash.Valid() && bank < 2 && MayProgram(flash.Img().Bank(bank), offset, data)
      modifies flash, flash.bank0, flash.bank1
      ensures flash.Img() == old(flash.Img()).With(bank, Program(old(flash.Img()).Bank(bank), offset, data))
      ensures flash.trace == old(flash.trace) + if data == [] then [] else [flash.Img()]
    {
      if data != [] {
        flash.Write(bank, offset, data);
      } else {
        assert Program(flash.Img().Bank(bank), offset, data) == flash.Img().Bank(bank);
      }
    }

    /** Erase a bank unless it is erased already. */
    method EraseBank(bank: nat)
      requires flash.Valid() && bank < 2
      modifies flash, flash.bank0, flash.bank1
      ensures flash.Img() == old(flash.Img()).With(bank, Erased(flash.size))
      ensures flash.trace == old(flash.trace) +
              if old(flash.Img()).Bank(bank) == Erased(flash.size) then [] else [flash.Img()]
    {
      var erased := TestErased(bank, 0);
      assert flash.Img().Bank(bank)[0..] == flash.Img().Bank(bank);
      if !erased {
        flash.Erase(bank);
      }
    }

    method WriteHeader(bank: nat, epoch: byte, ghost body: seq<byte>)
      requires flash.Valid() && bank < 2 && flash.Img().Bank(bank) == Erased(8) + body
      modifies flash, flash.bank0, flash.bank1
      ensures flash.Img() == old(flash.Img()).With(bank, Header(epoch) + body)
      ensures flash.trace == old(flash.trace) + [flash.Img()]
    {
      ProgramErased([], 8, body, Header(epoch));
      assert [] + Erased(8) + body == Erased(8) + body;
      assert [] + Header(epoch) + Erased(0) + body == Header(epoch) + body;
      flash.Write(bank, 0, Header(epoch));
    }

    /** An image from the middle of a deletion: some of the first n entries are zeroed. */
    ghost predicate Deleting(img: Image, es0: seq<Entry>, tag: int, n: nat)
      reads this
    {
      0 <= currentBank && exists k: nat :: k <= n && Current(img, flash.size, currentBank, hb, Kill(es0, tag, k), rest)
    }

    /** Zero the tag of every matching entry before the given offset. */
    method DeleteTagUntilOffset(tag: u32, offset: nat, ghost n: nat)
      requires Open() && n <= |es| && offset == End(es[..n])
      modifies flash, flash.bank0, flash.bank1, this`es
      ensures Open() && es == Kill(old(es), tag, n)
      ensures old(flash.trace) <= flash.trace
      ensures forall i :: |old(flash.trace)| <= i < |flash.trace| ==> Deleting(flash.trace[i], old(es), tag, n)
      ensures (forall i :: 0 <= i < n ==> old(es)[i].tag != tag) ==> flash.trace == old(flash.trace)
    {
      hide Ser, Holds, Kill, Stale, MayProgram, Program;
      ghost var es0, t0 := es, |flash.trace|;
      KillNone(es0, tag);
      var it := IteratorInit();
      ghost var k := 0;
      while it.tag != NO_TAG && it.offset < offset
        invariant Open() && k <= n <= |es| == |es0| && es == Kill(es0, tag, k) && At(it, k)
        invariant offset == End(es[..n])
        invariant t0 <= |flash.trace| && old(flash.trace) <= flash.trace
        invariant forall i :: t0 <= i < |flash.trace| ==> Deleting(flash.trace[i], es0, tag, n)
        invariant (forall i :: 0 <= i < n ==> es0[i].tag != tag) ==> flash.trace == old(flash.trace) && es == es0
        decreases n - k
      {
        NotYet(flash.Img().Bank(currentBank), hb, es, rest, k, n);
        KillStep(es0, tag, k);
        if it.tag == tag {
          ZeroTagged(tag, it.offset, k, n);
          assert es == Kill(es0, tag, k + 1);
        }
        it := FetchNext(it, k);
        k := k + 1;
      }
      StoppedAt(it, k, n);
    }

    /** Overwrite one tag with zero. */
    method ZeroTagged(tag: u32, offset: nat, ghost k: nat, ghost n: nat)
      requires Open() && k < n <= |es| && es[k].tag == tag && offset == End(es[..k])
      modifies flash, flash.bank0, flash.bank1, this`es
      ensures Open() && es == old(es)[k := old(es)[k].(tag := 0)]
      ensures flash.trace == old(flash.trace) + [flash.Img()]
      ensures forall j :: 0 <= j <= |es| ==> End(es[..j]) == End(old(es)[..j])
    {
      hide Ser, Holds, MayProgram, Program;
      ProgramZeroTag(flash.Img().Bank(currentBank), hb, es, rest, k);
      SameEnds(es, k);
      flash.Write(currentBank, offset, [0, 0, 0, 0]);
      es := es[k := es[k].(tag := 0)];
    }

    lemma StoppedAt(it: Iterator, k: nat, n: nat)
      requires Open() && At(it, k) && k <= n <= |es| && (it.tag == NO_TAG || it.offset >= End(es[..n]))
      ensures k == n
    {
      EndMonotone(es, k, n);
    }

    // ----- migration

    /** During migration: the current bank is untouched and the next one has no header yet. */
    ghost predicate Copying(next: nat, copied: seq<byte>)
      reads this, flash.bank0, flash.bank1
      ensures Copying(next, copied) ==>
              Open() && next == 1 - currentBank && |flash.Img().Bank(currentBank)| == flash.size
              && Holds(flash.Img().Bank(currentBank), hb, es, rest)
    {
      && Open() && next == 1 - currentBank
      && 8 + |copied| <= flash.size
      && flash.Img().Bank(next) == Erased(8) + copied + Erased(flash.size - 8 - |copied|)
    }

    /** Every image since n still recovers to what the current bank holds. */
    ghost predicate Kept(n: nat)
      reads this, flash
    {
      && n <= |flash.trace|
      && (rest != [] ==> forall i :: n <= i < |flash.trace| ==> Recovers(flash.trace[i], flash.size, Live(es)))
    }

    lemma CopyingRecovers(next: nat, copied: seq<byte>)
      requires Copying(next, copied) && Unique(es) && rest != []
      ensures Recovers(flash.Img(), flash.size, Live(es))
    {
      DedupeUnique(es);
      RecoversBy(flash.Img(), flash.size, Live(es), currentBank, hb, es, rest);
    }

    /** Copy one piece of at most 32 bytes to the next bank. */
    method CopyPiece(next: nat, from: nat, to: nat, n: nat, ghost copied: seq<byte>, ghost t0: nat)
      requires Copying(next, copied) && Unique(es) && Kept(t0) && 0 < n <= 32
      requires from + n <= flash.size && to == 8 + |copied| && to + n <= flash.size
      modifies flash, flash.bank0, flash.bank1
      ensures Copying(next, copied + flash.Img().Bank(currentBank)[from..from + n]) && Kept(t0)
      ensures flash.Img().Bank(currentBank) == old(flash.Img()).Bank(currentBank)
      ensures old(flash.trace) <= flash.trace
    {
      hide Holds, MayProgram, Program, Unique, Recovers, Live, Stale, HasMagic, Erased;
      var buffer := flash.Read(currentBank, from, n);
      ghost var room := flash.size - 8 - |copied|;
      AppendErased(copied, room, buffer);
      BlankStale(copied + buffer + Erased(room - n), hb);
      Regroup(Erased(8), copied + buffer, Erased(room - n));
      WriteBlock(next, to, buffer);
      if rest != [] {
        CopyingRecovers(next, copied + buffer);
      }
    }

    /** Copy entry k in pieces. */
    method CopyEntry(next: nat, offset: nat, len: nat, writePos: nat, ghost k: nat, ghost copied: seq<byte>,
            ghost t0: nat)
      returns (writePos': nat)
      requires Copying(next, copied) && Unique(es) && Kept(t0) && k < |es|
      requires offset == End(es[..k]) && len == |es[k].val| && writePos == 8 + |copied|
      requires writePos + 8 + len <= flash.size
      modifies flash, flash.bank0, flash.bank1
      ensures Copying(next, copied + (Head(es[k]) + es[k].val)) && Kept(t0)
      ensures writePos' == writePos + 8 + len
      ensures flash.Img().Bank(currentBank) == old(flash.Img()).Bank(currentBank)
      ensures old(flash.trace) <= flash.trace
    {
      hide Holds, Unique, Ser, Head, Stale, Be32, Erased, Recovers, Live, Copying;
      ghost var bank := flash.Img().Bank(currentBank);
      EntryAt(bank, hb, es, rest, k);
      var from, bytesToCopy := offset, 8 + len;
      writePos' := writePos;
      ghost var done: seq<byte> := [];
      assert copied + done == copied && bank[offset..from] == done;
      while bytesToCopy > 0
        invariant 0 <= bytesToCopy && from == offset + |done| && writePos' == writePos + |done|
        invariant |done| + bytesToCopy == 8 + len && done == bank[offset..from]
        invariant flash.Img().Bank(currentBank) == bank
        invariant Copying(next, copied + done) && Kept(t0)
        invariant old(flash.trace) <= flash.trace
        decreases bytesToCopy
      {
        var n := Min(bytesToCopy, 32);
        CopyPiece(next, from, writePos', n, copied + done, t0);
        NextPiece(bank, offset, from, n, copied);
        done := done + bank[from..from + n];
        from := from + n;
        writePos' := writePos' + n;
        bytesToCopy := bytesToCopy - n;
      }
    }

    /** Copy every live entry behind the (still missing) header of the next bank. */
    method CopyLive(next: nat, ghost t0: nat) returns (writePos: nat)
      requires Copying(next, []) && Unique(es) && Kept(t0)
      modifies flash, flash.bank0, flash.bank1
      ensures Copying(next, Ser(Compact(es))) && Kept(t0) && writePos == End(Compact(es))
      ensures flash.Img().Bank(currentBank) == old(flash.Img()).Bank(currentBank)
      ensures old(flash.trace) <= flash.trace
    {
      hide Holds, Unique, Ser, Live, Recovers, Compact, Kill, Be32, Head, Erased;
      hide TagStore.Kept, TagStore.Copying, TagStore.Open;
      ghost var bank := flash.Img().Bank(currentBank);
      writePos := 8;
      var it := IteratorInit();
      ghost var k := 0;
      CompactNothing(es);
      while it.tag != NO_TAG
        invariant At(it, k) && flash.Img().Bank(currentBank) == bank
        invariant Copying(next, Ser(Compact(es[..k]))) && Kept(t0) && writePos == End(Compact(es[..k]))
        invariant old(flash.trace) <= flash.trace
        decreases |es| - k
      {
        NotMarked(bank, hb, es, rest, k);
        CompactSer(es, k);
        if it.tag != 0 {
          FitsNext(bank, hb, es, rest, k);
          writePos := CopyEntry(next, it.offset, it.len, writePos, k, Ser(Compact(es[..k])), t0);
        }
        it := FetchNext(it, k);
        k := k + 1;
      }
      AllVisited(bank, hb, es, rest, k);
    }

    /** Erase the next bank if needed; the current one stays what start-up finds. */
    method PrepareNext(next: nat)
      requires Open() && Unique(es) && next == 1 - currentBank
      modifies flash, flash.bank0, flash.bank1
      ensures Copying(next, []) && Kept(|old(flash.trace)|)
      ensures flash.Img().Bank(currentBank) == old(flash.Img()).Bank(currentBank)
      ensures old(flash.trace) <= flash.trace
    {
      hide Holds, Unique, Live, Recovers, HasMagic, Erased, Stale;
      ErasedSplit(flash.size);
      BlankStale(Erased(flash.size - 8), hb);
      EraseBank(next);
      if rest != [] { CopyingRecovers(next, []); }
    }

    /** Write the header of the next bank, which makes it current. */
    method SwitchBank(next: nat, writePos: nat)
      requires Copying(next, Ser(Compact(es))) && Unique(es) && writePos == End(Compact(es))
      modifies this, flash, flash.bank0, flash.bank1
      ensures Open() && es == Compact(old(es)) && rest == Erased(flash.size - End(es)) && writeOffset == writePos
      ensures currentBank == next && hb == (old(hb) + 1) % 4 && flash.trace == old(flash.trace) + [flash.Img()]
    {
      hide Unique, Ser, Compact, Erased, Header, HasMagic;
      ghost var bank, done := flash.Img().Bank(currentBank), Compact(es);
      var epoch := flash.Read(currentBank, 7, 1);
      HeaderByte(bank, hb, es, rest);
      var hb' := (epoch[0] as int + 1) % 4;
      MigratedHolds(bank, hb, es, rest, hb');
      HoldsMagic(bank, hb, es, rest);
      hide Holds;
      ghost var room := flash.size - 8 - |Ser(done)|;
      Regroup(Erased(8), Ser(done), Erased(room));
      Regroup(Header(hb'), Ser(done), Erased(room));
      WriteHeader(next, hb', Ser(done) + Erased(room));
      currentBank, writeOffset := next, writePos;
      hb, es, rest := hb', done, Erased(flash.size - End(done));
    }

    /** Move the live entries to the other bank and make it current. */
    method Migrate()
      requires Open() && Unique(es)
      modifies this, flash, flash.bank0, flash.bank1
      ensures Valid() && es == Compact(old(es)) && rest == Erased(flash.size - End(es))
      ensures Map() == old(Map()) && currentBank == 1 - old(currentBank) && hb == (old(hb) + 1) % 4
      ensures old(Durable()) ==> Durable()
      ensures old(flash.trace) <= flash.trace
      ensures old(Durable()) ==> SafeSince(|old(flash.trace)|, old(Map()), old(Map()))
    {
      hide Holds, Unique, Ser, Live, Recovers, Compact, Copying, Stale;
      var next := 1 - currentBank;
      NoRoomLost();
      CompactUnique(es);
      CompactLive(es);
      ghost var t0 := |flash.trace|;
      PrepareNext(next);
      var writePos := CopyLive(next, t0);
      SwitchBank(next, writePos);
      if rest != [] {
        DedupeUnique(es);
        RecoversBy(flash.Img(), flash.size, Live(es), currentBank, hb, es, rest);
      }
    }

    // ----- the three operations

    /** Offset and length of the first entry with the tag; offset 0 when there is none. */
    method FindTag(tag: u32) returns (tagIndex: nat, tagLen: nat)
      requires Open()
      ensures var k := First(es, tag);
        && (k < |es| <==> tagIndex != 0)
        && (k < |es| ==> (tagIndex + 8 + tagLen <= flash.size
                          && flash.Img().Bank(currentBank)[tagIndex + 8..tagIndex + 8 + tagLen] == es[k].val))
    {
      hide Live, Holds, Ser, Stale, Be32, First;
      tagIndex, tagLen := 0, 0;
      var it := IteratorInit();
      ghost var k := 0;
      while it.tag != NO_TAG
        invariant At(it, k) && tagIndex == 0
        invariant forall i :: 0 <= i < k ==> es[i].tag != tag
        decreases |es| - k
      {
        NotMarked(flash.Img().Bank(currentBank), hb, es, rest, k);
        if it.tag == tag {
          FirstIs(es, tag, k);
          EntryAt(flash.Img().Bank(currentBank), hb, es, rest, k);
          return it.offset, it.len;
        }
        it := FetchNext(it, k);
        k := k + 1;
      }
      AllVisited(flash.Img().Bank(currentBank), hb, es, rest, k);
      FirstIs(es, tag, k);
    }

    /** What a lookup is after: the value of the first entry with the tag, and nothing when there
        is none. */
    ghost function Sought(tag: int): seq<byte>
      reads this
    {
      var k := First(es, tag);
      if k < |es| then es[k].val else []
    }

    /** For every tag but 0 that is the map; tag 0 finds deleted entries. */
    lemma SoughtIsMap(tag: int)
      requires Valid() && tag != 0
      ensures Sought(tag) == if tag in Map() then Map()[tag] else []
    {
      hide Live, Holds, Ser, Stale, Unique;
      LiveIsEntry(es, tag);
      if First(es, tag) < |es| { LiveValue(es, First(es, tag)); }
    }

    /** The value's prefix that fits the buffer; 0 when the tag is absent; the length when
        there is no buffer.  Tag 0 finds the first deleted entry, if any. */
    method GetTag(tag: u32, buffer: array?<byte>, bufferSize: nat) returns (n: int)
      requires Valid()
      requires buffer != null ==> bufferSize <= buffer.Length && buffer != flash.bank0 && buffer != flash.bank1
      modifies if buffer == null then {} else {buffer}
      ensures Valid() && Map() == old(Map())
      ensures Fetched(n, buffer, old(if buffer == null then [] else buffer[..]), Sought(tag), bufferSize)
      ensures tag != 0 ==> Sought(tag) == if tag in Map() then Map()[tag as int] else []
    {
      hide Live, Holds, Ser, Stale, Be32, First, Unique, Erased;
      if tag != 0 { SoughtIsMap(tag); }
      var tagIndex, tagLen := FindTag(tag);
      if tagIndex == 0 { return 0; }
      if buffer == null { return tagLen; }
      n := Min(bufferSize, tagLen);
      var data := flash.Read(currentBank, tagIndex + 8, n);
      SubSlice(flash.Img().Bank(currentBank), tagIndex + 8, tagIndex + 8 + tagLen, 0, n);
      forall i | 0 <= i < n { buffer[i] := data[i]; }
      assert buffer[..n] == data;
    }

    method DeleteTag(tag: u32)
      requires Valid()
      modifies this`es, flash, flash.bank0, flash.bank1
      ensures Valid() && Map() == old(Map()) - {tag as int}
      ensures old(flash.trace) <= flash.trace && Durable() == old(Durable())
      ensures Durable() ==> SafeSince(|old(flash.trace)|, old(Map()), Map())
    {
      hide Live, Holds, Ser, Kill, Recovers, Unique;
      ghost var es0, t0 := es, |flash.trace|;
      assert es[..|es|] == es;
      DeleteTagUntilOffset(tag, writeOffset, |es|);
      KillUnique(es0, tag, |es0|);
      KillLive(es0, tag);
      KillSize(es0, tag, |es0|, |es0|);
      assert es[..|es|] == es;
      if rest != [] {
        forall i | t0 <= i < |flash.trace|
          ensures Recovers(flash.trace[i], flash.size, Live(es0)) || Recovers(flash.trace[i], flash.size, Live(es))
        {
          DeletingRecovers(flash.trace[i], es0, tag);
        }
      }
    }

    /** In the middle of a deletion the tag is either still there or already gone. */
    lemma DeletingRecovers(img: Image, es0: seq<Entry>, tag: u32)
      requires Open() && Deleting(img, es0, tag, |es0|) && Unique(es0) && rest != []
      ensures Recovers(img, flash.size, Live(es0)) || Recovers(img, flash.size, Live(es0) - {tag as int})
    {
      hide Live, Holds, Ser, Kill, Recovers, Unique;
      var k: nat :| k <= |es0| && Current(img, flash.size, currentBank, hb, Kill(es0, tag, k), rest);
      var ks := Kill(es0, tag, k);
      KillUnique(es0, tag, k);
      DedupeUnique(ks);
      KillSome(es0, tag, k);
      RecoversBy(img, flash.size, Live(ks), currentBank, hb, ks, rest);
    }

    /** What the new entry leaves free once written, after a migration if one is needed;
        negative when the entry does not fit. */
    ghost function Left(n: nat): int
      reads this
    {
      var offset := if writeOffset + 8 + n > flash.size then End(Compact(es)) else writeOffset;
      flash.size - offset - 8 - n
    }

    /** Left is negative exactly when the live data and the new entry exceed a bank. */
    lemma LeftFits(n: nat)
      requires Valid()
      ensures Left(n) < 0 <==> 8 + Room(Map()) + 8 + n > flash.size
      ensures Left(n) <= flash.size - 8 - Room(Map()) - 8 - n
    {
      hide Live, Holds, Ser, Unique, Compact, Room, Erased;
      RoomCompact(es);
      CompactSize(es);
    }

    /** Behind the new entry the iterator stops at the end of the bank or reads a header inside it
        exactly if nothing or at least a header's length is left; with 1 to 7 bytes it reads past
        the end. */
    lemma NextHeaderInsideIff(n: nat)
      requires Valid() && Left(n) >= 0
      ensures var base := if writeOffset + 8 + n > flash.size then Compact(es) else es;
        forall e: Entry :: |e.val| == n ==>
          var end := End(base + [e]);
          && flash.size - end == Left(n)
          && (end >= flash.size || end + 8 <= flash.size <==> Left(n) == 0 || Left(n) >= 8)
    {
      hide Holds, Live, Unique, Compact, Erased;
      var base := if writeOffset + 8 + n > flash.size then Compact(es) else es;
      forall e: Entry | |e.val| == n
        ensures End(base + [e]) == End(base) + 8 + n
      {
        SerAppend(base, [e]);
        SerOne(e);
      }
    }

    /** Append an entry: value first, then its header. */
    method AppendEntry(tag: u32, data: Value)
      requires Valid() && tag != 0 && tag != NO_TAG && 8 + |data| <= |rest| && NoEntry(Erased(|rest| - 8 - |data|))
      modifies this, flash, flash.bank0, flash.bank1
      ensures Open() && es == old(es) + [Entry(tag, data)] && rest == Erased(old(|rest|) - 8 - |data|)
      ensures currentBank == old(currentBank) && writeOffset == old(writeOffset)
      ensures old(flash.trace) <= flash.trace
      ensures Durable() ==> SafeSince(|old(flash.trace)|, old(Map()), old(Map())[tag as int := data])
    {
      hide Live, Holds, Ser, Unique, Recovers, MayProgram, Program, Head, Stale, Dedupe, Erased;
      ghost var e, t0, n, es0 := Entry(tag, data), |flash.trace|, |rest|, es;
      assert rest == Erased(n);
      ProgramValue(flash.Img().Bank(currentBank), hb, es, n, data);
      WriteBlock(currentBank, writeOffset + 8, data);
      rest := Erased(8) + data + Erased(n - 8 - |data|);
      DedupeUnique(es);
      RecoversBy(flash.Img(), flash.size, Live(es), currentBank, hb, es, rest);
      var entry := ToBe32(tag) + ToBe32(|data|);
      assert entry == Head(e) by { HeadIs(e); }
      ProgramHead(flash.Img().Bank(currentBank), hb, es, Erased(n - 8 - |data|), e);
      WriteBlock(currentBank, writeOffset, entry);
      es, rest := es + [e], Erased(n - 8 - |data|);
      if rest != [] {
        AppendedYields(es0, e, rest);
        RecoversBy(flash.Img(), flash.size, Live(es0)[tag as int := data], currentBank, hb, es, rest);
      }
    }

    /** Append the entry and drop the older instance of its tag. */
    method ReplaceEntry(tag: u32, data: Value)
      requires Valid() && tag != 0 && tag != NO_TAG && 8 + |data| <= |rest|
      requires |rest| == 8 + |data| || 16 + |data| <= |rest|
      modifies this, flash, flash.bank0, flash.bank1
      ensures Valid() && |rest| == old(|rest|) - 8 - |data| && currentBank == old(currentBank)
      ensures Map() == old(Map())[tag as int := data]
      ensures old(flash.trace) <= flash.trace
      ensures Durable() ==> SafeSince(|old(flash.trace)|, old(Map()), Map())
    {
      hide Live, Holds, Ser, Unique, Recovers, Kill, Erased, NoEntry;
      ghost var es0, e := es, Entry(tag, data);
      LeftNoEntry(|rest| - 8 - |data|);
      AppendEntry(tag, data);
      ghost var es1, t2 := es, |flash.trace|;
      assert es1[..|es0|] == es0;
      DeleteTagUntilOffset(tag, writeOffset, |es0|);
      DedupeAppended(es0, e, |es0|);
      writeOffset := writeOffset + 8 + |data|;
      SerAppend(es0, [e]);
      SerOne(e);
      KillSize(es1, tag, |es0|, |es1|);
      assert es1[..|es1|] == es1 && es[..|es|] == es;
      if rest != [] {
        forall i | t2 <= i < |flash.trace|
          ensures Recovers(flash.trace[i], flash.size, Live(es))
        {
          ReplacingRecovers(flash.trace[i], es0, e);
        }
      }
    }

    /** Store a value: 0 on success, 2 when the live data and the new entry do not fit a bank. */
    method StoreTag(tag: u32, data: Value) returns (r: int)
      requires Valid() && tag != 0 && tag != NO_TAG
      requires Left(|data|) <= 0 || 8 <= Left(|data|)
      modifies this, flash, flash.bank0, flash.bank1
      ensures Valid() && (r == 0 || r == 2)
      ensures r == 2 <==> 8 + Room(old(Map())) + 8 + |data| > flash.size
      ensures r == 0 ==> Map() == old(Map())[tag as int := data] && |rest| == old(Left(|data|))
      ensures r == 2 ==> Map() == old(Map()) && (old(Durable()) ==> Durable())
      ensures currentBank ==
              if old(writeOffset) + 8 + |data| > flash.size then 1 - old(currentBank) else old(currentBank)
      ensures old(flash.trace) <= flash.trace
      ensures old(Durable()) && Durable() ==> SafeSince(|old(flash.trace)|, old(Map()), Map())
    {
      hide Live, Holds, Ser, Unique, Recovers, Kill, Compact, Room, Erased, NoEntry;
      RoomCompact(es);
      CompactSize(es);
      EndIs();
      if writeOffset + 8 + |data| > flash.size {
        Migrate();
        EndIs();
      }
      if writeOffset + 8 + |data| > flash.size {
        return 2;
      }
      ReplaceEntry(tag, data);
      return 0;
    }

    /** While the older instance is being deleted, start-up yields the new map. */
    lemma ReplacingRecovers(img: Image, es0: seq<Entry>, e: Entry)
      requires Open() && Deleting(img, es0 + [e], e.tag, |es0|) && Unique(es0) && e.tag != 0 && rest != []
      ensures Recovers(img, flash.size, Live(es0)[e.tag as int := e.val])
    {
      hide Live, Holds, Ser, Kill, Recovers, Unique, Dedupe;
      var k: nat :| k <= |es0| && Current(img, flash.size, currentBank, hb, Kill(es0 + [e], e.tag, k), rest);
      DedupeAppended(es0, e, k);
      RecoversBy(img, flash.size, Live(es0)[e.tag as int := e.val], currentBank, hb, Kill(es0 + [e], e.tag, k), rest);
    }

    lemma EndIs()
      requires Valid()
      ensures writeOffset + |rest| == flash.size && rest == Erased(|rest|) && (rest != [] ==> |rest| >= 8)
    {
      EndAt(flash.Img().Bank(currentBank), hb, es, rest);
    }

    // ----- start-up

    /** Make a blank bank 0 current: a store without data.  Bank 1 is left as it is, so that this
        is a proper store exactly if bank 1 does not claim an epoch that disagrees. */
    method Format()
      requires flash.Valid() && 16 <= flash.size
      modifies this, flash, flash.bank0, flash.bank1
      ensures currentBank == 0 && writeOffset == 8 && hb == 0 && es == [] && rest == Erased(flash.size - 8)
      ensures Map() == map[] && Holds(flash.Img().b0, 0, [], rest) && flash.Img().b1 == old(flash.Img().b1)
      ensures old(flash.trace) <= flash.trace
      ensures Valid() <==> Yielding(flash.Img().b1)
      ensures !HasMagic(flash.Img().b1) ==> SafeSince(|old(flash.trace)|, map[], map[])
    {
      hide Stale, HasMagic, Yielding, Erased, Recovers, Unique;
      ErasedSplit(flash.size);
      BlankStale(Erased(flash.size - 8), 0);
      EraseBank(0);
      BlankRecovers(flash.Img(), flash.size);
      WriteHeader(0, 0, Erased(flash.size - 8));
      currentBank, writeOffset := 0, 8;
      hb, es, rest := 0, [], Erased(flash.size - 8);
      FormattedHolds(flash.Img().b0, flash.size);
      YieldingStale(flash.Img().b1);
      if !HasMagic(flash.Img().b1) {
        RecoversBy(flash.Img(), flash.size, map[], 0, 0, [], rest);
      }
    }

    /** Tag and offset of the last entry (tag 0 when there is none), and the end of the log. */
    method FindEnd() returns (lastTag: u32, lastOffset: nat, end: nat)
      requires Open()
      ensures end == End(es)
      ensures lastTag == if es == [] then 0 else es[|es| - 1].tag
      ensures es != [] ==> lastOffset == End(es[..|es| - 1])
    {
      hide Live, Holds, Ser, Be32, NoEntry;
      ghost var bank := flash.Img().Bank(currentBank);
      lastTag, lastOffset := 0, 0;
      var it := IteratorInit();
      ghost var k := 0;
      while it.tag != NO_TAG
        invariant At(it, k)
        invariant k == 0 ==> lastTag == 0
        invariant k > 0 ==> lastTag == es[k - 1].tag && lastOffset == End(es[..k - 1])
        decreases |es| - k
      {
        NotMarked(bank, hb, es, rest, k);
        lastTag := it.tag;
        lastOffset := it.offset;
        it := FetchNext(it, k);
        k := k + 1;
      }
      AllVisited(bank, hb, es, rest, k);
      end := it.offset;
    }

    /** Find the end of the log, drop an older instance of the last tag, and migrate away from
        debris behind the end.  A completely full bank is given up. */
    method Adopt()
      requires Open() && (rest != [] ==> Unique(Dedupe(es)))
      modifies this, flash, flash.bank0, flash.bank1
      ensures old(Durable()) ==> Valid() && Durable() && Map() == Live(Dedupe(old(es)))
      ensures old(flash.trace) <= flash.trace
      ensures old(Durable()) ==> SafeSince(|old(flash.trace)|, Live(Dedupe(old(es))), Live(Dedupe(old(es))))
      ensures !old(Durable()) ==> currentBank == -1 && flash.Img() == old(flash.Img())
      ensures old(Tidy(es, rest)) ==> flash.trace == old(flash.trace)
    {
      hide Live, Holds, Ser, Unique, Recovers, Kill, Erased, NoEntry, Be32, Dedupe, Stale;
      ghost var bank := flash.Img().Bank(currentBank);
      var lastTag, lastOffset, end := FindEnd();
      writeOffset := end;
      EndAt(bank, hb, es, rest);
      if writeOffset < flash.size {
        ghost var m := Live(Dedupe(es));
        if lastTag != 0 {
          DropOlder(lastTag, lastOffset);
        } else {
          DedupeNothing(es);
        }
        ghost var t1 := |flash.trace|;
        EndAt(flash.Img().Bank(currentBank), hb, es, rest);
        var erased := TestErased(currentBank, writeOffset);
        if !erased {
          Migrate();
        }
      } else {
        currentBank := -1;
      }
    }

    /** Delete the older instances of the last entry's tag. */
    method DropOlder(lastTag: u32, lastOffset: nat)
      requires Open() && Durable() && es != [] && Unique(Dedupe(es))
      requires lastTag == es[|es| - 1].tag && lastTag != 0 && lastOffset == End(es[..|es| - 1])
      modifies flash, flash.bank0, flash.bank1, this`es
      ensures Open() && es == Dedupe(old(es)) && End(es) == End(old(es))
      ensures old(flash.trace) <= flash.trace
      ensures SafeSince(|old(flash.trace)|, Live(Dedupe(old(es))), Live(Dedupe(old(es))))
      ensures old(Unique(es)) ==> flash.trace == old(flash.trace)
    {
      hide Live, Holds, Ser, Unique, Recovers, Kill, Erased, NoEntry, Stale;
      ghost var es0, t0 := es, |flash.trace|;
      if Unique(es) { LastIsNew(es); }
      DeleteTagUntilOffset(lastTag, lastOffset, |es| - 1);
      KillSize(es0, lastTag, |es0| - 1, |es0|);
      assert es0[..|es0|] == es0 && es[..|es|] == es;
      forall i | t0 <= i < |flash.trace|
        ensures Recovers(flash.trace[i], flash.size, Live(Dedupe(es0)))
      {
        DroppingRecovers(flash.trace[i], es0);
      }
    }

    lemma LastIsNew(es: seq<Entry>)
      requires Unique(es) && es != [] && es[|es| - 1].tag != 0
      ensures forall i :: 0 <= i < |es| - 1 ==> es[i].tag != es[|es| - 1].tag
    {
    }

    lemma DroppingRecovers(img: Image, es0: seq<Entry>)
      requires Open() && es0 != [] && es0[|es0| - 1].tag != 0 && rest != [] && Unique(Dedupe(es0))
      requires Deleting(img, es0, es0[|es0| - 1].tag, |es0| - 1)
      ensures Recovers(img, flash.size, Live(Dedupe(es0)))
    {
      hide Live, Holds, Ser, Unique, Recovers, Kill, Dedupe;
      var tag := es0[|es0| - 1].tag;
      var k: nat :| k <= |es0| - 1 && Current(img, flash.size, currentBank, hb, Kill(es0, tag, k), rest);
      DedupeAgain(es0, k);
      RecoversBy(img, flash.size, Live(Dedupe(es0)), currentBank, hb, Kill(es0, tag, k), rest);
    }

    /** Flash that start-up gives up: the current bank has no cell left, or no bank is current. */
    ghost predicate GivenUp()
      reads flash.bank0, flash.bank1
    {
      16 <= flash.size && |flash.Img().b0| == |flash.Img().b1| == flash.size
      && (Latest(flash.Img()) < 0 || exists cur, hb, es :: Current(flash.Img(), flash.size, cur, hb, es, []))
    }

    /** Start-up.  From any flash that recovers to m the store holds m again, and a power loss
        at any point of start-up itself leaves flash that still recovers to m.  Flash that is
        given up gets an empty log in bank 0; bank 1 keeps its content, and the store is a proper
        one exactly if bank 1 then yields to bank 0. */
    method Init(ghost m: TagMap, ghost lost: bool)
      requires flash.Valid()
      requires if lost then GivenUp() else Recovers(flash.Img(), flash.size, m)
      modifies this, flash, flash.bank0, flash.bank1
      ensures old(flash.trace) <= flash.trace
      ensures !lost ==> Valid() && Durable() && Map() == m && SafeSince(|old(flash.trace)|, m, m)
      ensures lost ==> Map() == map[] && currentBank == 0 && Holds(flash.Img().b0, 0, [], Erased(flash.size - 8))
      ensures lost ==> flash.Img().b1 == old(flash.Img().b1) && (Valid() <==> Yielding(flash.Img().b1))
      ensures !lost && old(Clean(flash.Img(), flash.size)) ==> flash.trace == old(flash.trace)
    {
      hide Live, Holds, Ser, Unique, Kill, Erased, NoEntry, Be32, Dedupe, Stale, HasMagic, Latest, Yielding;
      StartImage(flash.Img(), flash.size, m, lost);
      currentBank := GetLatestBank();
      if currentBank >= 0 {
        ghost var c, h, e, r;
        if lost {
          c, h, e :| Current(flash.Img(), flash.size, c, h, e, []);
          r := [];
        } else {
          c, h, e, r :| Current(flash.Img(), flash.size, c, h, e, r) && Yields(e, r, m);
        }
        LatestIsCurrent(flash.Img(), flash.size, c, h, e, r);
        hb, es, rest := h, e, r;
        if Clean(flash.Img(), flash.size) { CleanIsTidy(flash.Img(), flash.size, c, h, e, r); }
        Adopt();
      }
      if currentBank < 0 {
        if !lost { NotClean(flash.Img(), flash.size); }
        Format();
      }
    }

    /** Flash between operations recovers to the map itself, and start-up writes nothing to it. */
    lemma ValidRecovers()
      requires Valid() && Durable()
      ensures Recovers(flash.Img(), flash.size, Map()) && Clean(flash.Img(), flash.size)
    {
      assert Tidy(es, rest);
      DedupeUnique(es);
      RecoversBy(flash.Img(), flash.size, Live(es), currentBank, hb, es, rest);
    }

    /** What a caller computes before a store: the bytes it would leave free. */
    method SpaceLeft(n: nat) returns (left: int)
      requires Valid()
      ensures left == Left(n)
    {
      hide Live, Holds, Ser, Be32, NoEntry, Compact, Erased;
      var offset := writeOffset;
      if writeOffset + 8 + n > flash.size {
        ghost var bank := flash.Img().Bank(currentBank);
        offset := 8;
        var it := IteratorInit();
        ghost var k := 0;
        CompactNothing(es);
        while it.tag != NO_TAG
          invariant At(it, k) && offset == End(Compact(es[..k]))
          decreases |es| - k
        {
          NotMarked(bank, hb, es, rest, k);
          CompactSer(es, k);
          if it.tag != 0 { offset := offset + 8 + it.len; }
          it := FetchNext(it, k);
          k := k + 1;
        }
        AllVisited(bank, hb, es, rest, k);
      }
      left := flash.size - offset - 8 - n;
    }

    lemma NoRoomLost()
      requires Open()
      ensures End(Compact(es)) + |rest| <= flash.size
    {
      MigratedHolds(flash.Img().Bank(currentBank), hb, es, rest, 0);
    }
  }

  /** Index of the first entry with the tag, or the number of entries. */
  ghost function First(es: seq<Entry>, tag: int): (k: nat)
    ensures k <= |es| && (k < |es| ==> es[k].tag == tag)
    ensures forall i :: 0 <= i < k ==> es[i].tag != tag
  {
    if es == [] || es[0].tag == tag then 0 else 1 + First(es[1..], tag)
  }

  lemma FirstIs(es: seq<Entry>, tag: int, k: nat)
    requires k <= |es| && (k < |es| ==> es[k].tag == tag) && forall i :: 0 <= i < k ==> es[i].tag != tag
    ensures First(es, tag) == k
  {
    hide First;
  }

  /** The result of looking up a value: its length without a buffer, otherwise the prefix that
      fits, and nothing else changed. */
  ghost predicate Fetched(n: int, buffer: array?<byte>, before: seq<byte>, val: seq<byte>, bufferSize: nat)
    reads if buffer == null then {} else {buffer}
  {
    if buffer == null then n == |val|
    else
      && n == Min(bufferSize, |val|) && 0 <= n <= buffer.Length == |before|
      && buffer[..n] == val[..n] && buffer[n..] == before[n..]
  }

  lemma NextPiece(bank: seq<byte>, offset: nat, from: nat, n: nat, copied: seq<byte>)
    requires offset <= from <= from + n <= |bank|
    ensures bank[offset..from] + bank[from..from + n] == bank[offset..from + n]
    ensures copied + bank[offset..from] + bank[from..from + n] == copied + bank[offset..from + n]
  {
  }

  lemma Regroup(a: seq<byte>, b: seq<byte>, c: seq<byte>)
    ensures a + b + c == a + (b + c)
  {
  }

  lemma BlankRecovers(img: Image, size: nat)
    requires 16 <= size < 0x8000_0000 && |img.b0| == |img.b1| == size && img.b0 == Erased(size)
    ensures !HasMagic(img.b1) ==> Recovers(img, size, map[])
  {
    ErasedSplit(size);
    BlankStale(Erased(size - 8), 0);
  }

  lemma FormattedHolds(bank: seq<byte>, size: nat)
    requires 16 <= size < 0x8000_0000 && bank == Header(0) + Erased(size - 8)
    ensures Holds(bank, 0, [], Erased(size - 8)) && End([]) == 8
    ensures Yields([], Erased(size - 8), map[])
  {
    assert Header(0) + [] + Erased(size - 8) == Header(0) + Erased(size - 8);
    assert Erased(size - 8)[..4] == Erased(4);
  }

  lemma DedupeNothing(es: seq<Entry>)
    requires es == [] || es[|es| - 1].tag == 0
    ensures Dedupe(es) == es
  {
  }

  /** Either no bank has a header and there is no data, or the picked bank is the current one. */
  lemma StartImage(img: Image, size: nat, m: TagMap, lost: bool)
    requires 16 <= size && |img.b0| == |img.b1| == size
    requires if lost then Latest(img) < 0 || exists cur, hb, es :: Current(img, size, cur, hb, es, [])
             else Recovers(img, size, m)
    ensures Latest(img) < 0 && !lost ==> m == map[] && !HasMagic(img.b0) && !HasMagic(img.b1)
    ensures Latest(img) >= 0 && !lost ==>
            exists cur, hb, es, rest :: Current(img, size, cur, hb, es, rest) && Yields(es, rest, m)
  {
    forall cur, hb, es, rest | Current(img, size, cur, hb, es, rest)
      ensures Latest(img) == cur
    {
      LatestIsCurrent(img, size, cur, hb, es, rest);
    }
  }

  /** Bank 1 does not get in the way of an empty log of epoch 0 in bank 0. */
  ghost predicate Yielding(bank: seq<byte>)
    ensures !HasMagic(bank) ==> Yielding(bank)
  {
    !HasMagic(bank) || bank[7] % 4 == 3
  }

  lemma YieldingStale(bank: seq<byte>)
    ensures Yielding(bank) <==> Stale(bank, 0)
  {
  }

  /** What the next start-up picks while bank 0 carries epoch 0: bank 0 if bank 1 yields, bank 1
      if it carries epoch 1, and otherwise none. */
  lemma NextPick(img: Image)
    requires HasMagic(img.b0) && img.b0[7] == 0 && |img.b1| >= 8
    ensures Latest(img) == if Yielding(img.b1) then 0 else if img.b1[7] % 4 == 1 then 1 else -1
  {
  }

  /** With epoch 1 in bank 1 the next start-up returns to the log in bank 1, whatever has been
      stored in bank 0 since, until bank 1 is erased. */
  lemma OldBankReturns(img: Image, size: nat, hb: byte, es: seq<Entry>, rest: seq<byte>)
    requires |img.b0| == |img.b1| == size && HasMagic(img.b0) && img.b0[7] == 0
    requires Holds(img.b1, hb, es, rest) && hb % 4 == 1
    ensures Latest(img) == 1 && Current(img, size, 1, hb, es, rest)
    ensures Yields(es, rest, Live(Dedupe(es))) ==> Recovers(img, size, Live(Dedupe(es)))
  {
    hide Dedupe, Live, Ser;
    HoldsMagic(img.b1, hb, es, rest);
    NextPick(img);
    if Yields(es, rest, Live(Dedupe(es))) {
      RecoversBy(img, size, Live(Dedupe(es)), 1, hb, es, rest);
    }
  }

  /** The first step of a migration settles the matter: once bank 1 is erased the log in bank 0 is
      the current one, and when it has been copied to bank 1 with epoch 1, that one is. */
  lemma MigrationSettles(img: Image, size: nat, es: seq<Entry>, rest: seq<byte>, copy: seq<Entry>, rest': seq<byte>)
    requires |img.b0| == |img.b1| == size && Holds(img.b0, 0, es, rest)
    ensures img.b1 == Erased(size) ==> Latest(img) == 0 && Current(img, size, 0, 0, es, rest)
    ensures Holds(img.b1, 1, copy, rest') ==> Latest(img) == 1 && Current(img, size, 1, 1, copy, rest')
  {
    hide Ser;
    HoldsMagic(img.b0, 0, es, rest);
    if img.b1 == Erased(size) {
      ErasedSplit(size);
      BlankStale(Erased(size - 8), 0);
      LatestIsCurrent(img, size, 0, 0, es, rest);
    }
    if Holds(img.b1, 1, copy, rest') {
      HoldsMagic(img.b1, 1, copy, rest');
      LatestIsCurrent(img, size, 1, 1, copy, rest');
    }
  }

  /** Such flash exists: bank 0 full with one entry in epoch 2, bank 1 empty in epoch 1.  Giving
      bank 0 up leaves flash whose next start-up picks bank 1. */
  lemma StaleAfterGivingUp(tag: u32)
    requires tag != NO_TAG
    ensures var full := Image(Header(2) + Head(Entry(tag, [])), Header(1) + Erased(8));
      && Current(full, 16, 0, 2, [Entry(tag, [])], [])
      && !Yielding(full.b1) && Latest(Image(Header(0) + Erased(8), full.b1)) == 1
  {
    var e := Entry(tag, []);
    SerOne(e);
    assert Header(2) + Ser([e]) + [] == Header(2) + Head(e);
    FormattedHolds(Header(0) + Erased(8), 16);
    HoldsMagic(Header(0) + Erased(8), 0, [], Erased(8));
    NextPick(Image(Header(0) + Erased(8), Header(1) + Erased(8)));
  }

  lemma LeftNoEntry(n: nat)
    requires n == 0 || n >= 8
    ensures NoEntry(Erased(n))
  {
    assert n >= 8 ==> Erased(n)[..4] == Erased(4);
    assert n == 0 ==> Erased(n) == [];
  }

  lemma HeadIs(e: Entry)
    ensures Head(e) == ToBe32(e.tag) + ToBe32(|e.val|)
  {
  }

  lemma AppendedYields(es: seq<Entry>, e: Entry, rest: seq<byte>)
    requires Unique(es) && e.tag != 0 && rest != []
    ensures Yields(es + [e], rest, Live(es)[e.tag as int := e.val])
  {
    KillNone(es + [e], e.tag);
    DedupeAppended(es, e, 0);
  }

  /** Deleting a unique tag in a prefix leaves the map as it was or without the tag. */
  lemma KillSome(es: seq<Entry>, tag: int, k: nat)
    requires Unique(es) && k <= |es|
    ensures Live(Kill(es, tag, k)) == Live(es) || Live(Kill(es, tag, k)) == Live(es) - {tag}
  {
    if tag == 0 || forall i :: 0 <= i < k ==> es[i].tag != tag {
      assert Kill(es, tag, k) == es;
    } else {
      var i :| 0 <= i < k && es[i].tag == tag;
      assert forall j :: k <= j < |es| ==> es[j].tag != tag;
      assert Kill(es, tag, k) == Kill(es, tag, |es|);
      KillLive(es, tag);
    }
  }

  lemma AppendErased(copied: seq<byte>, room: nat, buffer: seq<byte>)
    requires |buffer| <= room
    ensures var bank := Erased(8) + copied + Erased(room);
            && MayProgram(bank, 8 + |copied|, buffer)
            && Program(bank, 8 + |copied|, buffer) == Erased(8) + (copied + buffer) + Erased(room - |buffer|)
  {
    var x := Erased(8) + copied;
    assert x + Erased(room) + [] == Erased(8) + copied + Erased(room);
    ProgramErased(x, room, [], buffer);
    assert x + buffer + Erased(room - |buffer|) + [] == Erased(8) + (copied + buffer) + Erased(room - |buffer|);
  }

  /** A bank without header is never mistaken for a current one. */
  lemma BlankStale(body: seq<byte>, hb: byte)
    ensures !HasMagic(Erased(8) + body)
    ensures Stale(Erased(8) + body, hb)
  {
    var bank := Erased(8) + body;
    assert bank[..7][0] == 0xFF;
  }

  lemma ErasedSplit(n: nat)
    requires n >= 8
    ensures Erased(n) == Erased(8) + Erased(n - 8) == Erased(8) + [] + Erased(n - 8)
  {
  }

  lemma CompactNothing(es: seq<Entry>)
    ensures Ser(Compact(es[..0])) == []
  {
  }

  /** What visiting entry k adds to the copied bytes. */
  lemma CompactSer(es: seq<Entry>, k: nat)
    requires k < |es|
    ensures Ser(Compact(es[..k + 1])) ==
            if es[k].tag == 0 then Ser(Compact(es[..k])) else Ser(Compact(es[..k])) + (Head(es[k]) + es[k].val)
  {
    CompactStep(es, k);
    SerAppend(Compact(es[..k]), [es[k]]);
    SerOne(es[k]);
  }

  /** The compacted prefix and the next entry fit in a bank. */
  lemma FitsNext(bank: seq<byte>, hb: byte, es: seq<Entry>, rest: seq<byte>, k: nat)
    requires Holds(bank, hb, es, rest) && k < |es|
    ensures End(Compact(es[..k])) + 8 + |es[k].val| <= |bank|
  {
    CompactSize(es[..k]);
    EntryAt(bank, hb, es, rest, k);
  }

  lemma AllVisited(bank: seq<byte>, hb: byte, es: seq<Entry>, rest: seq<byte>, k: nat)
    requires Holds(bank, hb, es, rest) && k <= |es| && (k < |es| ==> es[k].tag == NO_TAG)
    ensures k == |es| && es[..k] == es
  {
  }

  lemma HeaderByte(bank: seq<byte>, hb: byte, es: seq<Entry>, rest: seq<byte>)
    requires Holds(bank, hb, es, rest)
    ensures |bank| >= 8 && bank[7..8] == [hb]
  {
  }

  lemma {:induction false} CompactDrop(es: seq<Entry>)
    ensures |Ser(Compact(es))| == |Ser(es)| || |Ser(Compact(es))| + 8 <= |Ser(es)|
    decreases |es|
  {
    if es != [] {
      var init, e := es[..|es| - 1], es[|es| - 1];
      CompactDrop(init);
      assert es == init + [e];
      SerAppend(init, [e]);
      SerOne(e);
      SerAppend(Compact(init), [e]);
    }
  }

  /** The migrated bank is well formed, and room is never lost by migrating. */
  lemma MigratedHolds(bank: seq<byte>, hb: byte, es: seq<Entry>, rest: seq<byte>, hb': byte)
    requires Holds(bank, hb, es, rest)
    ensures End(Compact(es)) + |rest| <= |bank|
    ensures Holds(Header(hb') + Ser(Compact(es)) + Erased(|bank| - End(Compact(es))), hb', Compact(es),
                  Erased(|bank| - End(Compact(es))))
  {
    var n := |bank| - End(Compact(es));
    CompactDrop(es);
    assert |bank| == End(es) + |rest|;
    forall i | 0 <= i < |Compact(es)|
      ensures Compact(es)[i].tag != NO_TAG
    {
      assert Compact(es)[i] in es;
    }
    assert n >= 8 ==> Erased(n)[..4] == Erased(4);
    assert n == 0 ==> Erased(n) == [];
  }

  lemma KillNone(es: seq<Entry>, tag: int)
    ensures Kill(es, tag, 0) == es
  {
  }

  lemma SameEnds(es: seq<Entry>, k: nat)
    requires k < |es|
    ensures forall j :: 0 <= j <= |es| ==> End(es[k := es[k].(tag := 0)][..j]) == End(es[..j])
  {
    forall j | 0 <= j <= |es|
      ensures End(es[k := es[k].(tag := 0)][..j]) == End(es[..j])
    {
      SameEnd(es, k, j);
    }
  }

  lemma {:induction false} SameEnd(es: seq<Entry>, k: nat, j: nat)
    requires k < |es| && j <= |es|
    ensures End(es[k := es[k].(tag := 0)][..j]) == End(es[..j])
    decreases j
  {
    if j > 0 {
      SerAt(es, j - 1);
      SerAt(es[k := es[k].(tag := 0)], j - 1);
      SameEnd(es, k, j - 1);
    }
  }

  lemma NotYet(bank: seq<byte>, hb: byte, es: seq<Entry>, rest: seq<byte>, k: nat, n: nat)
    requires Holds(bank, hb, es, rest) && k <= |es| && n <= |es| && End(es[..k]) < End(es[..n])
    ensures k < n
  {
    if n < k { EndMonotone(es, n, k); }
  }

  lemma StartOffset(bank: seq<byte>, hb: byte, es: seq<Entry>, rest: seq<byte>)
    requires Holds(bank, hb, es, rest)
    ensures End(es[..0]) == 8 && (|es| > 0 || rest != [])
  {
    assert es[..0] == [];
  }

  lemma EndReached(bank: seq<byte>, hb: byte, es: seq<Entry>, rest: seq<byte>, k: nat)
    requires Holds(bank, hb, es, rest) && k <= |es| && End(es[..k]) >= |bank|
    ensures k == |es|
  {
    EndAt(bank, hb, es, rest);
    EndMonotone(es, k, |es|);
  }

  lemma EndNotReached(bank: seq<byte>, hb: byte, es: seq<Entry>, rest: seq<byte>, k: nat)
    requires Holds(bank, hb, es, rest) && k <= |es| && End(es[..k]) < |bank|
    ensures k < |es| || rest != []
  {
    EndAt(bank, hb, es, rest);
  }
}
