/** The bad-block manager over NAND pages: reading the stored table with fall-back to the
    merge of damaged copies, and the first-time scan that writes 64 copies. */
module BadBlocks {
  import opened Arith
  import opened Sha1Spec
  import opened BadBlockTable
  import S = Sha1

  const BLOCK_SIZE := 0x2_0000
  const PAGES := 64          // per block
  const BLOCKS := 1024
  const BAD_INFO_START := 48
  const BAD_INFO_END := 51
  const DATA_START_NUM := 64
  const DATA_BLOCK_NUM := 960
  const NAND_ID_HYNIX := 0x1500a1ad

  function Blank(n: nat): (r: seq<bv8>)
    ensures |r| == n
  {
    seq(n, _ => 0xFF)
  }

  ghost predicate Whole(pages: seq<seq<bv8>>) {
    |pages| == BLOCKS * PAGES && forall i :: 0 <= i < |pages| ==> |pages[i]| == PAGE_SIZE + 64
  }

  /** NAND pages of 2048 bytes with 64 spare bytes; addresses count half bytes. */
  class Nand {
    var pages: seq<seq<bv8>>

    ghost predicate Valid()
      reads this
    {
      Whole(pages)
    }

    method ReadPage(addr: nat, n: nat) returns (data: seq<bv8>)
      requires Valid() && addr / (2 * PAGE_SIZE) < BLOCKS * PAGES && n <= PAGE_SIZE + 64
      ensures data == pages[addr / (2 * PAGE_SIZE)][..n]
    {
      data := pages[addr / (2 * PAGE_SIZE)][..n];
    }

    method Erase(block: nat)
      requires Valid() && block < BLOCKS
      modifies this
      ensures Valid()
      ensures forall i :: 0 <= i < BLOCKS * PAGES ==>
        pages[i] == if i / PAGES == block then Blank(PAGE_SIZE + 64) else old(pages)[i]
    {
      pages := seq(BLOCKS * PAGES, i requires 0 <= i < BLOCKS * PAGES reads this requires Valid() =>
        if i / PAGES == block then Blank(PAGE_SIZE + 64) else pages[i]);
    }

    /** Program an erased page. */
    method Program(addr: nat, data: Page)
      requires Valid() && addr / (2 * PAGE_SIZE) < BLOCKS * PAGES
      requires pages[addr / (2 * PAGE_SIZE)][..PAGE_SIZE] == Blank(PAGE_SIZE)
      modifies this
      ensures Valid()
      ensures pages == old(pages)[addr / (2 * PAGE_SIZE) := data + old(pages)[addr / (2 * PAGE_SIZE)][PAGE_SIZE..]]
    {
      var i := addr / (2 * PAGE_SIZE);
      pages := pages[i := data + pages[i][PAGE_SIZE..]];
    }
  }

  /** The page at position k of the search: blocks downwards from 51, pages upwards. */
  function Slot(k: nat): (i: nat)
    requires k < 4 * PAGES
    ensures BAD_INFO_START * PAGES <= i < (BAD_INFO_END + 1) * PAGES
  {
    (BAD_INFO_END - k / PAGES) * PAGES + k % PAGES
  }

  /** The stored copies in the order they are read. */
  ghost function Copies(pages: seq<seq<bv8>>): (r: seq<Page>)
    requires Whole(pages)
    ensures |r| == 4 * PAGES && forall k :: 0 <= k < 4 * PAGES ==> r[k] == pages[Slot(k)][..PAGE_SIZE]
  {
    seq(4 * PAGES, k requires 0 <= k < 4 * PAGES => pages[Slot(k)][..PAGE_SIZE])
  }

  lemma PageOfAddress(block: nat, page: nat)
    requires page < PAGES
    ensures (block * BLOCK_SIZE + page * PAGE_SIZE) * 2 / (2 * PAGE_SIZE) == block * PAGES + page
  {
    DivAdd(block * PAGES + page, 0, 2 * PAGE_SIZE);
  }

  lemma SlotOf(block: nat, page: nat)
    requires BAD_INFO_START <= block <= BAD_INFO_END && page < PAGES
    ensures var k := (BAD_INFO_END - block) * PAGES + page;
            k < 4 * PAGES && Slot(k) == block * PAGES + page
  {
    DivAdd(BAD_INFO_END - block, page, PAGES);
  }

  class Manager {
    const nand: Nand
    const table: array<bv8>

    constructor (nand: Nand)
      ensures this.nand == nand && fresh(table) && table.Length == LIST_SIZE
    {
      this.nand := nand;
      table := new bv8[LIST_SIZE](i => 0);
    }

    ghost predicate Valid()
      reads nand
    {
      table.Length == LIST_SIZE && nand.Valid()
    }

    method Clear()
      requires table.Length == LIST_SIZE
      modifies table
      ensures table[..] == NoTable()
    {
      forall i | 0 <= i < table.Length { table[i] := 0; }
    }

    method Load(t: seq<bv8>)
      requires table.Length == LIST_SIZE == |t|
      modifies table
      ensures table[..] == t
    {
      forall i | 0 <= i < table.Length { table[i] := t[i]; }
    }

    method CheckDigest(data: Page) returns (ok: bool)
      requires Flagged(data)
      ensures ok <==> Intact(data)
    {
      var sha := S.Sha1(data[..LEN]);
      ok := data[LEN..LEN + 20] == sha;
    }

    /** Read one copy: load it if it is intact, otherwise merge it if it is flagged. */
    method ReadCopy(block: nat, page: nat, dataBack: Page) returns (ok: bool, merged: Page)
      requires Valid() && BAD_INFO_START <= block <= BAD_INFO_END && page < PAGES
      requires dataBack == Merge(Copies(nand.pages)[..(BAD_INFO_END - block) * PAGES + page])
      modifies table
      ensures var k := (BAD_INFO_END - block) * PAGES + page;
        && k < 4 * PAGES
        && ok == Intact(Copies(nand.pages)[k])
        && (ok ==> table[..] == Table(Copies(nand.pages)[k]))
        && (!ok ==> table[..] == old(table[..]) && merged == Merge(Copies(nand.pages)[..k + 1]))
    {
      hide Merge, Flagged, Intact, Digest, Table, Slot, Or, Copies;
      var addr := (block * BLOCK_SIZE + page * PAGE_SIZE) * 2;
      PageOfAddress(block, page);
      SlotOf(block, page);
      ghost var k := (BAD_INFO_END - block) * PAGES + page;
      merged := dataBack;
      var data: Page := nand.ReadPage(addr, PAGE_SIZE);
      assert data == Copies(nand.pages)[k];
      MergeStep(Copies(nand.pages), k);
      FlagIs(data);
      if data[..8] == FLAG {
        ok := CheckDigest(data);
        if ok {
          Load(data[8..LEN]);
          TableIs(data);
        } else {
          merged := OrPages(dataBack, data);
        }
      } else {
        ok := false;
        NotFlagged(data);
      }
    }

    /** No copy was intact: use the merge of the flagged ones if it is. */
    method UseMerge(ghost copies: seq<Page>, dataBack: Page) returns (r: int)
      requires Valid() && table[..] == NoTable() && dataBack == Merge(copies)
      requires forall i :: 0 <= i < |copies| ==> !Intact(copies[i])
      modifies table
      ensures (r, table[..]) == Recover(copies)
    {
      hide Recover, Merge, Flagged, Intact, Digest, Table;
      RecoverMerged(copies);
      FlagIs(dataBack);
      if dataBack[..8] != FLAG { return -1; }
      var ok := CheckDigest(dataBack);
      if ok {
        Load(dataBack[8..LEN]);
        TableIs(dataBack);
        return 0;
      }
      return -2;
    }

    /** Read the stored copies: 0 with the table loaded, or -1 / -2 with the table cleared. */
    method ReadBadBlockInfo() returns (r: int)
      requires Valid()
      modifies table
      ensures (r, table[..]) == Recover(Copies(nand.pages))
    {
      hide Recover, Merge, Flagged, Intact, Digest, Table, Slot, Or;
      ghost var copies := Copies(nand.pages);
      var dataBack: Page := seq(PAGE_SIZE, _ => 0);
      Clear();
      MergeNothing(copies, dataBack);
      var block := BAD_INFO_END;
      while block >= BAD_INFO_START
        invariant BAD_INFO_START - 1 <= block <= BAD_INFO_END && table[..] == NoTable()
        invariant dataBack == Merge(copies[..(BAD_INFO_END - block) * PAGES])
        invariant forall j :: 0 <= j < (BAD_INFO_END - block) * PAGES ==> !Intact(copies[j])
      {
        var page := 0;
        while page < PAGES
          invariant 0 <= page <= PAGES && table[..] == NoTable()
          invariant dataBack == Merge(copies[..(BAD_INFO_END - block) * PAGES + page])
          invariant forall j :: 0 <= j < (BAD_INFO_END - block) * PAGES + page ==> !Intact(copies[j])
        {
          ghost var k := (BAD_INFO_END - block) * PAGES + page;
          var ok;
          ok, dataBack := ReadCopy(block, page, dataBack);
          if ok {
            RecoverFirst(copies, k);
            return 0;
          }
          page := page + 1;
        }
        block := block - 1;
      }
      assert copies[..4 * PAGES] == copies;
      r := UseMerge(copies, dataBack);
    }

    /** Byte-wise OR of a page into the accumulator. */
    method OrPages(x: Page, y: Page) returns (r: Page)
      ensures r == Or(x, y)
    {
      var acc := x;
      var i := 0;
      while i < PAGE_SIZE
        invariant 0 <= i <= PAGE_SIZE && |acc| == PAGE_SIZE
        invariant forall k :: 0 <= k < PAGE_SIZE ==> acc[k] == if k < i then x[k] | y[k] else x[k]
      {
        acc := acc[i := acc[i] | y[i]];
        i := i + 1;
      }
      r := acc;
    }

    /** 0 when the first and the last page of a block read as erased. */
    method ProbeBadBlock(block: nat) returns (r: int)
      requires Valid() && block < BLOCKS
      ensures r == 0 <==> !Marked(nand.pages, block)
    {
      PageOfAddress(block, 0);
      var buf := nand.ReadPage(block * BLOCK_SIZE * 2, PAGE_SIZE + 64);
      if buf != Blank(PAGE_SIZE + 64) { return -1; }
      LastPage(block);
      buf := nand.ReadPage(((block + 1) * BLOCK_SIZE - PAGE_SIZE) * 2, PAGE_SIZE + 64);
      if buf != Blank(PAGE_SIZE + 64) { return -2; }
      return 0;
    }

    /** Mark the factory-bad blocks in a cleared table. */
    method ScanBlocks()
      requires Valid()
      modifies table
      ensures table[..] == ScanResult(nand.pages)
    {
      Clear();
      var block := DATA_START_NUM - 16;
      while block < DATA_START_NUM + DATA_BLOCK_NUM
        invariant DATA_START_NUM - 16 <= block <= BLOCKS
        invariant forall b :: 0 <= b < BLOCKS ==>
          table[b] == if DATA_START_NUM - 16 <= b < block && Marked(nand.pages, b) then 1 else 0
      {
        var r := ProbeBadBlock(block);
        if r != 0 { table[block] := 1; }
        block := block + 1;
      }
    }

    /** Highest block of the information area that is not bad; the first one if all are. */
    method ChooseBlock() returns (block: nat)
      requires Valid()
      ensures BAD_INFO_START <= block <= BAD_INFO_END && block == Chosen(table[..])
    {
      var b := BAD_INFO_END;
      while b >= BAD_INFO_START
        invariant BAD_INFO_START - 1 <= b <= BAD_INFO_END
        invariant forall c :: b < c <= BAD_INFO_END ==> table[c] != 0
      {
        if table[b] == 0 { break; }
        b := b - 1;
      }
      if b < BAD_INFO_START { b := BAD_INFO_START; }
      block := b;
    }

    /** Write 64 copies of the table page to an erased block. */
    method WriteCopies(block: nat, data: Page)
      requires Valid() && BAD_INFO_START <= block <= BAD_INFO_END
      requires forall i :: block * PAGES <= i < (block + 1) * PAGES ==> nand.pages[i] == Blank(PAGE_SIZE + 64)
      modifies nand
      ensures Valid()
      ensures forall i :: block * PAGES <= i < (block + 1) * PAGES ==> nand.pages[i][..PAGE_SIZE] == data
      ensures forall i :: 0 <= i < BLOCKS * PAGES && i / PAGES != block ==> nand.pages[i] == old(nand.pages)[i]
    {
      var page := 0;
      while page < PAGES
        invariant 0 <= page <= PAGES && Valid()
        invariant forall i :: block * PAGES <= i < block * PAGES + page ==> nand.pages[i][..PAGE_SIZE] == data
        invariant forall i :: block * PAGES + page <= i < (block + 1) * PAGES ==> nand.pages[i] == Blank(PAGE_SIZE + 64)
        invariant forall i :: 0 <= i < BLOCKS * PAGES && i / PAGES != block ==> nand.pages[i] == old(nand.pages)[i]
      {
        var addr := (block * BLOCK_SIZE + page * PAGE_SIZE) * 2;
        PageOfAddress(block, page);
        DivAdd(block, page, PAGES);
        assert Blank(PAGE_SIZE + 64)[..PAGE_SIZE] == Blank(PAGE_SIZE);
        nand.Program(addr, data);
        page := page + 1;
      }
    }

    /** Save the table in one information block, so that the next read finds it first. */
    method SaveTable(tail: seq<bv8>)
      requires Valid() && |tail| == PAGE_SIZE - USED
      requires forall k :: 0 <= k < 4 * PAGES ==> !Intact(Copies(nand.pages)[k])
      modifies nand
      ensures Valid() && Recover(Copies(nand.pages)) == (0, table[..])
      ensures SavedIn(nand.pages, Chosen(table[..]), table[..])
      ensures forall i :: 0 <= i < BLOCKS * PAGES && i / PAGES != Chosen(table[..]) ==>
        nand.pages[i] == old(nand.pages)[i]
    {
      hide Recover, Intact, Flagged, Digest, Table, Slot, Copies;
      ghost var before := nand.pages;
      var block := ChooseBlock();
      nand.Erase(block);
      var t := table[..];
      var sha := S.Sha1(FLAG + t);
      var data: Page := FLAG + t + sha + tail;
      SavedPage(t, sha, tail);
      BlockPages(block);
      WriteCopies(block, data);
      SavedFirst(before, nand.pages, block, data);
      RecoverFirst(Copies(nand.pages), (BAD_INFO_END - block) * PAGES);
    }

    /** tail is what the uninitialised end of the page buffer holds. */
    method BadBlockInit(nandType: nat, tail: seq<bv8>)
      requires Valid() && |tail| == PAGE_SIZE - USED
      modifies table, nand
      ensures Valid() && Initialised(nandType, old(nand.pages), nand.pages, old(table[..]), table[..])
    {
      hide Whole, SavedIn, OutsideKept, ScanResult, Recover, Intact, Flagged, Digest, Table, Slot, Marked, Copies;
      if nandType == NAND_ID_HYNIX { return; }
      var r := ReadBadBlockInfo();
      if r == 0 { return; }
      ScanAndSave(tail);
    }

    /** No copy is readable: find the marked blocks and write the table. */
    method ScanAndSave(tail: seq<bv8>)
      requires Valid() && |tail| == PAGE_SIZE - USED && Recover(Copies(nand.pages)).0 != 0
      modifies table, nand
      ensures Valid()
      ensures table[..] == old(ScanResult(nand.pages)) && Recover(Copies(nand.pages)) == (0, table[..])
      ensures SavedIn(nand.pages, Chosen(table[..]), table[..])
      ensures OutsideKept(old(nand.pages), nand.pages, Chosen(table[..]))
    {
      hide SavedIn, ScanResult, Recover, Intact, Flagged, Digest, Table, Slot, Marked, Copies;
      NoneIntact(Copies(nand.pages));
      ScanBlocks();
      SaveTable(tail);
    }
  }

  /** On anything but the excluded chip: keep a readable table, or scan and save one so that the
      next read returns it, in a single block of the information area. */
  ghost predicate Initialised(nandType: nat, before: seq<seq<bv8>>, after: seq<seq<bv8>>, tableBefore: seq<bv8>,
          table: seq<bv8>)
    requires Whole(before) && Whole(after) && |table| == LIST_SIZE
  {
    var read := Recover(Copies(before));
    && (nandType == NAND_ID_HYNIX ==> table == tableBefore && after == before)
    && (nandType != NAND_ID_HYNIX && read.0 == 0 ==> table == read.1 && after == before)
    && (nandType != NAND_ID_HYNIX && read.0 != 0 ==>
          && table == ScanResult(before) && Recover(Copies(after)) == (0, table)
          && SavedIn(after, Chosen(table), table)
          && OutsideKept(before, after, Chosen(table)))
  }

  /** All pages of the block are copies of one intact page with the table. */
  ghost predicate SavedIn(pages: seq<seq<bv8>>, block: nat, table: seq<bv8>)
    requires Whole(pages) && block < BLOCKS
  {
    && Intact(FirstPage(pages, block)) && Table(FirstPage(pages, block)) == table
    && forall i :: block * PAGES <= i < (block + 1) * PAGES ==> pages[i][..PAGE_SIZE] == FirstPage(pages, block)
  }

  ghost function FirstPage(pages: seq<seq<bv8>>, block: nat): Page
    requires Whole(pages) && block < BLOCKS
  {
    pages[block * PAGES][..PAGE_SIZE]
  }

  /** The pages of the block have lost bits at most, none of them in the flag; nothing else in the
      information area has changed. */
  ghost predicate Worn(saved: seq<seq<bv8>>, pages: seq<seq<bv8>>, block: nat)
    requires Whole(saved) && Whole(pages) && BAD_INFO_START <= block <= BAD_INFO_END
  {
    && OutsideKept(saved, pages, block)
    && forall i :: block * PAGES <= i < (block + 1) * PAGES ==>
         Flagged(pages[i][..PAGE_SIZE]) && OnlyCleared(pages[i][..PAGE_SIZE], FirstPage(saved, block))
  }

  /** No flagged page left over in the other information blocks has a bit the saved page lacks. */
  ghost predicate LeftoversFit(pages: seq<seq<bv8>>, block: nat, saved: Page)
    requires Whole(pages)
  {
    forall k :: 0 <= k < 4 * PAGES && Slot(k) / PAGES != block && Flagged(Copies(pages)[k]) ==>
      OnlyCleared(Copies(pages)[k], saved)
  }

  /** After a table has been saved and its pages have lost bits outside the flag, the next read
      returns it exactly if some page is still intact, or every bit survives in some flagged page
      and no flagged page left over in the other information blocks adds one.  Only the chosen
      block is erased before saving, so such pages stay. */
  lemma WornTableReadIff(nandType: nat, before: seq<seq<bv8>>, saved: seq<seq<bv8>>, worn: seq<seq<bv8>>,
                         t0: seq<bv8>, table: seq<bv8>)
    requires Whole(before) && Whole(saved) && Whole(worn) && |table| == LIST_SIZE
    requires nandType != NAND_ID_HYNIX && Recover(Copies(before)).0 != 0
    requires Initialised(nandType, before, saved, t0, table) && Worn(saved, worn, Chosen(table))
    requires DigestTrusted(Copies(worn), FirstPage(saved, Chosen(table)))
    ensures var page, copies := FirstPage(saved, Chosen(table)), Copies(worn);
      Recover(copies) == (0, table) <==>
        (exists k :: 0 <= k < |copies| && Intact(copies[k]))
        || (EveryBitSurvives(copies, page) && LeftoversFit(before, Chosen(table), page))
  {
    hide Recover, Intact, Flagged, Table, Slot, Copies, OnlyCleared, DigestTrusted, EveryBitSurvives, ScanResult;
    var block, page := Chosen(table), FirstPage(saved, Chosen(table));
    ReadsIff(Copies(worn), page);
    forall k | 0 <= k < 4 * PAGES
      ensures Slot(k) / PAGES == block ==> OnlyCleared(Copies(worn)[k], page)
      ensures Slot(k) / PAGES != block ==> Copies(worn)[k] == Copies(before)[k]
    {
      DivUnique(Slot(k), PAGES, Slot(k) / PAGES);
    }
    assert NoForeignBits(Copies(worn), page) <==> LeftoversFit(before, block, page);
  }

  /** A flagged page left over in another information block spoils the merge by a single bit the
      saved page lacks: with no page intact any more, the table is not read back. */
  lemma LeftoverSpoils(nandType: nat, before: seq<seq<bv8>>, saved: seq<seq<bv8>>, worn: seq<seq<bv8>>,
                       t0: seq<bv8>, table: seq<bv8>, left: Page, block: nat, page: nat, i: nat)
    requires Whole(before) && Whole(saved) && Whole(worn) && |table| == LIST_SIZE
    requires nandType != NAND_ID_HYNIX && Recover(Copies(before)).0 != 0
    requires Initialised(nandType, before, saved, t0, table) && Worn(saved, worn, Chosen(table))
    requires DigestTrusted(Copies(worn), FirstPage(saved, Chosen(table))) && NoneIntactIn(Copies(worn))
    requires LeftIn(before, block, page, left) && block != Chosen(table)
    requires AddsBit(left, FirstPage(saved, Chosen(table)), i)
    ensures Recover(Copies(worn)) != (0, table)
  {
    hide Recover, Intact, Table, DigestTrusted, EveryBitSurvives, Initialised, Worn, Flagged, OnlyCleared;
    hide AddsBit, Copies, Slot, FirstPage, Chosen, Whole, LeftoversFit, LeftIn;
    WornTableReadIff(nandType, before, saved, worn, t0, table);
    LeftoverDoesNotFit(before, Chosen(table), FirstPage(saved, Chosen(table)), block, page, left, i);
  }

  ghost predicate NoneIntactIn(copies: seq<Page>) {
    forall k :: 0 <= k < |copies| ==> !Intact(copies[k])
  }

  /** A page of the information area. */
  ghost predicate LeftIn(pages: seq<seq<bv8>>, block: nat, page: nat, left: Page)
    requires Whole(pages)
  {
    BAD_INFO_START <= block <= BAD_INFO_END && page < PAGES && left == pages[block * PAGES + page][..PAGE_SIZE]
  }

  ghost predicate AddsBit(p: Page, saved: Page, i: nat) {
    Flagged(p) && i < USED && p[i] | saved[i] != saved[i]
  }

  lemma LeftoverDoesNotFit(pages: seq<seq<bv8>>, chosen: nat, saved: Page, block: nat, page: nat, left: Page, i: nat)
    requires Whole(pages) && block != chosen && LeftIn(pages, block, page, left) && AddsBit(left, saved, i)
    ensures !LeftoversFit(pages, chosen, saved)
  {
    hide Flagged, Slot, Copies;
    SlotOf(block, page);
    var k := (BAD_INFO_END - block) * PAGES + page;
    DivUnique(Slot(k), PAGES, block);
    assert Copies(pages)[k] == pages[block * PAGES + page][..PAGE_SIZE];
  }

  /** What the first start finds out, in terms of the pages: a table entry is set exactly for the
      blocks from 48 on whose first or last page has a byte other than 0xFF. */
  lemma ScannedTable(nandType: nat, before: seq<seq<bv8>>, after: seq<seq<bv8>>, t0: seq<bv8>, table: seq<bv8>,
                     b: nat)
    requires Whole(before) && Whole(after) && |table| == LIST_SIZE && b < 1024
    requires nandType != NAND_ID_HYNIX && Recover(Copies(before)).0 != 0
    requires Initialised(nandType, before, after, t0, table)
    ensures |before[64 * b]| == |before[64 * b + 63]| == 2112
    ensures table[b] != 0 <==>
            48 <= b && exists i :: 0 <= i < 2112 && (before[64 * b][i] != 0xFF || before[64 * b + 63][i] != 0xFF)
  {
    hide Recover, Copies, SavedIn;
    NotBlank(before[64 * b]);
    NotBlank(before[64 * b + 63]);
  }

  lemma NotBlank(page: seq<bv8>)
    requires |page| == PAGE_SIZE + 64
    ensures page != Blank(PAGE_SIZE + 64) <==> exists i :: 0 <= i < 2112 && page[i] != 0xFF
  {
    if page != Blank(PAGE_SIZE + 64) {
      var i :| 0 <= i < 2112 && page[i] != Blank(PAGE_SIZE + 64)[i];
    }
  }

  /** The block saved in is the highest of blocks 48 to 51 whose first and last page were blank, and
      block 48 only if none is; each of its 64 pages then holds the mark BAD_LIST, the table and
      their SHA-1 digest. */
  lemma SavedBlock(nandType: nat, before: seq<seq<bv8>>, after: seq<seq<bv8>>, t0: seq<bv8>, table: seq<bv8>)
    returns (block: nat)
    requires Whole(before) && Whole(after) && |table| == LIST_SIZE
    requires nandType != NAND_ID_HYNIX && Recover(Copies(before)).0 != 0
    requires Initialised(nandType, before, after, t0, table)
    ensures 48 <= block <= 51 && forall c :: block < c <= 51 ==> table[c] != 0
    ensures table[block] == 0 || (block == 48 && forall c :: 48 <= c <= 51 ==> table[c] != 0)
    ensures forall i :: 64 * block <= i < 64 * block + 64 ==> HoldsTable(after[i], table)
  {
    hide Recover, Copies, ScanResult, Digest, HoldsTable, Intact;
    block := Chosen(table);
    var first := FirstPage(after, block);
    forall i | 64 * block <= i < 64 * block + 64
      ensures HoldsTable(after[i], table)
    {
      IntactHolds(after[i], first, table);
    }
  }

  ghost predicate HoldsTable(page: seq<bv8>, table: seq<bv8>) {
    && |page| == 2112 && page[..8] == [0x42, 0x41, 0x44, 0x5F, 0x4C, 0x49, 0x53, 0x54]
    && page[8..1032] == table && page[1032..1052] == Digest(page[..1032])
  }

  lemma IntactHolds(page: seq<bv8>, first: Page, table: seq<bv8>)
    requires |page| == 2112 && page[..2048] == first && Intact(first) && Table(first) == table
    ensures HoldsTable(page, table)
  {
    hide Digest;
    assert page[..8] == first[..8] && page[8..1032] == first[8..1032];
    assert page[..1032] == first[..1032] && page[1032..1052] == first[1032..1052];
  }

  /** The copy read first decides: an intact page of block 48 to 51 gives its table if no page of a
      higher one of these blocks, and no earlier page of its own, is intact. */
  lemma HighestBlockFirst(pages: seq<seq<bv8>>, block: nat, page: nat)
    requires Whole(pages) && 48 <= block <= 51 && page < 64
    requires Intact(pages[64 * block + page][..2048])
    requires forall i :: 64 * 48 <= i < 64 * 52 && (64 * block + 64 <= i || 64 * block <= i < 64 * block + page) ==>
               !Intact(pages[i][..2048])
    ensures Recover(Copies(pages)) == (0, Table(pages[64 * block + page][..2048]))
  {
    hide Intact, Table, Recover;
    var k := (51 - block) * 64 + page;
    SlotOf(block, page);
    forall j | 0 <= j < k
      ensures !Intact(Copies(pages)[j])
    {
      var i := 64 * (51 - j / 64) + j % 64;
      assert 64 * block + 64 <= i || 64 * block <= i < 64 * block + page;
      assert Copies(pages)[j] == pages[i][..2048];
    }
    RecoverFirst(Copies(pages), k);
  }

  /** The next start reads back the table of this one and writes nothing. */
  lemma NextStartAgrees(nandType: nat, first: seq<seq<bv8>>, second: seq<seq<bv8>>, third: seq<seq<bv8>>,
                        t0: seq<bv8>, t1: seq<bv8>, t2: seq<bv8>, t3: seq<bv8>)
    requires Whole(first) && Whole(second) && Whole(third) && |t1| == LIST_SIZE && |t3| == LIST_SIZE
    requires Initialised(nandType, first, second, t0, t1) && Initialised(nandType, second, third, t2, t3)
    ensures third == second && (nandType != NAND_ID_HYNIX ==> t3 == t1 && Recover(Copies(second)) == (0, t1))
  {
    hide Recover, Copies, ScanResult, SavedIn;
  }

  ghost predicate OutsideKept(before: seq<seq<bv8>>, after: seq<seq<bv8>>, block: nat) {
    |before| == |after| && forall i :: 0 <= i < |before| && i / PAGES != block ==> after[i] == before[i]
  }

  /** The information block that is written: the highest good one, or the first if none is good. */
  ghost function Chosen(t: seq<bv8>): (b: nat)
    requires |t| == LIST_SIZE
    ensures BAD_INFO_START <= b <= BAD_INFO_END
  {
    if t[51] == 0 then 51 else if t[50] == 0 then 50 else if t[49] == 0 then 49 else 48
  }

  /** A factory mark: the first or last page of the block does not read as erased. */
  ghost predicate Marked(pages: seq<seq<bv8>>, block: nat)
    requires Whole(pages) && block < BLOCKS
  {
    pages[block * PAGES] != Blank(PAGE_SIZE + 64) || pages[block * PAGES + PAGES - 1] != Blank(PAGE_SIZE + 64)
  }

  ghost function ScanResult(pages: seq<seq<bv8>>): (t: seq<bv8>)
    requires Whole(pages)
    ensures |t| == LIST_SIZE
  {
    seq(LIST_SIZE, b requires 0 <= b < LIST_SIZE =>
      if DATA_START_NUM - 16 <= b && Marked(pages, b) then 1 else 0)
  }

  lemma LastPage(block: nat)
    ensures ((block + 1) * BLOCK_SIZE - PAGE_SIZE) * 2 / (2 * PAGE_SIZE) == block * PAGES + PAGES - 1
  {
    DivAdd(block * PAGES + PAGES - 1, 0, 2 * PAGE_SIZE);
  }

  lemma BlockPages(block: nat)
    ensures forall i :: block * PAGES <= i < (block + 1) * PAGES ==> i / PAGES == block
  {
    forall i | block * PAGES <= i < (block + 1) * PAGES
      ensures i / PAGES == block
    {
      DivUnique(i, PAGES, block);
    }
  }

  lemma NoneIntact(copies: seq<Page>)
    requires Recover(copies).0 != 0
    ensures forall i :: 0 <= i < |copies| ==> !Intact(copies[i])
  {
    hide Intact, Table;
    forall i | 0 <= i < |copies|
      ensures !Intact(copies[i])
    {
      if Intact(copies[i]) { SomeFirstIntact(copies, i); }
    }
  }

  lemma SavedPage(t: seq<bv8>, sha: seq<bv8>, tail: seq<bv8>)
    requires |t| == LIST_SIZE && sha == Digest(FLAG + t) && |tail| == PAGE_SIZE - USED
    ensures var p: Page := FLAG + t + sha + tail; Intact(p) && Table(p) == t
  {
    hide Digest;
    var p: Page := FLAG + t + sha + tail;
    assert p[..8] == FLAG && p[8..LEN] == t && p[..LEN] == FLAG + t && p[LEN..USED] == sha;
  }

  /** After saving, the first intact copy in reading order is the first page of the chosen block. */
  lemma SavedFirst(before: seq<seq<bv8>>, after: seq<seq<bv8>>, block: nat, data: Page)
    requires |before| == |after| == BLOCKS * PAGES && BAD_INFO_START <= block <= BAD_INFO_END
    requires forall i :: 0 <= i < BLOCKS * PAGES ==> |before[i]| == |after[i]| == PAGE_SIZE + 64
    requires forall i :: block * PAGES <= i < (block + 1) * PAGES ==> after[i][..PAGE_SIZE] == data
    requires forall i :: 0 <= i < BLOCKS * PAGES && i / PAGES != block ==> after[i] == before[i]
    requires forall k :: 0 <= k < 4 * PAGES ==> !Intact(Copies(before)[k])
    requires Intact(data)
    ensures FirstIntact(Copies(after), (BAD_INFO_END - block) * PAGES)
    ensures Copies(after)[(BAD_INFO_END - block) * PAGES] == data
  {
    hide Intact;
    var first := (BAD_INFO_END - block) * PAGES;
    SlotOf(block, 0);
    forall j | 0 <= j < first
      ensures !Intact(Copies(after)[j])
    {
      DivUnique(Slot(j), PAGES, BAD_INFO_END - j / PAGES);
      assert Copies(after)[j] == Copies(before)[j];
    }
  }

  lemma MergeNothing(copies: seq<Page>, zero: Page)
    requires zero == seq(PAGE_SIZE, _ => 0)
    ensures Merge(copies[..0]) == zero
  {
  }

  lemma MergeStep(copies: seq<Page>, k: nat)
    requires k < |copies|
    ensures Merge(copies[..k + 1]) ==
            if Flagged(copies[k]) then Or(Merge(copies[..k]), copies[k]) else Merge(copies[..k])
  {
    assert copies[..k + 1][..k] == copies[..k];
  }

  lemma FlagIs(p: Page)
    ensures Flagged(p) <==> p[..8] == FLAG
  {
  }

  lemma NotFlagged(p: Page)
    requires !Flagged(p)
    ensures !Intact(p)
  {
  }

  lemma TableIs(p: Page)
    ensures Table(p) == p[8..LEN]
  {
  }
}
