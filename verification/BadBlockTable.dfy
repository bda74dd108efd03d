/** Meaning of the saved bad-block table: which of the stored copies is believed, and how
    damaged copies are merged. */
module BadBlockTable {
  import opened Sha1Spec

  const PAGE_SIZE := 2048
  const LIST_SIZE := 1024
  const FLAG: seq<bv8> := [0x42, 0x41, 0x44, 0x5F, 0x4C, 0x49, 0x53, 0x54]
  const LEN := 1032  // flag and table
  const USED := 1052 // flag, table and digest

  type Page = p: seq<bv8> | |p| == PAGE_SIZE witness seq(PAGE_SIZE, _ => 0)

  predicate Flagged(p: Page) { p[..8] == FLAG }

  ghost predicate Intact(p: Page) {
    Flagged(p) && p[LEN..USED] == Digest(p[..LEN])
  }

  function Table(p: Page): (t: seq<bv8>)
    ensures |t| == LIST_SIZE
  {
    p[8..LEN]
  }

  function NoTable(): (t: seq<bv8>)
    ensures |t| == LIST_SIZE
  {
    seq(LIST_SIZE, _ => 0)
  }

  function Or(x: Page, y: Page): (r: Page)
  {
    seq(PAGE_SIZE, i requires 0 <= i < PAGE_SIZE => x[i] | y[i])
  }

  /** Bitwise union of the flagged copies. */
  function Merge(copies: seq<Page>): Page {
    if copies == [] then seq(PAGE_SIZE, _ => 0)
    else
      var p := copies[|copies| - 1];
      if Flagged(p) then Or(Merge(copies[..|copies| - 1]), p) else Merge(copies[..|copies| - 1])
  }

  /** Outcome of reading the copies in order: the first intact one, else the merge if it is
      intact, else an empty table with -1 (nothing flagged) or -2. */
  ghost function Recover(copies: seq<Page>): (r: (int, seq<bv8>))
    ensures |r.1| == LIST_SIZE
  {
    if exists i :: FirstIntact(copies, i) then
      var i :| FirstIntact(copies, i);
      (0, Table(copies[i]))
    else
      var m := Merge(copies);
      if !Flagged(m) then (-1, NoTable())
      else if Intact(m) then (0, Table(m))
      else (-2, NoTable())
  }

  ghost predicate FirstIntact(copies: seq<Page>, i: int) {
    0 <= i < |copies| && Intact(copies[i]) && forall j :: 0 <= j < i ==> !Intact(copies[j])
  }

  lemma FirstIntactUnique(copies: seq<Page>, i: int, j: int)
    requires FirstIntact(copies, i) && FirstIntact(copies, j)
    ensures i == j
  {
  }

  lemma RecoverFirst(copies: seq<Page>, i: int)
    requires FirstIntact(copies, i)
    ensures Recover(copies) == (0, Table(copies[i]))
  {
    hide Intact, Table;
    forall j | FirstIntact(copies, j)
      ensures j == i
    {
      FirstIntactUnique(copies, i, j);
    }
  }

  lemma {:induction false} SomeFirstIntact(copies: seq<Page>, k: nat)
    requires k < |copies| && Intact(copies[k])
    ensures exists i :: FirstIntact(copies, i)
    decreases k
  {
    hide Intact;
    if j :| 0 <= j < k && Intact(copies[j]) {
      SomeFirstIntact(copies, j);
    } else {
      assert FirstIntact(copies, k);
    }
  }

  lemma RecoverMerged(copies: seq<Page>)
    requires forall i :: 0 <= i < |copies| ==> !Intact(copies[i])
    ensures var m := Merge(copies);
            Recover(copies) == if !Flagged(m) then (-1, NoTable())
                               else if Intact(m) then (0, Table(m)) else (-2, NoTable())
  {
    hide Intact, Table, Merge;
  }

  lemma {:induction false} MergeFlagged(copies: seq<Page>)
    ensures Flagged(Merge(copies)) <==> exists i :: 0 <= i < |copies| && Flagged(copies[i])
    ensures !Flagged(Merge(copies)) ==> Merge(copies) == seq(PAGE_SIZE, _ => 0)
    decreases |copies|
  {
    if copies == [] {
      ZeroNotFlagged();
    } else {
      var init, p := copies[..|copies| - 1], copies[|copies| - 1];
      MergeFlagged(init);
      if Flagged(p) { FlagStays(Merge(init), p); }
      assert forall i :: 0 <= i < |init| ==> init[i] == copies[i];
    }
  }

  lemma ZeroNotFlagged()
    ensures !Flagged(seq(PAGE_SIZE, _ => 0))
  {
    var zero: Page := seq(PAGE_SIZE, _ => 0);
    assert zero[..8][0] == 0 && FLAG[0] != 0;
  }

  lemma FlagStays(x: Page, p: Page)
    requires Flagged(p) && (Flagged(x) || x == seq(PAGE_SIZE, _ => 0))
    ensures Flagged(Or(x, p))
  {
    forall i | 0 <= i < 8
      ensures Or(x, p)[..8][i] == FLAG[i]
    {
      assert p[i] == p[..8][i] == FLAG[i] && (x[i] == x[..8][i] == FLAG[i] || x[i] == 0);
      OrSame(x[i], p[i]);
    }
  }

  lemma OrSame(x: bv8, y: bv8)
    ensures x == y || x == 0 ==> x | y == y
  {
  }

  /** The return codes: -1 if no copy carries the mark, -2 if some do but neither one of them nor
      their merge has the right digest. */
  lemma RecoverCodes(copies: seq<Page>)
    ensures Recover(copies).0 in {0, -1, -2}
    ensures Recover(copies).0 == -1 <==> forall i :: 0 <= i < |copies| ==> !Flagged(copies[i])
    ensures Recover(copies).0 == 0 <==> Intact(Merge(copies)) || exists i :: 0 <= i < |copies| && Intact(copies[i])
    ensures Recover(copies).0 != 0 ==> forall b :: 0 <= b < LIST_SIZE ==> Recover(copies).1[b] == 0
  {
    hide Merge, Table, Digest;
    MergeFlagged(copies);
    if i :| 0 <= i < |copies| && Intact(copies[i]) {
      SomeFirstIntact(copies, i);
      var k :| FirstIntact(copies, k);
      RecoverFirst(copies, k);
    } else {
      RecoverMerged(copies);
    }
  }

  // ----- recovery from damaged copies

  /** p differs from orig only by bits that went from 1 to 0. */
  ghost predicate OnlyCleared(p: Page, orig: Page) {
    forall i :: 0 <= i < USED ==> p[i] | orig[i] == orig[i]
  }

  ghost predicate IsBit(b: bv8) {
    b == 1 || b == 2 || b == 4 || b == 8 || b == 16 || b == 32 || b == 64 || b == 128
  }

  ghost predicate ByteSurvives(copies: seq<Page>, orig: Page, i: int)
    requires 0 <= i < USED
  {
    forall b :: IsBit(b) && orig[i] & b != 0 ==> SomeCopyHas(copies, i, b)
  }

  /** Every 1 bit of orig is still 1 in some flagged copy. */
  ghost predicate EveryBitSurvives(copies: seq<Page>, orig: Page) {
    forall i :: 0 <= i < USED ==> ByteSurvives(copies, orig, i)
  }

  ghost predicate Has(p: Page, i: int, b: bv8)
    requires 0 <= i < USED
  {
    Flagged(p) && p[i] & b != 0
  }

  ghost predicate SomeCopyHas(copies: seq<Page>, i: int, b: bv8)
    requires 0 <= i < USED
  {
    exists k :: 0 <= k < |copies| && Has(copies[k], i, b)
  }

  lemma OrBit(x: bv8, y: bv8, b: bv8)
    ensures (x | y) & b != 0 <==> x & b != 0 || y & b != 0
    ensures x & b != 0 && x | y == y ==> y & b != 0
  {
  }

  lemma BitsDecide(x: bv8, y: bv8)
    requires forall b :: IsBit(b) ==> (x & b != 0 <==> y & b != 0)
    ensures x == y
  {
    assert IsBit(1) && IsBit(2) && IsBit(4) && IsBit(8) && IsBit(16) && IsBit(32) && IsBit(64) && IsBit(128);
    EightBits(x, y);
  }

  lemma EightBits(x: bv8, y: bv8)
    requires x & 1 != 0 <==> y & 1 != 0
    requires x & 2 != 0 <==> y & 2 != 0
    requires x & 4 != 0 <==> y & 4 != 0
    requires x & 8 != 0 <==> y & 8 != 0
    requires x & 16 != 0 <==> y & 16 != 0
    requires x & 32 != 0 <==> y & 32 != 0
    requires x & 64 != 0 <==> y & 64 != 0
    requires x & 128 != 0 <==> y & 128 != 0
    ensures x == y
  {
  }

  /** A bit of the merge comes from a flagged copy, and every flagged copy contributes. */
  lemma {:induction false} MergeBit(copies: seq<Page>, i: int, b: bv8)
    requires 0 <= i < USED
    ensures Merge(copies)[i] & b != 0 <==> SomeCopyHas(copies, i, b)
    decreases |copies|
  {
    if copies == [] {
      assert Merge(copies)[i] == 0;
      ZeroBits(b);
    } else {
      var init, p := copies[..|copies| - 1], copies[|copies| - 1];
      MergeBit(init, i, b);
      OrBit(Merge(init)[i], p[i], b);
      SomeCopyLast(init, p, i, b);
      assert copies == init + [p];
    }
  }

  lemma ZeroBits(b: bv8)
    ensures 0 & b == 0
  {
  }

  lemma SomeCopyLast(init: seq<Page>, p: Page, i: int, b: bv8)
    requires 0 <= i < USED
    ensures SomeCopyHas(init + [p], i, b) <==> SomeCopyHas(init, i, b) || Has(p, i, b)
  {
    hide Has;
    var all := init + [p];
    assert all[|init|] == p;
    if SomeCopyHas(init, i, b) {
      var k :| 0 <= k < |init| && Has(init[k], i, b);
      assert all[k] == init[k];
    }
    if k :| 0 <= k < |all| && Has(all[k], i, b) {
      if k < |init| { assert init[k] == all[k]; }
    }
  }

  lemma ByteRestoredIff(copies: seq<Page>, orig: Page, i: int)
    requires forall k :: 0 <= k < |copies| && Flagged(copies[k]) ==> OnlyCleared(copies[k], orig)
    requires 0 <= i < USED
    ensures ByteSurvives(copies, orig, i) <==> Merge(copies)[i] == orig[i]
  {
    hide Merge, Flagged, SomeCopyHas, OnlyCleared;
    forall b | IsBit(b)
      ensures Merge(copies)[i] & b != 0 <==> SomeCopyHas(copies, i, b)
      ensures SomeCopyHas(copies, i, b) ==> orig[i] & b != 0
    {
      MergeBit(copies, i, b);
      BitFromCopy(copies, orig, i, b);
    }
    if ByteSurvives(copies, orig, i) {
      BitsDecide(Merge(copies)[i], orig[i]);
    }
  }

  /** Copies with only cleared bits merge back to the original exactly when every bit survives
      somewhere. */
  lemma MergeRestoresIff(copies: seq<Page>, orig: Page)
    requires forall k :: 0 <= k < |copies| && Flagged(copies[k]) ==> OnlyCleared(copies[k], orig)
    ensures EveryBitSurvives(copies, orig) <==> Merge(copies)[..USED] == orig[..USED]
  {
    hide Merge, Flagged, ByteSurvives, OnlyCleared, SomeCopyHas;
    forall i | 0 <= i < USED
      ensures ByteSurvives(copies, orig, i) <==> Merge(copies)[i] == orig[i]
    {
      ByteRestoredIff(copies, orig, i);
    }
    SameUsedBytes(Merge(copies), orig);
  }

  lemma SameUsedBytes(p: Page, q: Page)
    ensures p[..USED] == q[..USED] <==> forall i :: 0 <= i < USED ==> p[i] == q[i]
  {
    if p[..USED] == q[..USED] {
      assert forall i :: 0 <= i < USED ==> p[..USED][i] == q[..USED][i];
    }
  }

  lemma BitFromCopy(copies: seq<Page>, orig: Page, i: int, b: bv8)
    requires forall k :: 0 <= k < |copies| && Flagged(copies[k]) ==> OnlyCleared(copies[k], orig)
    requires 0 <= i < USED
    ensures SomeCopyHas(copies, i, b) ==> orig[i] & b != 0
  {
    if k :| 0 <= k < |copies| && Has(copies[k], i, b) {
      OrBit(copies[k][i], orig[i], b);
    }
  }

  lemma SameUsedPart(p: Page, orig: Page)
    requires p[..USED] == orig[..USED]
    ensures Flagged(p) == Flagged(orig) && Intact(p) == Intact(orig) && Table(p) == Table(orig)
  {
    assert p[..8] == p[..USED][..8] && orig[..8] == orig[..USED][..8];
    assert p[..LEN] == p[..USED][..LEN] && orig[..LEN] == orig[..USED][..LEN];
    assert p[LEN..USED] == p[..USED][LEN..] && orig[LEN..USED] == orig[..USED][LEN..];
    assert p[8..LEN] == p[..USED][8..LEN] && orig[8..LEN] == orig[..USED][8..LEN];
  }

  lemma IntactCopySurvives(copies: seq<Page>, orig: Page, k: int)
    requires 0 <= k < |copies| && Intact(copies[k]) && copies[k][..USED] == orig[..USED]
    ensures EveryBitSurvives(copies, orig)
  {
    forall i | 0 <= i < USED
      ensures ByteSurvives(copies, orig, i)
    {
      assert copies[k][..USED][i] == orig[..USED][i];
      forall b | IsBit(b) && orig[i] & b != 0
        ensures SomeCopyHas(copies, i, b)
      {
        assert Has(copies[k], i, b);
      }
    }
  }

  /** Damage that only clears bits: provided that nothing but the original passes the digest
      check, the table is recovered exactly when every 1 bit survives in some flagged copy. */
  lemma DamageRepairedIff(copies: seq<Page>, orig: Page)
    requires Intact(orig)
    requires forall k :: 0 <= k < |copies| && Flagged(copies[k]) ==> OnlyCleared(copies[k], orig)
    requires forall k :: 0 <= k < |copies| && Intact(copies[k]) ==> copies[k][..USED] == orig[..USED]
    requires Intact(Merge(copies)) ==> Merge(copies)[..USED] == orig[..USED]
    ensures Recover(copies) == (0, Table(orig)) <==> EveryBitSurvives(copies, orig)
  {
    hide Intact, Table, Merge, Flagged, Recover, OnlyCleared, EveryBitSurvives;
    if k :| 0 <= k < |copies| && Intact(copies[k]) {
      SomeFirstIntact(copies, k);
      var i :| FirstIntact(copies, i);
      RecoverFirst(copies, i);
      SameUsedPart(copies[i], orig);
      IntactCopySurvives(copies, orig, i);
    } else {
      MergeRestoresIff(copies, orig);
      RecoverMerged(copies);
      if Merge(copies)[..USED] == orig[..USED] {
        SameUsedPart(Merge(copies), orig);
        IntactFlagged(orig);
      }
    }
  }

  /** Every flagged copy has no bit that orig lacks. */
  ghost predicate NoForeignBits(copies: seq<Page>, orig: Page) {
    forall k :: 0 <= k < |copies| && Flagged(copies[k]) ==> OnlyCleared(copies[k], orig)
  }

  /** For any copies whatever: the merge is the original exactly if every bit survives in some
      flagged copy and no flagged copy adds one. */
  lemma MergeExactIff(copies: seq<Page>, orig: Page)
    ensures Merge(copies)[..USED] == orig[..USED] <==>
            EveryBitSurvives(copies, orig) && NoForeignBits(copies, orig)
  {
    hide Merge, Flagged, OnlyCleared, EveryBitSurvives;
    if Merge(copies)[..USED] == orig[..USED] {
      forall k | 0 <= k < |copies| && Flagged(copies[k])
        ensures OnlyCleared(copies[k], orig)
      {
        CopyWithinMerge(copies, orig, k);
      }
      MergeRestoresIff(copies, orig);
    } else if NoForeignBits(copies, orig) {
      MergeRestoresIff(copies, orig);
    }
  }

  lemma CopyWithinMerge(copies: seq<Page>, orig: Page, k: nat)
    requires k < |copies| && Flagged(copies[k]) && Merge(copies)[..USED] == orig[..USED]
    ensures OnlyCleared(copies[k], orig)
  {
    hide Merge, Flagged;
    SameUsedBytes(Merge(copies), orig);
    forall i | 0 <= i < USED
      ensures copies[k][i] | orig[i] == orig[i]
    {
      forall b | IsBit(b) && copies[k][i] & b != 0
        ensures orig[i] & b != 0
      {
        assert Has(copies[k], i, b);
        MergeBit(copies, i, b);
      }
      BitsWithin(copies[k][i], orig[i]);
    }
  }

  lemma BitsWithin(x: bv8, y: bv8)
    requires forall b :: IsBit(b) ==> (x & b != 0 ==> y & b != 0)
    ensures x | y == y
  {
    forall b | IsBit(b)
      ensures (x | y) & b != 0 <==> y & b != 0
    {
      OrBit(x, y, b);
    }
    BitsDecide(x | y, y);
  }

  /** Nothing but the original passes the digest check: no other copy, and no other merge. */
  ghost predicate DigestTrusted(copies: seq<Page>, orig: Page) {
    && (forall k :: 0 <= k < |copies| && Intact(copies[k]) ==> copies[k][..USED] == orig[..USED])
    && (Intact(Merge(copies)) ==> Merge(copies)[..USED] == orig[..USED])
  }

  /** Any copies: the table of orig is read exactly if some copy is intact, or every bit of orig
      survives in some flagged copy and no flagged copy adds one. */
  lemma ReadsIff(copies: seq<Page>, orig: Page)
    requires Intact(orig) && DigestTrusted(copies, orig)
    ensures Recover(copies) == (0, Table(orig)) <==>
            (exists k :: 0 <= k < |copies| && Intact(copies[k]))
            || (EveryBitSurvives(copies, orig) && NoForeignBits(copies, orig))
  {
    hide Intact, Table, Merge, Flagged, Recover, OnlyCleared, EveryBitSurvives, NoForeignBits;
    if k :| 0 <= k < |copies| && Intact(copies[k]) {
      SomeFirstIntact(copies, k);
      var i :| FirstIntact(copies, i);
      RecoverFirst(copies, i);
      SameUsedPart(copies[i], orig);
    } else {
      MergeExactIff(copies, orig);
      RecoverMerged(copies);
      if Merge(copies)[..USED] == orig[..USED] {
        SameUsedPart(Merge(copies), orig);
        IntactFlagged(orig);
      }
    }
  }

  /** The direction a user needs, without any assumption about the merge: if no damaged copy passes
      the check, surviving bits are enough. */
  lemma DamageRepaired(copies: seq<Page>, orig: Page)
    requires Intact(orig) && EveryBitSurvives(copies, orig)
    requires forall k :: 0 <= k < |copies| && Flagged(copies[k]) ==> OnlyCleared(copies[k], orig)
    requires forall k :: 0 <= k < |copies| && Intact(copies[k]) ==> copies[k][..USED] == orig[..USED]
    ensures Recover(copies) == (0, Table(orig))
  {
    hide Intact, Table, Merge, Flagged, Recover, OnlyCleared, EveryBitSurvives;
    MergeRestoresIff(copies, orig);
    DamageRepairedIff(copies, orig);
  }

  lemma IntactFlagged(p: Page)
    requires Intact(p)
    ensures Flagged(p)
  {
  }
}
