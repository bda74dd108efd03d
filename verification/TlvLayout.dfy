/** What a bank means: a header, a list of entries, and the space behind them; and which map
    of tags to values a pair of banks stands for, also after a power loss. */
module TlvLayout {
  import opened Words
  import opened FlashBank
  import opened SeqFacts

  const MAGIC: seq<byte> := [0x42, 0x54, 0x73, 0x74, 0x61, 0x63, 0x6B]
  const NO_TAG := 0xFFFF_FFFF

  type Value = v: seq<byte> | |v| < 0x8000_0000

  /** A tag of 0 marks a deleted entry. */
  datatype Entry = Entry(tag: u32, val: Value)

  type TagMap = map<int, Value>

  // ----- serialisation

  function Head(e: Entry): (r: seq<byte>)
    ensures |r| == 8
  {
    ToBe32(e.tag) + ToBe32(|e.val|)
  }

  function Ser(es: seq<Entry>): seq<byte> {
    if es == [] then [] else Head(es[0]) + es[0].val + Ser(es[1..])
  }

  lemma {:induction false} SerAppend(a: seq<Entry>, b: seq<Entry>)
    ensures Ser(a + b) == Ser(a) + Ser(b)
    decreases |a|
  {
    if a == [] {
      assert a + b == b;
    } else {
      assert (a + b)[1..] == a[1..] + b;
      SerAppend(a[1..], b);
    }
  }

  lemma SerOne(e: Entry)
    ensures Ser([e]) == Head(e) + e.val
  {
    assert [e][1..] == [];
  }

  /** Ser around entry k. */
  lemma SerAt(es: seq<Entry>, k: nat)
    requires k < |es|
    ensures Ser(es) == Ser(es[..k]) + (Head(es[k]) + es[k].val) + Ser(es[k + 1..])
    ensures Ser(es[..k + 1]) == Ser(es[..k]) + (Head(es[k]) + es[k].val)
  {
    hide Ser, Head;
    TakeOne(es, k);
    SerAppend(es[..k + 1], es[k + 1..]);
    SerAppend(es[..k], [es[k]]);
    SerOne(es[k]);
  }

  lemma TakeOne<T>(s: seq<T>, k: nat)
    requires k < |s|
    ensures s == s[..k + 1] + s[k + 1..] && s[..k + 1] == s[..k] + [s[k]]
  {
  }

  /** Offset behind the header and the given entries. */
  function End(es: seq<Entry>): nat { 8 + |Ser(es)| }

  // ----- a bank

  function Header(hb: byte): (r: seq<byte>)
    ensures |r| == 8
  {
    MAGIC + [hb]
  }

  ghost predicate HasMagic(bank: seq<byte>) {
    8 <= |bank| && bank[..7] == MAGIC
  }

  /** Space behind the entries: none, or at least a header's worth with no tag in it. */
  ghost predicate NoEntry(rest: seq<byte>) {
    rest == [] || (8 <= |rest| && rest[..4] == Erased(4))
  }

  ghost predicate Holds(bank: seq<byte>, hb: byte, es: seq<Entry>, rest: seq<byte>) {
    && 16 <= |bank| < 0x8000_0000
    && bank == Header(hb) + Ser(es) + rest
    && (forall i :: 0 <= i < |es| ==> es[i].tag != NO_TAG)
    && NoEntry(rest)
  }

  lemma HeadFields(e: Entry)
    ensures Head(e)[0..4] == ToBe32(e.tag) && Head(e)[4..8] == ToBe32(|e.val|)
    ensures Be32(ToBe32(e.tag), 0) == e.tag && Be32(ToBe32(|e.val|), 0) == |e.val|
  {
    Be32RoundTrip(e.tag);
    Be32RoundTrip(|e.val|);
  }

  /** The bank around entry k. */
  lemma BankAt(bank: seq<byte>, hb: byte, es: seq<Entry>, rest: seq<byte>, k: nat)
    requires Holds(bank, hb, es, rest) && k < |es|
    ensures bank == (Header(hb) + Ser(es[..k])) + (Head(es[k]) + es[k].val) + (Ser(es[k + 1..]) + rest)
  {
    hide Ser, Head, Header;
    SerAt(es, k);
    Inner(Header(hb), Ser(es[..k]), Head(es[k]) + es[k].val, Ser(es[k + 1..]), rest);
  }

  lemma EntryAt(bank: seq<byte>, hb: byte, es: seq<Entry>, rest: seq<byte>, k: nat)
    requires Holds(bank, hb, es, rest) && k < |es|
    ensures var off, e := End(es[..k]), es[k];
            && off + 8 + |e.val| == End(es[..k + 1]) <= |bank|
            && Be32(bank, off) == e.tag && Be32(bank, off + 4) == |e.val|
            && bank[off + 8..off + 8 + |e.val|] == e.val
            && bank[off..off + 8 + |e.val|] == Head(e) + e.val
  {
    hide Ser, Head, Header, Holds, Be32, ToBe32;
    var off, e := End(es[..k]), es[k];
    var x, z := Header(hb) + Ser(es[..k]), Ser(es[k + 1..]) + rest;
    BankAt(bank, hb, es, rest, k);
    SerAt(es, k);
    Slice(x, Head(e) + e.val, z);
    SplitMiddle(x, Head(e), e.val, z);
    Slice(x, Head(e), e.val + z);
    Slice(x + Head(e), e.val, z);
    HeadFields(e);
    SubSlice(bank, off, off + 8, 0, 4);
    SubSlice(bank, off, off + 8, 4, 8);
    Be32Slice(bank, off, ToBe32(e.tag));
    Be32Slice(bank, off + 4, ToBe32(|e.val|));
  }

  lemma Be32Slice(bank: seq<byte>, off: nat, b: seq<byte>)
    requires off + 4 <= |bank| && |b| == 4 && bank[off..off + 4] == b
    ensures Be32(bank, off) == Be32(b, 0)
  {
    assert b[0] == bank[off] && b[1] == bank[off + 1] && b[2] == bank[off + 2] && b[3] == bank[off + 3];
  }

  lemma {:induction false} EndMonotone(es: seq<Entry>, i: nat, j: nat)
    requires i <= j <= |es|
    ensures End(es[..i]) + 8 * (j - i) <= End(es[..j])
    decreases j - i
  {
    if i < j {
      SerAt(es, j - 1);
      EndMonotone(es, i, j - 1);
    }
  }

  lemma EndAt(bank: seq<byte>, hb: byte, es: seq<Entry>, rest: seq<byte>)
    requires Holds(bank, hb, es, rest)
    ensures es[..|es|] == es && End(es) + |rest| == |bank| && bank[End(es)..] == rest
    ensures rest != [] ==> End(es) + 8 <= |bank| && Be32(bank, End(es)) == NO_TAG
  {
    if rest != [] {
      assert bank[End(es)..End(es) + 4] == rest[..4];
      Be32Slice(bank, End(es), Erased(4));
    }
  }

  lemma NotMarked(bank: seq<byte>, hb: byte, es: seq<Entry>, rest: seq<byte>, k: nat)
    requires Holds(bank, hb, es, rest) && k <= |es|
    ensures k < |es| ==> es[k].tag != NO_TAG
  {
  }

  lemma {:induction false} SamePrefix(bank: seq<byte>, hb: byte, es: seq<Entry>, rest: seq<byte>,
                                      es': seq<Entry>, rest': seq<byte>, k: nat)
    requires Holds(bank, hb, es, rest) && Holds(bank, hb, es', rest') && k <= |es|
    ensures k <= |es'| && es[..k] == es'[..k]
  {
    hide Ser, Be32, Header, Holds, NoEntry;
    if k > 0 {
      SamePrefix(bank, hb, es, rest, es', rest', k - 1);
      EntryAt(bank, hb, es, rest, k - 1);
      EndAt(bank, hb, es', rest');
      NotMarked(bank, hb, es, rest, k - 1);
      EntryAt(bank, hb, es', rest', k - 1);
      assert es[..k] == es[..k - 1] + [es[k - 1]] && es'[..k] == es'[..k - 1] + [es'[k - 1]];
    }
  }

  /** A bank holds one list of entries only. */
  lemma HoldsOne(bank: seq<byte>, hb: byte, es: seq<Entry>, rest: seq<byte>,
                 hb': byte, es': seq<Entry>, rest': seq<byte>)
    requires Holds(bank, hb, es, rest) && Holds(bank, hb', es', rest')
    ensures hb == hb' && es == es' && rest == rest'
  {
    hide Ser, Header, Holds, NoEntry;
    HoldsMagic(bank, hb, es, rest);
    HoldsMagic(bank, hb', es', rest');
    SamePrefix(bank, hb, es, rest, es', rest', |es|);
    SamePrefix(bank, hb, es', rest', es, rest, |es'|);
    EndAt(bank, hb, es, rest);
    EndAt(bank, hb', es', rest');
  }

  // ----- the map

  /** Later entries win; deleted ones do not count. */
  function Live(es: seq<Entry>): TagMap {
    if es == [] then map[]
    else
      var m, e := Live(es[..|es| - 1]), es[|es| - 1];
      if e.tag == 0 then m else m[e.tag as int := e.val]
  }

  ghost predicate Unique(es: seq<Entry>) {
    forall i, j :: 0 <= i < j < |es| && es[i].tag != 0 ==> es[i].tag != es[j].tag
  }

  lemma LiveAppend(es: seq<Entry>, e: Entry)
    ensures Live(es + [e]) == if e.tag == 0 then Live(es) else Live(es)[e.tag as int := e.val]
  {
    assert (es + [e])[..|es|] == es;
  }

  lemma {:induction false} LiveIsEntry(es: seq<Entry>, t: int)
    ensures t in Live(es) <==> t != 0 && exists i :: 0 <= i < |es| && es[i].tag == t
    decreases |es|
  {
    if es != [] {
      var init, e := es[..|es| - 1], es[|es| - 1];
      LiveIsEntry(init, t);
      if t in Live(init) {
        var i :| 0 <= i < |init| && init[i].tag == t;
        assert es[i].tag == t;
      }
      if t != 0 && (exists i :: 0 <= i < |es| && es[i].tag == t) && e.tag != t {
        var i :| 0 <= i < |es| && es[i].tag == t;
        assert init[i].tag == t;
      }
    }
  }

  lemma {:induction false} LiveValue(es: seq<Entry>, i: nat)
    requires Unique(es) && i < |es| && es[i].tag != 0
    ensures es[i].tag in Live(es) && Live(es)[es[i].tag as int] == es[i].val
    decreases |es|
  {
    if i < |es| - 1 { LiveValue(es[..|es| - 1], i); }
  }

  /** Zero the tag in the first k entries. */
  function Kill(es: seq<Entry>, tag: int, k: nat): (r: seq<Entry>)
    ensures |r| == |es|
  {
    seq(|es|, i requires 0 <= i < |es| =>
      if i < k && es[i].tag == tag then es[i].(tag := 0) else es[i])
  }

  lemma KillStep(es: seq<Entry>, tag: int, k: nat)
    requires k < |es|
    ensures Kill(es, tag, k + 1) ==
            (if es[k].tag == tag then Kill(es, tag, k)[k := es[k].(tag := 0)] else Kill(es, tag, k))
    ensures Kill(es, tag, k)[k] == es[k]
  {
  }

  lemma {:induction false} KillSize(es: seq<Entry>, tag: int, k: nat, n: nat)
    requires n <= |es|
    ensures |Ser(Kill(es, tag, k)[..n])| == |Ser(es[..n])|
    decreases n
  {
    if n > 0 {
      SerAt(es, n - 1);
      SerAt(Kill(es, tag, k), n - 1);
      KillSize(es, tag, k, n - 1);
    }
  }

  lemma KillUnique(es: seq<Entry>, tag: int, k: nat)
    requires Unique(es)
    ensures Unique(Kill(es, tag, k))
  {
  }

  lemma KillLiveAt(es: seq<Entry>, tag: int, t: int)
    requires Unique(es)
    ensures var ks := Kill(es, tag, |es|);
            && (t in Live(ks) <==> t in Live(es) && t != tag)
            && (t in Live(ks) ==> Live(ks)[t] == Live(es)[t])
  {
    hide Live;
    var ks := Kill(es, tag, |es|);
    KillUnique(es, tag, |es|);
    LiveIsEntry(es, t);
    LiveIsEntry(ks, t);
    if t in Live(es) && t != tag {
      var i :| 0 <= i < |es| && es[i].tag == t;
      assert ks[i] == es[i];
      LiveValue(es, i);
      LiveValue(ks, i);
    }
    if t in Live(ks) {
      var i :| 0 <= i < |ks| && ks[i].tag == t;
      assert es[i].tag == t;
    }
  }

  /** Deleting a tag everywhere removes it from the map and nothing else. */
  lemma KillLive(es: seq<Entry>, tag: int)
    requires Unique(es)
    ensures Live(Kill(es, tag, |es|)) == Live(es) - {tag}
  {
    hide Live, Kill, Unique;
    forall t: int
      ensures t in Live(Kill(es, tag, |es|)) <==> t in Live(es) && t != tag
      ensures t in Live(Kill(es, tag, |es|)) ==> Live(Kill(es, tag, |es|))[t] == Live(es)[t]
    {
      KillLiveAt(es, tag, t);
    }
  }

  /** What start-up makes of the entries: older instances of the last tag are dropped. */
  function Dedupe(es: seq<Entry>): seq<Entry> {
    if es == [] || es[|es| - 1].tag == 0 then es
    else Kill(es, es[|es| - 1].tag, |es| - 1)
  }

  lemma DedupeUnique(es: seq<Entry>)
    requires Unique(es)
    ensures Dedupe(es) == es
  {
  }

  /** While a stored tag's older instance is being deleted, start-up already sees the new map. */
  lemma KillAppended(es: seq<Entry>, e: Entry, k: nat)
    requires e.tag != 0 && k <= |es|
    ensures Dedupe(Kill(es + [e], e.tag, k)) == Kill(es, e.tag, |es|) + [e] == Kill(es + [e], e.tag, |es|)
  {
    var ks := Kill(es + [e], e.tag, k);
    assert ks[|ks| - 1] == e;
    assert Kill(ks, e.tag, |es|) == Kill(es + [e], e.tag, |es|);
  }

  lemma KilledUnique(es: seq<Entry>, e: Entry)
    requires Unique(es)
    ensures Unique(Kill(es, e.tag, |es|) + [e])
  {
  }

  lemma DedupeAppended(es: seq<Entry>, e: Entry, k: nat)
    requires Unique(es) && e.tag != 0 && k <= |es|
    ensures Dedupe(Kill(es + [e], e.tag, k)) == Kill(es, e.tag, |es|) + [e] == Kill(es + [e], e.tag, |es|)
    ensures Unique(Kill(es, e.tag, |es|) + [e])
    ensures Live(Kill(es, e.tag, |es|) + [e]) == Live(es)[e.tag as int := e.val]
  {
    hide Live, Dedupe, Kill, Unique;
    KillAppended(es, e, k);
    KilledUnique(es, e);
    KillLive(es, e.tag);
    LiveAppend(Kill(es, e.tag, |es|), e);
    assert (Live(es) - {e.tag as int})[e.tag as int := e.val] == Live(es)[e.tag as int := e.val];
  }

  /** Start-up may be interrupted at any point of its own clean-up. */
  lemma DedupeAgain(es: seq<Entry>, k: nat)
    requires es != [] && es[|es| - 1].tag != 0 && k < |es|
    ensures Dedupe(Kill(es, es[|es| - 1].tag, k)) == Dedupe(es)
  {
    assert Kill(es, es[|es| - 1].tag, k)[|es| - 1] == es[|es| - 1];
  }

  /** Entries that are not deleted, in order. */
  function Compact(es: seq<Entry>): (r: seq<Entry>)
    ensures forall i :: 0 <= i < |r| ==> r[i].tag != 0 && r[i] in es
  {
    if es == [] then []
    else
      var e := es[|es| - 1];
      if e.tag == 0 then Compact(es[..|es| - 1]) else Compact(es[..|es| - 1]) + [e]
  }

  lemma CompactStep(es: seq<Entry>, k: nat)
    requires k < |es|
    ensures Compact(es[..k + 1]) == if es[k].tag == 0 then Compact(es[..k]) else Compact(es[..k]) + [es[k]]
  {
    assert es[..k + 1][..k] == es[..k];
  }

  lemma UniqueAppend(es: seq<Entry>, e: Entry)
    requires Unique(es) && forall i :: 0 <= i < |es| ==> es[i].tag != e.tag
    ensures Unique(es + [e])
  {
  }

  lemma {:induction false} CompactUnique(es: seq<Entry>)
    requires Unique(es)
    ensures Unique(Compact(es))
    decreases |es|
  {
    if es != [] {
      var init, e := es[..|es| - 1], es[|es| - 1];
      CompactUnique(init);
      if e.tag != 0 {
        var c := Compact(init);
        forall i | 0 <= i < |c|
          ensures c[i].tag != e.tag
        {
          var j :| 0 <= j < |init| && init[j] == c[i];
          assert es[j] == c[i];
        }
        UniqueAppend(c, e);
      }
    }
  }

  lemma {:induction false} CompactLive(es: seq<Entry>)
    ensures Live(Compact(es)) == Live(es)
    decreases |es|
  {
    if es != [] {
      CompactLive(es[..|es| - 1]);
      LiveAppend(Compact(es[..|es| - 1]), es[|es| - 1]);
    }
  }

  lemma {:induction false} CompactSize(es: seq<Entry>)
    ensures |Ser(Compact(es))| <= |Ser(es)|
    decreases |es|
  {
    if es != [] {
      var init, e := es[..|es| - 1], es[|es| - 1];
      CompactSize(init);
      assert es == init + [e];
      SerAppend(init, [e]);
      SerOne(e);
      SerAppend(Compact(init), [e]);
    }
  }

  // ----- how much room a map needs

  lemma SomeTag(tags: set<int>)
    requires tags != {}
    ensures exists t :: t in tags
  {
    assert (forall t :: t !in tags) ==> tags == {};
  }

  /** Bytes a map occupies once compacted. */
  ghost function Room(m: TagMap): nat {
    if m.Keys == {} then 0
    else
      SomeTag(m.Keys);
      var t :| t in m.Keys;
      8 + |m[t]| + Room(m - {t})
  }

  lemma {:induction false} RoomRemove(m: TagMap, t: int)
    requires t in m
    ensures Room(m) == 8 + |m[t]| + Room(m - {t})
    decreases |m|
  {
    var u :| u in m.Keys && Room(m) == 8 + |m[u]| + Room(m - {u});
    if u != t {
      RoomRemove(m - {u}, t);
      RoomRemove(m - {t}, u);
      assert m - {u} - {t} == m - {t} - {u};
    }
  }

  lemma RoomAdd(m: TagMap, t: int, v: Value)
    requires t !in m
    ensures Room(m[t := v]) == Room(m) + 8 + |v|
  {
    RoomRemove(m[t := v], t);
    assert m[t := v] - {t} == m;
  }

  lemma {:induction false} RoomCompact(es: seq<Entry>)
    requires Unique(es)
    ensures |Ser(Compact(es))| == Room(Live(es))
    decreases |es|
  {
    hide Room;
    if es != [] {
      var init, e := es[..|es| - 1], es[|es| - 1];
      assert es == init + [e];
      RoomCompact(init);
      LiveAppend(init, e);
      if e.tag != 0 {
        SerAppend(Compact(init), [e]);
        SerOne(e);
        LiveIsEntry(init, e.tag);
        RoomAdd(Live(init), e.tag, e.val);
      }
    } else {
      RoomEmpty();
    }
  }

  lemma RoomEmpty()
    ensures Room(map[]) == 0
  {
  }

  // ----- two banks

  /** The other bank is blank or one epoch behind. */
  ghost predicate Stale(other: seq<byte>, hb: byte) {
    HasMagic(other) ==> hb % 4 == (other[7] as int + 1) % 4
  }

  ghost predicate Current(img: Image, size: nat, cur: nat, hb: byte, es: seq<Entry>, rest: seq<byte>) {
    && cur < 2 && |img.b0| == |img.b1| == size
    && Holds(img.Bank(cur), hb, es, rest)
    && Stale(img.Bank(1 - cur), hb)
  }

  /** The bank start-up picks. */
  function Latest(img: Image): int
    requires |img.b0| >= 8 && |img.b1| >= 8
  {
    var valid0, valid1 := img.b0[..7] == MAGIC, img.b1[..7] == MAGIC;
    if !valid0 && !valid1 then -1
    else if valid0 && !valid1 then 0
    else if !valid0 && valid1 then 1
    else
      var epoch0, epoch1 := img.b0[7] % 4, img.b1[7] % 4;
      if epoch0 == (epoch1 + 1) % 4 then 0
      else if epoch1 == (epoch0 + 1) % 4 then 1
      else -1
  }

  /** A bank is picked exactly if it has a header and the other one has none or is one epoch behind. */
  lemma LatestIff(img: Image, b: nat)
    requires |img.b0| >= 8 && |img.b1| >= 8 && b < 2
    ensures Latest(img) == b <==> HasMagic(img.Bank(b)) && Stale(img.Bank(1 - b), img.Bank(b)[7])
    ensures -1 <= Latest(img) < 2
  {
  }

  lemma HoldsMagic(bank: seq<byte>, hb: byte, es: seq<Entry>, rest: seq<byte>)
    requires Holds(bank, hb, es, rest)
    ensures HasMagic(bank) && bank[7] == hb && bank[..8] == Header(hb)
    ensures bank[..7] == [0x42, 0x54, 0x73, 0x74, 0x61, 0x63, 0x6B]
  {
  }

  lemma LatestIsCurrent(img: Image, size: nat, cur: nat, hb: byte, es: seq<Entry>, rest: seq<byte>)
    requires Current(img, size, cur, hb, es, rest)
    ensures |img.b0| >= 8 && |img.b1| >= 8 && Latest(img) == cur
  {
    HoldsMagic(img.Bank(cur), hb, es, rest);
  }

  /** Start-up from img yields the map m. */
  ghost predicate Recovers(img: Image, size: nat, m: TagMap) {
    && 16 <= size < 0x8000_0000 && |img.b0| == |img.b1| == size
    && ( (!HasMagic(img.b0) && !HasMagic(img.b1) && m == map[])
      || (exists cur, hb, es, rest :: Current(img, size, cur, hb, es, rest) && Yields(es, rest, m)))
  }

  ghost predicate Yields(es: seq<Entry>, rest: seq<byte>, m: TagMap) {
    rest != [] && Unique(Dedupe(es)) && Live(Dedupe(es)) == m
  }

  /** Flash stands for one map only. */
  lemma RecoversOne(img: Image, size: nat, m: TagMap, m': TagMap)
    requires Recovers(img, size, m) && Recovers(img, size, m')
    ensures m == m'
  {
    hide Holds, Live, Dedupe, Unique, Stale, HasMagic;
    forall cur, hb, es, rest | Current(img, size, cur, hb, es, rest)
      ensures Latest(img) == cur && HasMagic(img.Bank(cur))
    {
      LatestIsCurrent(img, size, cur, hb, es, rest);
      HoldsMagic(img.Bank(cur), hb, es, rest);
    }
    forall cur, hb, es, rest, hb', es', rest' |
        Current(img, size, cur, hb, es, rest) && Current(img, size, cur, hb', es', rest')
      ensures es == es'
    {
      HoldsOne(img.Bank(cur), hb, es, rest, hb', es', rest');
    }
  }

  /** Flash as completed operations leave it: each live tag once, and erased cells behind. */
  ghost predicate Clean(img: Image, size: nat) {
    exists cur, hb, es, rest :: Current(img, size, cur, hb, es, rest) && Tidy(es, rest)
  }

  ghost predicate Tidy(es: seq<Entry>, rest: seq<byte>) {
    Unique(es) && rest != [] && rest == Erased(|rest|)
  }

  lemma NotClean(img: Image, size: nat)
    requires |img.b0| >= 8 && |img.b1| >= 8 && Latest(img) < 0
    ensures !Clean(img, size)
  {
    hide Holds, Stale, Tidy, Latest;
    forall cur, hb, es, rest | Current(img, size, cur, hb, es, rest)
      ensures Latest(img) == cur
    {
      LatestIsCurrent(img, size, cur, hb, es, rest);
    }
  }

  lemma CleanIsTidy(img: Image, size: nat, cur: nat, hb: byte, es: seq<Entry>, rest: seq<byte>)
    requires Clean(img, size) && Current(img, size, cur, hb, es, rest)
    ensures Tidy(es, rest)
  {
    hide Holds, Stale, Tidy;
    var cur', hb', es', rest' :| Current(img, size, cur', hb', es', rest') && Tidy(es', rest');
    LatestIsCurrent(img, size, cur, hb, es, rest);
    LatestIsCurrent(img, size, cur', hb', es', rest');
    HoldsOne(img.Bank(cur), hb, es, rest, hb', es', rest');
  }

  lemma RecoversBy(img: Image, size: nat, m: TagMap, cur: nat, hb: byte, es: seq<Entry>, rest: seq<byte>)
    requires Current(img, size, cur, hb, es, rest) && Yields(es, rest, m)
    ensures Recovers(img, size, m)
  {
  }

  // ----- effect of the writes the store makes

  /** Writing data to the start of an erased stretch. */
  lemma ProgramErased(x: seq<byte>, n: nat, z: seq<byte>, data: seq<byte>)
    requires |data| <= n
    ensures MayProgram(x + Erased(n) + z, |x|, data)
    ensures Program(x + Erased(n) + z, |x|, data) == x + data + Erased(n - |data|) + z
  {
  }

  /** Overwriting a tag with zero. */
  lemma ProgramZeroTag(bank: seq<byte>, hb: byte, es: seq<Entry>, rest: seq<byte>, k: nat)
    requires Holds(bank, hb, es, rest) && k < |es|
    ensures MayProgram(bank, End(es[..k]), [0, 0, 0, 0])
    ensures Holds(Program(bank, End(es[..k]), [0, 0, 0, 0]), hb, es[k := es[k].(tag := 0)], rest)
  {
    hide Ser, Header, MayProgram, Program, ToBe32;
    var e, e0 := es[k], es[k].(tag := 0);
    var es0 := es[k := e0];
    SerAt(es, k);
    SerAt(es0, k);
    assert es0[..k] == es[..k] && es0[k + 1..] == es[k + 1..];
    var len, after := ToBe32(|e.val|) + e.val, Ser(es[k + 1..]);
    var x, z := Header(hb) + Ser(es[..k]), len + (after + rest);
    ZeroTagBytes();
    Around(Header(hb), Ser(es[..k]), ToBe32(e.tag), ToBe32(|e.val|), e.val, after, rest);
    Around(Header(hb), Ser(es[..k]), ToBe32(0), ToBe32(|e.val|), e.val, after, rest);
    ProgramOver(x, ToBe32(e.tag), z, [0, 0, 0, 0]);
  }

  lemma ZeroTagBytes()
    ensures ToBe32(0) == [0, 0, 0, 0]
  {
  }

  lemma Around<T>(h: seq<T>, a: seq<T>, t: seq<T>, l: seq<T>, v: seq<T>, b: seq<T>, r: seq<T>)
    ensures h + (a + (t + l + v) + b) + r == (h + a) + t + ((l + v) + (b + r))
  {
  }

  lemma ProgramOver(x: seq<byte>, y: seq<byte>, z: seq<byte>, data: seq<byte>)
    requires |y| == |data| && forall i :: 0 <= i < |data| ==> data[i] == 0
    ensures MayProgram(x + y + z, |x|, data)
    ensures Program(x + y + z, |x|, data) == x + data + z
  {
  }

  /** The value goes in first; without its header the entry does not exist yet. */
  lemma ProgramValue(bank: seq<byte>, hb: byte, es: seq<Entry>, n: nat, data: seq<byte>)
    requires Holds(bank, hb, es, Erased(n)) && 8 + |data| <= n
    ensures MayProgram(bank, End(es) + 8, data)
    ensures Holds(Program(bank, End(es) + 8, data), hb, es, Erased(8) + data + Erased(n - 8 - |data|))
  {
    var x := Header(hb) + Ser(es) + Erased(8);
    assert bank == x + Erased(n - 8) + [];
    ProgramErased(x, n - 8, [], data);
    assert Program(bank, End(es) + 8, data) == Header(hb) + Ser(es) + (Erased(8) + data + Erased(n - 8 - |data|));
  }

  /** The header makes the entry exist. */
  lemma ProgramHead(bank: seq<byte>, hb: byte, es: seq<Entry>, rest: seq<byte>, e: Entry)
    requires Holds(bank, hb, es, Erased(8) + e.val + rest) && NoEntry(rest) && e.tag != NO_TAG
    ensures MayProgram(bank, End(es), Head(e))
    ensures Holds(Program(bank, End(es), Head(e)), hb, es + [e], rest)
  {
    hide Ser, Header, MayProgram, Program, Head;
    var x, z := Header(hb) + Ser(es), e.val + rest;
    assert bank == x + Erased(8) + z;
    ProgramErased(x, 8, z, Head(e));
    SerAppend(es, [e]);
    SerOne(e);
    assert x + Head(e) + Erased(0) + z == Header(hb) + (Ser(es) + (Head(e) + e.val)) + rest;
  }
}
