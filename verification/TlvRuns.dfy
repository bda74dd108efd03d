/** Whole runs of the store: any list of stores and deletions, each possibly cut short by a
    power loss at any flash call, with start-up itself cut short any number of times. */
module TlvRuns {
  import opened Words
  import opened FlashBank
  import opened TlvLayout
  import opened TlvStore

  datatype Op = Put(tag: u32, data: Value) | Del(tag: u32)

  /** One operation; on a power loss, which image survives it, and at which image each of the
      following start-ups is cut short in turn. */
  datatype Event = Event(op: Op, powerLoss: bool, at: nat, again: seq<nat>)

  ghost predicate ValidOp(op: Op) {
    op.Put? ==> op.tag != 0 && op.tag != NO_TAG
  }

  /** What an operation does to the map. */
  ghost function Apply(m: TagMap, op: Op, size: nat): TagMap {
    match op
    case Put(tag, data) => if 8 + Room(m) + 8 + |data| > size then m else m[tag as int := data]
    case Del(tag) => m - {tag as int}
  }

  /** A completed event applies the operation; one with a power loss applies it or does not. */
  ghost predicate Follows(m: TagMap, ev: Event, m': TagMap, size: nat) {
    m' == Apply(m, ev.op, size) || (ev.powerLoss && m' == m)
  }

  /** Perform one operation on a store. */
  method Perform(s: TagStore, op: Op)
    requires s.Valid() && s.Durable() && ValidOp(op)
    requires op.Put? ==> s.Left(|op.data|) < 0 || 8 <= s.Left(|op.data|)
    modifies s, s.flash, s.flash.bank0, s.flash.bank1
    ensures s.Valid() && s.Durable() && s.Map() == Apply(old(s.Map()), op, s.flash.size)
    ensures old(s.flash.trace) <= s.flash.trace
    ensures s.SafeSince(|old(s.flash.trace)|, old(s.Map()), s.Map())
  {
    hide Live, Current, Unique, Recovers, Room;
    match op
    case Put(tag, data) =>
      s.LeftFits(|data|);
      var r := s.StoreTag(tag, data);
    case Del(tag) =>
      s.DeleteTag(tag);
  }

  /** Power comes back: start-up, cut short once for every entry of again, then completed. */
  method PowerUp(s: TagStore, again: seq<nat>, ghost m: TagMap)
    requires s.flash.Valid() && Recovers(s.flash.Img(), s.flash.size, m)
    modifies s, s.flash, s.flash.bank0, s.flash.bank1
    ensures s.Valid() && s.Durable() && s.Map() == m
  {
    hide Recovers, Live, Current, Unique;
    var i := 0;
    while i < |again|
      invariant 0 <= i <= |again|
      invariant s.flash.Valid() && Recovers(s.flash.Img(), s.flash.size, m)
    {
      var t0, before := |s.flash.trace|, s.flash.Img();
      s.Init(m, false);
      PowerLoss(s.flash, t0, before, again[i], m, m);
      i := i + 1;
    }
    s.Init(m, false);
  }

  /** Flash falls back to an image from before or during the last operation. */
  method PowerLoss(flash: FlashBanks, t0: nat, before: Image, at: nat, ghost m0: TagMap, ghost m1: TagMap)
    requires flash.Valid() && t0 <= |flash.trace| && Recovers(before, flash.size, m0)
    requires forall i :: t0 <= i < |flash.trace| ==>
      Recovers(flash.trace[i], flash.size, m0) || Recovers(flash.trace[i], flash.size, m1)
    modifies flash.bank0, flash.bank1
    ensures Recovers(flash.Img(), flash.size, m0) || Recovers(flash.Img(), flash.size, m1)
  {
    var j := at % (|flash.trace| - t0 + 1);
    if j == 0 {
      flash.Restore(before);
    } else {
      flash.Restore(flash.trace[t0 + j - 1]);
    }
  }

  /** A store that would leave fewer than 8 bytes free. */
  ghost predicate TooTight(s: TagStore, op: Op)
    requires s.Valid()
    reads s, s.flash.bank0, s.flash.bank1
  {
    op.Put? && 0 <= s.Left(|op.data|) < 8
  }

  /** Every run follows the map: after each event the store holds the map from before or after
      the operation, the latter whenever power stayed on.  A run ends early only in front of a
      store that would leave fewer than 8 bytes free. */
  method Run(s: TagStore, events: seq<Event>) returns (ghost maps: seq<TagMap>, done: nat)
    requires s.Valid() && s.Durable() && forall ev <- events :: ValidOp(ev.op)
    modifies s, s.flash, s.flash.bank0, s.flash.bank1
    ensures s.Valid() && s.Durable()
    ensures done <= |events| && (done == |events| || TooTight(s, events[done].op))
    ensures |maps| == done + 1 && maps[0] == old(s.Map()) && maps[done] == s.Map()
    ensures forall i :: 0 <= i < done ==> Follows(maps[i], events[i], maps[i + 1], s.flash.size)
  {
    hide Recovers, Live, Current, Unique, Apply;
    maps, done := [s.Map()], 0;
    while done < |events|
      invariant done <= |events| && |maps| == done + 1
      invariant s.Valid() && s.Durable() && maps[0] == old(s.Map()) && maps[done] == s.Map()
      invariant forall j :: 0 <= j < done ==> Follows(maps[j], events[j], maps[j + 1], s.flash.size)
    {
      var ev := events[done];
      assert ev in events;
      if ev.op.Put? {
        var left := s.SpaceLeft(|ev.op.data|);
        if 0 <= left < 8 { return; }
      }
      ghost var m0 := s.Map();
      DoEvent(s, ev);
      assert Follows(m0, ev, s.Map(), s.flash.size);
      maps, done := maps + [s.Map()], done + 1;
    }
  }

  method DoEvent(s: TagStore, ev: Event)
    requires s.Valid() && s.Durable() && ValidOp(ev.op)
    requires ev.op.Put? ==> s.Left(|ev.op.data|) < 0 || 8 <= s.Left(|ev.op.data|)
    modifies s, s.flash, s.flash.bank0, s.flash.bank1
    ensures s.Valid() && s.Durable() && Follows(old(s.Map()), ev, s.Map(), s.flash.size)
  {
    hide Recovers, Live, Current, Unique, Apply;
    ghost var m0 := s.Map();
    var t0, before := |s.flash.trace|, s.flash.Img();
    s.ValidRecovers();
    Perform(s, ev.op);
    if ev.powerLoss {
      ghost var m1 := s.Map();
      PowerLoss(s.flash, t0, before, ev.at, m0, m1);
      ghost var m := if Recovers(s.flash.Img(), s.flash.size, m0) then m0 else m1;
      PowerUp(s, ev.again, m);
    }
  }

  /** A store on blank or foreign flash starts empty. */
  method Fresh(flash: FlashBanks) returns (s: TagStore)
    requires flash.Valid() && 16 <= flash.size && !HasMagic(flash.Img().b0) && !HasMagic(flash.Img().b1)
    modifies flash, flash.bank0, flash.bank1
    ensures s.flash == flash && s.Valid() && s.Durable() && s.Map() == map[]
  {
    s := new TagStore(flash);
    s.Init(map[], false);
  }
}
