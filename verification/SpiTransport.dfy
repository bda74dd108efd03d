/** The SPI transport of the EM9304 controller: one state machine, moved by the main loop and by
    DMA completion interrupts, that cuts outgoing blocks into the pieces the slave has room for
    and cuts the incoming stream into the blocks the host asked for. */
module SpiTransport {
  import opened Words
  import opened RingBuffer
  import opened SeqFacts

  const STS_SLAVE_READY: byte := 0xc0
  const RX_BUFFER_SIZE := 64
  const RING_BUFFER_SIZE := 128

  datatype SpiState =
    | Idle
    | RxW4ReadCommandSent | RxReadCommandSent | RxW4DataReceived | RxDataReceived
    | TxW4Rdy | TxW4WriteCommandSent | TxWriteCommandSent | TxW4DataSent | TxDataSent
  {
    predicate Rx() { RxW4ReadCommandSent? || RxReadCommandSent? || RxW4DataReceived? || RxDataReceived? }

    predicate Tx() { !Idle? && !Rx() }

    /** Waiting for a DMA transfer. */
    predicate Waiting() { RxW4ReadCommandSent? || RxW4DataReceived? || TxW4WriteCommandSent? || TxW4DataSent? }
  }

  /** Chip select, DMA and the buffer bounds in each state. */
  ghost predicate Control(state: SpiState, selected: bool, dmaActive: bool, status0: byte, status1: byte,
                          rxRequestLen: nat, txRequestLen: nat, txSize: nat, waiting: nat)
  {
    && (selected <==> state != Idle)
    && (dmaActive <==> state.Waiting() && !(state == RxW4DataReceived && rxRequestLen == 0))
    && rxRequestLen <= RX_BUFFER_SIZE && txRequestLen <= txSize
    && (state.Rx() ==> waiting <= RING_BUFFER_SIZE - RX_BUFFER_SIZE)
    && (state == RxReadCommandSent && status0 == STS_SLAVE_READY ==> status1 <= RX_BUFFER_SIZE)
    && (state.Tx() ==> txSize > 0)
    && (state == TxW4DataSent || state == TxDataSent ==> 0 < txRequestLen <= status1)
  }

  /** A piece sent, with the room the slave had announced for it. */
  datatype Chunk = Chunk(room: nat, data: seq<byte>)

  function FlatChunks(chunks: seq<Chunk>): seq<byte> {
    if chunks == [] then [] else FlatChunks(chunks[..|chunks| - 1]) + chunks[|chunks| - 1].data
  }

  lemma FlatChunksAppend(chunks: seq<Chunk>, c: Chunk)
    ensures FlatChunks(chunks + [c]) == FlatChunks(chunks) + c.data
  {
    assert (chunks + [c])[..|chunks|] == chunks;
  }

  /** Non-empty pieces: at most as many as bytes. */
  lemma {:induction false} PiecesBounded(chunks: seq<Chunk>)
    requires forall i :: 0 <= i < |chunks| ==> 0 < |chunks[i].data|
    ensures |chunks| <= |FlatChunks(chunks)|
  {
    if chunks != [] {
      PiecesBounded(chunks[..|chunks| - 1]);
    }
  }

  /** Everything read from the slave is in a delivered block, in the block being filled, in the
      ring, or still in the DMA buffer, in this order; delivered blocks have the length asked. */
  ghost predicate RxLedger(read: seq<byte>, blocks: seq<seq<byte>>, requests: seq<nat>,
                           rxBlock: seq<byte>, rxLen: nat, ring: seq<byte>, arrived: seq<byte>)
  {
    && Concat(blocks) + rxBlock + ring + arrived == read
    && (rxLen == 0 ==> rxBlock == [])
    && |requests| == |blocks| + (if rxLen == 0 then 0 else 1)
    && (forall i :: 0 <= i < |blocks| ==> |blocks[i]| == requests[i])
    && (rxLen > 0 ==> requests[|blocks|] == |rxBlock| + rxLen)
  }

  /** Everything submitted has been sent or is still to be sent, in this order, in non-empty
      pieces that fit the room announced, and each block but an unfinished one was reported. */
  ghost predicate TxLedger(submitted: seq<seq<byte>>, chunks: seq<Chunk>, txDone: nat, unsent: seq<byte>,
          txRest: seq<byte>)
  {
    && FlatChunks(chunks) + unsent == Concat(submitted)
    && (forall i :: 0 <= i < |chunks| ==> 0 < |chunks[i].data| <= chunks[i].room)
    && |submitted| == txDone + (if txRest == [] then 0 else 1)
    && (txRest != [] ==> |txRest| <= |submitted[txDone]|)
  }

  /** Bytes move from the ring into the block being filled. */
  lemma MoveToBlock(read: seq<byte>, blocks: seq<seq<byte>>, requests: seq<nat>,
                    rxBlock: seq<byte>, rxLen: nat, data: seq<byte>, ring: seq<byte>, arrived: seq<byte>)
    requires RxLedger(read, blocks, requests, rxBlock, rxLen, data + ring, arrived)
    requires 0 < |data| <= rxLen
    ensures |data| < rxLen ==> RxLedger(read, blocks, requests, rxBlock + data, rxLen - |data|, ring, arrived)
    ensures |data| == rxLen ==> RxLedger(read, blocks + [rxBlock + data], requests, [], 0, ring, arrived)
  {
    ConcatAppend(blocks, rxBlock + data);
    var f := Concat(blocks);
    assert f + rxBlock + (data + ring) + arrived == f + (rxBlock + data) + ring + arrived;
    assert f + (rxBlock + data) + ring + arrived == (f + (rxBlock + data)) + [] + ring + arrived;
  }

  /** A completed read adds to what was read; moving it into the ring changes nothing else. */
  lemma ArrivedMoves(read: seq<byte>, blocks: seq<seq<byte>>, requests: seq<nat>,
                     rxBlock: seq<byte>, rxLen: nat, ring: seq<byte>, data: seq<byte>)
    ensures RxLedger(read, blocks, requests, rxBlock, rxLen, ring, []) ==>
              RxLedger(read + data, blocks, requests, rxBlock, rxLen, ring, data)
    ensures RxLedger(read, blocks, requests, rxBlock, rxLen, ring, data) ==>
              RxLedger(read, blocks, requests, rxBlock, rxLen, ring + data, [])
  {
    var f := Concat(blocks) + rxBlock;
    assert f + ring + [] + data == f + ring + data;
    assert f + (ring + data) + [] == f + ring + data;
  }

  lemma RequestAdded(read: seq<byte>, blocks: seq<seq<byte>>, requests: seq<nat>, length: nat, ring: seq<byte>,
          arrived: seq<byte>)
    requires RxLedger(read, blocks, requests, [], 0, ring, arrived) && length > 0
    ensures RxLedger(read, blocks, requests + [length], [], length, ring, arrived)
  {
  }

  lemma BlockSubmitted(submitted: seq<seq<byte>>, chunks: seq<Chunk>, txDone: nat, data: seq<byte>)
    requires TxLedger(submitted, chunks, txDone, [], []) && data != []
    ensures TxLedger(submitted + [data], chunks, txDone, data, data)
  {
    ConcatAppend(submitted, data);
  }

  lemma ChunkSent(submitted: seq<seq<byte>>, chunks: seq<Chunk>, txDone: nat, txRest: seq<byte>, c: Chunk)
    requires TxLedger(submitted, chunks, txDone, txRest, txRest)
    requires 0 < |c.data| <= c.room && c.data <= txRest
    ensures TxLedger(submitted, chunks + [c], txDone, txRest[|c.data|..], txRest)
  {
    FlatChunksAppend(chunks, c);
    var f := FlatChunks(chunks);
    assert txRest == c.data + txRest[|c.data|..];
    assert f + (c.data + txRest[|c.data|..]) == (f + c.data) + txRest[|c.data|..];
  }

  lemma ChunkProcessed(submitted: seq<seq<byte>>, chunks: seq<Chunk>, txDone: nat, rest: seq<byte>, before: seq<byte>)
    requires TxLedger(submitted, chunks, txDone, rest, before) && before != [] && |rest| <= |before|
    ensures TxLedger(submitted, chunks, txDone + (if rest == [] then 1 else 0), rest, rest)
  {
  }

  lemma NoRequest(read: seq<byte>, blocks: seq<seq<byte>>, requests: seq<nat>,
                  rxBlock: seq<byte>, rxLen: nat, ring: seq<byte>, arrived: seq<byte>)
    requires RxLedger(read, blocks, requests, rxBlock, rxLen, ring, arrived) && rxLen == 0
    ensures rxBlock == []
  {
  }

  lemma RxConserved(read: seq<byte>, blocks: seq<seq<byte>>, requests: seq<nat>,
                    rxBlock: seq<byte>, rxLen: nat, ring: seq<byte>, arrived: seq<byte>)
    requires RxLedger(read, blocks, requests, rxBlock, rxLen, ring, arrived)
    ensures Concat(blocks) <= read
    ensures |blocks| <= |requests| && forall i :: 0 <= i < |blocks| ==> |blocks[i]| == requests[i]
  {
    var f := Concat(blocks);
    assert f + rxBlock + ring + arrived == f + (rxBlock + ring + arrived);
  }

  lemma TxConserved(submitted: seq<seq<byte>>, chunks: seq<Chunk>, txDone: nat, unsent: seq<byte>, txRest: seq<byte>)
    requires TxLedger(submitted, chunks, txDone, unsent, txRest) && |unsent| <= |txRest|
    ensures FlatChunks(chunks) <= Concat(submitted) && |chunks| <= |Concat(submitted)|
    ensures txDone <= |submitted| <= txDone + 1
    ensures txDone == |submitted| ==> FlatChunks(chunks) == Concat(submitted)
    ensures Concat(submitted[..txDone]) <= FlatChunks(chunks)
  {
    PiecesBounded(chunks);
    if txRest == [] {
      assert submitted[..txDone] == submitted;
    } else {
      assert submitted == submitted[..txDone] + [submitted[txDone]];
      ConcatAppend(submitted[..txDone], submitted[txDone]);
    }
  }

  // ----- runs: what each event does to the parts of the state that decide what happens next

  datatype View = View(
    state: SpiState, dmaActive: bool, status0: byte, status1: byte,
    rxRequestLen: nat, txRequestLen: nat, txRest: seq<byte>, rxLen: nat, waiting: nat,
    read: seq<byte>, blocks: seq<seq<byte>>, requests: seq<nat>,
    submitted: seq<seq<byte>>, chunks: seq<Chunk>, txDone: nat)

  datatype Event =
    | Poll(rdy: bool)
    | Complete(s0: byte, s1: byte, data: seq<byte>)
    | Send(data: seq<byte>, rdy: bool)
    | Receive(length: nat, rdy: bool)

  /** State after a call of the poll handler. */
  function After(v: View, rdy: bool): SpiState {
    match v.state
    case Idle =>
      if rdy && v.waiting <= RING_BUFFER_SIZE - RX_BUFFER_SIZE then RxW4ReadCommandSent
      else if v.txRest != [] then TxW4Rdy
      else Idle
    case RxReadCommandSent => if v.status0 == STS_SLAVE_READY then RxW4DataReceived else Idle
    case RxDataReceived => Idle
    case TxW4Rdy => if rdy then TxW4WriteCommandSent else TxW4Rdy
    case TxWriteCommandSent => if v.status0 == STS_SLAVE_READY && v.status1 > 0 then TxW4DataSent else Idle
    case TxDataSent => if v.txRequestLen < |v.txRest| then TxW4Rdy else Idle
    case _ => v.state
  }

  /** Bytes handed over once n are available to a request. */
  ghost predicate Delivered(v: View, available: nat, w: View) {
    && w.rxLen == v.rxLen - Min(v.rxLen, available) && w.waiting == available - Min(v.rxLen, available)
    && v.blocks <= w.blocks && |w.blocks| == |v.blocks| + (if v.rxLen > 0 && w.rxLen == 0 then 1 else 0)
  }

  /** Effect of a call of the poll handler: none while a transfer is under way. */
  ghost predicate Polled(v: View, rdy: bool, w: View) {
    && w.state == After(v, rdy) && w.status0 == v.status0 && w.status1 == v.status1
    && w.read == v.read && w.requests == v.requests && w.submitted == v.submitted && w.chunks == v.chunks
    && w.txRest == (if v.state == TxDataSent && v.txRequestLen <= |v.txRest|
                    then v.txRest[v.txRequestLen..] else v.txRest)
    && w.txDone == v.txDone + (if v.state == TxDataSent && w.txRest == [] then 1 else 0)
    && (v.state == RxReadCommandSent && w.state == RxW4DataReceived ==> w.rxRequestLen == v.status1)
    && (v.state == TxWriteCommandSent && w.state == TxW4DataSent ==> w.txRequestLen == Min(|v.txRest|, v.status1))
    && Delivered(v, v.waiting + (if v.state == RxDataReceived then v.rxRequestLen else 0), w)
    && (v.state.Waiting() ==> w.rxRequestLen == v.rxRequestLen && w.dmaActive == v.dmaActive)
  }

  /** Effect of the completion of a DMA transfer: what it carried, and the next state. */
  ghost predicate Completed(v: View, s0: byte, s1: byte, data: seq<byte>, w: View) {
    match v.state
    case RxW4ReadCommandSent => w == v.(state := RxReadCommandSent, dmaActive := false, status0 := s0, status1 := s1)
    case TxW4WriteCommandSent => w == v.(state := TxWriteCommandSent, dmaActive := false, status0 := s0, status1 := s1)
    case RxW4DataReceived => w == v.(state := RxDataReceived, dmaActive := false, read := v.read + data)
    case TxW4DataSent =>
      && v.txRequestLen <= |v.txRest|
      && w == v.(state := TxDataSent, dmaActive := false,
                 chunks := v.chunks + [Chunk(v.status1, v.txRest[..v.txRequestLen])])
    case _ => false
  }

  /** What the host and the hardware may do: one block under way in each direction, completions of
      transfers under way only, and at most 64 bytes announced for a read. */
  predicate Allowed(state: SpiState, dmaActive: bool, rxRequestLen: nat, txRest: seq<byte>, rxLen: nat, e: Event) {
    match e
    case Poll(_) => true
    case Complete(s0, s1, data) =>
      && dmaActive
      && (state == RxW4ReadCommandSent && s0 == STS_SLAVE_READY ==> s1 <= RX_BUFFER_SIZE)
      && (state == RxW4DataReceived ==> |data| == rxRequestLen)
    case Send(_, _) => txRest == []
    case Receive(_, _) => rxLen == 0
  }

  function Submit(v: View, data: seq<byte>): View {
    v.(txRest := data, submitted := v.submitted + if data == [] then [] else [data])
  }

  /** A request is noted, and what waits in the ring is delivered. */
  ghost predicate Requested(v: View, length: nat, w: View) {
    && w == v.(requests := v.requests + if length == 0 then [] else [length],
               rxLen := w.rxLen, waiting := w.waiting, blocks := w.blocks)
    && Delivered(v.(rxLen := length), v.waiting, w)
  }

  ghost predicate Happens(v: View, e: Event, w: View) {
    match e
    case Poll(rdy) => Polled(v, rdy, w)
    case Complete(s0, s1, data) => Completed(v, s0, s1, data, w)
    case Send(data, rdy) => Polled(Submit(v, data), rdy, w)
    case Receive(length, rdy) => exists mid :: Requested(v, length, mid) && Polled(mid, rdy, w)
  }

  // ----- progress

  /** A transfer is under way exactly in the states that wait for one, except after a read of
      nothing; there is something to send in the sending states. */
  ghost predicate Sound(v: View) {
    && (v.dmaActive <==> v.state.Waiting() && !(v.state == RxW4DataReceived && v.rxRequestLen == 0))
    && v.txRequestLen <= |v.txRest|
    && (v.state.Tx() ==> v.txRest != [])
    && (v.state == TxW4DataSent || v.state == TxDataSent ==> 0 < v.txRequestLen)
    && (v.rxLen == 0 || v.waiting == 0)
  }

  // ----- whole transactions

  /** After the read command: a slave that is ready and announces k bytes, k > 0, has just these read
      and added to the stream, in three further events; one that is not ready is let go. */
  lemma AnnouncedIsRead(v: View, w: View, x: View, y: View, z: View, s0: byte, k: byte, any: seq<byte>,
                        rdy: bool, data: seq<byte>, again: bool)
    requires v.state == RxW4ReadCommandSent && Happens(v, Complete(s0, k, any), w)
    requires Happens(w, Poll(rdy), x) && Sound(x)
    requires x.dmaActive ==> Happens(x, Complete(0, 0, data), y) && Happens(y, Poll(again), z) && Sound(z)
    ensures s0 != 0xc0 ==> x.state == Idle && !x.dmaActive && x.read == v.read
    ensures x.dmaActive <==> s0 == 0xc0 && k > 0
    ensures x.dmaActive ==> x.state == RxW4DataReceived && x.rxRequestLen == k
    ensures x.dmaActive ==> z.state == Idle && z.read == v.read + data
    ensures x.dmaActive && v.waiting == 0 ==> z.rxLen == v.rxLen - Min(v.rxLen, k) && z.waiting == k - Min(v.rxLen, k)
  {
  }

  /** After the write command: a slave that is ready and has room for k bytes, k > 0, is sent the
      next k bytes of the block, or what is left of it; another is let go. */
  lemma RoomIsUsed(v: View, w: View, x: View, y: View, z: View, s0: byte, k: byte, any: seq<byte>,
                   rdy: bool, again: bool)
    requires v.state == TxW4WriteCommandSent && Sound(v) && Happens(v, Complete(s0, k, any), w)
    requires Happens(w, Poll(rdy), x) && Sound(x)
    requires x.dmaActive ==> Happens(x, Complete(0, 0, []), y) && Happens(y, Poll(again), z)
    ensures x.dmaActive <==> s0 == 0xc0 && k > 0
    ensures !x.dmaActive ==> x.state == Idle && x.txRest == v.txRest && x.chunks == v.chunks
    ensures x.dmaActive ==>
      var n := Min(|v.txRest|, k);
      && z.chunks == v.chunks + [Chunk(k, v.txRest[..n])] && z.txRest == v.txRest[n..]
      && z.state == (if n < |v.txRest| then TxW4Rdy else Idle)
      && z.txDone == v.txDone + (if n < |v.txRest| then 0 else 1)
  {
  }

  /** Nothing stands in the way of the block under way: no read of nothing, no refused status. */
  ghost predicate Hopeful(v: View) {
    && Sound(v) && v.txRest != []
    && (v.state == TxWriteCommandSent ==> v.status0 == STS_SLAVE_READY && v.status1 > 0)
    && (v.state == RxReadCommandSent && v.status0 == STS_SLAVE_READY ==> v.status1 > 0)
    && (v.state == RxW4DataReceived ==> v.rxRequestLen > 0)
  }

  /** Polls and completions with a slave that is ready to take data, has room for some, announces
      some with each read, and asks for no further read. */
  ghost predicate Cooperative(v: View, e: Event) {
    if v.state.Waiting() then e.Complete? && e.s0 == STS_SLAVE_READY && e.s1 > 0
    else e.Poll? && e.rdy == (v.state != Idle)
  }

  /** Bound on the events until the block under way is reported. */
  function Rank(v: View): int {
    5 * |v.txRest| + match v.state
      case TxW4Rdy => 0
      case TxW4WriteCommandSent => -1
      case TxWriteCommandSent => -2
      case TxW4DataSent => -3
      case TxDataSent => -4
      case Idle => 1
      case RxDataReceived => 2
      case RxW4DataReceived => 3
      case RxReadCommandSent => 4
      case RxW4ReadCommandSent => 5
  }

  /** A cooperative event reports the block or brings the report nearer. */
  lemma EventProgress(v: View, e: Event, w: View)
    requires Hopeful(v) && Cooperative(v, e) && Happens(v, e, w) && Sound(w)
    ensures w.txDone == v.txDone + 1 || (w.txDone == v.txDone && Hopeful(w) && Rank(w) < Rank(v))
  {
  }

  /** From a hopeful state there is always a cooperative event, and it is allowed. */
  lemma CanCooperate(v: View)
    requires Hopeful(v)
    ensures exists e :: Cooperative(v, e) && Allowed(v.state, v.dmaActive, v.rxRequestLen, v.txRest, v.rxLen, e)
  {
    var e := if v.state.Waiting() then Complete(STS_SLAVE_READY, 1, seq(v.rxRequestLen, _ => 0))
             else Poll(v.state != Idle);
    assert Cooperative(v, e) && Allowed(v.state, v.dmaActive, v.rxRequestLen, v.txRest, v.rxLen, e);
  }

  // ----- progress of a request

  /** Nothing stands in the way of the request under way: the slave has not announced a read of
      nothing. */
  ghost predicate Expecting(v: View) {
    && Sound(v) && v.rxLen > 0
    && (v.state == RxReadCommandSent && v.status0 == STS_SLAVE_READY ==> v.status1 > 0)
    && (v.state == RxW4DataReceived ==> v.rxRequestLen > 0)
  }

  /** Polls and completions with a slave that is always ready, announces some data with each read
      and has room for some with each write. */
  ghost predicate Serving(v: View, e: Event) {
    if v.state.Waiting() then e.Complete? && e.s0 == STS_SLAVE_READY && e.s1 > 0 else e.Poll? && e.rdy
  }

  /** Bound on the events until the request under way is delivered: a block being sent is finished
      first, and then each round of five events reads at least a byte. */
  function ReadRank(v: View): int {
    5 * v.rxLen + match v.state
      case Idle => 0
      case RxW4ReadCommandSent => -1
      case RxReadCommandSent => if v.status0 == STS_SLAVE_READY then -2 else 1
      case RxW4DataReceived => -3
      case RxDataReceived => if v.rxRequestLen > 0 then -4 else 1
      case TxW4Rdy => 5 * |v.txRest|
      case TxW4WriteCommandSent => 5 * |v.txRest| - 1
      case TxWriteCommandSent => 5 * |v.txRest| - 2
      case TxW4DataSent => 5 * |v.txRest| - 3
      case TxDataSent => 5 * |v.txRest| - 4
  }

  lemma ReadRankPositive(v: View)
    requires Expecting(v)
    ensures 0 < ReadRank(v) <= 5 * v.rxLen + 5 * |v.txRest| + 1
  {
  }

  /** An event with such a slave delivers the request or brings the delivery nearer. */
  lemma ReadProgress(v: View, e: Event, w: View)
    requires Expecting(v) && Serving(v, e) && Happens(v, e, w) && Sound(w)
    ensures |w.blocks| > |v.blocks| || (|w.blocks| == |v.blocks| && Expecting(w) && ReadRank(w) < ReadRank(v))
  {
  }

  /** Such an event is always possible. */
  lemma CanServe(v: View)
    requires Expecting(v)
    ensures exists e :: Serving(v, e) && Allowed(v.state, v.dmaActive, v.rxRequestLen, v.txRest, v.rxLen, e)
  {
    var e := if v.state.Waiting() then Complete(STS_SLAVE_READY, 1, seq(v.rxRequestLen, _ => 0)) else Poll(true);
    assert Serving(v, e) && Allowed(v.state, v.dmaActive, v.rxRequestLen, v.txRest, v.rxLen, e);
  }

  /** Bounded progress of a request: unless the slave has announced a read of nothing, a request
      that lacks n bytes, with m bytes of a block still to be sent, is delivered within
      5 * n + 5 * m + 1 such events. */
  lemma {:induction false} DeliveredSoon(views: seq<View>, events: seq<Event>)
    requires |views| == |events| + 1 && Expecting(views[0]) && |events| >= ReadRank(views[0])
    requires forall i :: 0 <= i < |events| ==> Happens(views[i], events[i], views[i + 1])
    requires forall i :: 0 <= i < |views| ==> Sound(views[i])
    requires forall i :: 0 <= i < |events| && |views[i].blocks| == |views[0].blocks| ==> Serving(views[i], events[i])
    ensures |views[|events|].blocks| > |views[0].blocks|
    ensures ReadRank(views[0]) <= 5 * views[0].rxLen + 5 * |views[0].txRest| + 1
    decreases |events|
  {
    hide Expecting, Serving, Happens, Sound;
    ReadRankPositive(views[0]);
    ReadProgress(views[0], events[0], views[1]);
    if |views[1].blocks| > |views[0].blocks| {
      HistoriesGrow(views[1..], events[1..]);
    } else {
      DeliveredSoon(views[1..], events[1..]);
    }
  }

  lemma PolledGrows(v: View, rdy: bool, w: View)
    requires Polled(v, rdy, w)
    ensures v.read <= w.read && v.blocks <= w.blocks && v.requests <= w.requests
    ensures v.submitted <= w.submitted && v.chunks <= w.chunks && v.txDone <= w.txDone
  {
  }

  /** Histories only grow. */
  lemma EventGrows(v: View, e: Event, w: View)
    requires Happens(v, e, w)
    ensures v.read <= w.read && v.blocks <= w.blocks && v.requests <= w.requests
    ensures v.submitted <= w.submitted && v.chunks <= w.chunks && v.txDone <= w.txDone
  {
    hide Polled;
    match e
    case Poll(rdy) => PolledGrows(v, rdy, w);
    case Complete(s0, s1, data) =>
    case Send(data, rdy) => PolledGrows(Submit(v, data), rdy, w);
    case Receive(length, rdy) =>
      var mid :| Requested(v, length, mid) && Polled(mid, rdy, w);
      PolledGrows(mid, rdy, w);
  }

  /** A transport that waits for a transfer that will not come goes on waiting, whatever happens. */
  lemma StuckStays(v: View, e: Event, w: View)
    requires v.state == RxW4DataReceived && v.rxRequestLen == 0 && Happens(v, e, w) && !e.Complete?
    ensures w.state == RxW4DataReceived && w.rxRequestLen == 0
  {
  }

  /** Bounded progress: from a hopeful state with n bytes to go, the block is reported within
      5 * n + 5 cooperative events. */
  lemma {:induction false} ReportedSoon(views: seq<View>, events: seq<Event>)
    requires |views| == |events| + 1 && Hopeful(views[0]) && |events| >= Rank(views[0])
    requires forall i :: 0 <= i < |events| ==> Happens(views[i], events[i], views[i + 1])
    requires forall i :: 0 <= i < |views| ==> Sound(views[i])
    requires forall i :: 0 <= i < |events| && views[i].txDone == views[0].txDone ==> Cooperative(views[i], events[i])
    ensures views[|events|].txDone > views[0].txDone && Rank(views[0]) <= 5 * |views[0].txRest| + 5
    decreases |events|
  {
    hide Hopeful, Cooperative, Happens, Sound;
    RankPositive(views[0]);
    EventProgress(views[0], events[0], views[1]);
    if views[1].txDone > views[0].txDone {
      HistoriesGrow(views[1..], events[1..]);
    } else {
      ReportedSoon(views[1..], events[1..]);
    }
  }

  lemma RankPositive(v: View)
    requires Hopeful(v)
    ensures 0 < Rank(v) <= 5 * |v.txRest| + 5
  {
  }

  lemma {:induction false} HistoriesGrow(views: seq<View>, events: seq<Event>)
    requires |views| == |events| + 1
    requires forall i :: 0 <= i < |events| ==> Happens(views[i], events[i], views[i + 1])
    ensures views[0].txDone <= views[|events|].txDone && views[0].requests <= views[|events|].requests
    ensures views[0].blocks <= views[|events|].blocks
    decreases |events|
  {
    hide Happens;
    if events != [] {
      EventGrows(views[0], events[0], views[1]);
      HistoriesGrow(views[1..], events[1..]);
    }
  }

  // ----- requests

  function Total(lengths: seq<nat>): nat {
    if lengths == [] then 0 else Total(lengths[..|lengths| - 1]) + lengths[|lengths| - 1]
  }

  /** Bytes read from the slave that have reached the ring. */
  function Taken(v: View): int {
    |v.read| - if v.state == RxDataReceived then v.rxRequestLen else 0
  }

  /** The first k requests have been delivered exactly if the bytes that have reached the ring cover
      them, and the request under way waits for no more than it lacks. */
  ghost predicate Timely(v: View) {
    && (forall k :: 0 <= k <= |v.requests| ==> (k <= |v.blocks| <==> Total(v.requests[..k]) <= Taken(v)))
    && (v.rxLen > 0 ==> |v.requests| == |v.blocks| + 1 && Total(v.requests) == Taken(v) + v.rxLen)
    && (v.rxLen == 0 ==> |v.requests| == |v.blocks|)
  }

  lemma {:induction false} TotalGrows(lengths: seq<nat>, k: nat)
    requires k <= |lengths|
    ensures Total(lengths[..k]) <= Total(lengths)
    decreases |lengths|
  {
    if k < |lengths| {
      TotalGrows(lengths[..|lengths| - 1], k);
      assert lengths[..|lengths| - 1][..k] == lengths[..k];
    } else {
      assert lengths[..k] == lengths;
    }
  }

  lemma {:induction false} TotalOfBlocks(blocks: seq<seq<byte>>, requests: seq<nat>)
    requires |blocks| == |requests| && forall i :: 0 <= i < |blocks| ==> |blocks[i]| == requests[i]
    ensures Total(requests) == |Concat(blocks)|
  {
    if blocks != [] {
      TotalOfBlocks(blocks[..|blocks| - 1], requests[..|blocks| - 1]);
    }
  }

  lemma RequestsCovered(read: seq<byte>, blocks: seq<seq<byte>>, requests: seq<nat>,
                        rxBlock: seq<byte>, rxLen: nat, ring: seq<byte>, arrived: seq<byte>)
    requires RxLedger(read, blocks, requests, rxBlock, rxLen, ring, arrived) && (ring == [] || rxLen == 0)
    ensures forall k :: 0 <= k <= |requests| ==>
              (k <= |blocks| <==> Total(requests[..k]) <= |read| - |arrived|)
    ensures rxLen > 0 ==> |requests| == |blocks| + 1 && Total(requests) == |read| - |arrived| + rxLen
    ensures rxLen == 0 ==> |requests| == |blocks|
  {
    hide Total, Concat;
    var done := requests[..|blocks|];
    TotalOfBlocks(blocks, done);
    assert |read| == |Concat(blocks)| + |rxBlock| + |ring| + |arrived|;
    if rxLen > 0 {
      assert requests[..|requests| - 1] == done;
      TotalUnfolds(requests);
      assert requests[..|requests|] == requests;
    }
    forall k | 0 <= k <= |blocks|
      ensures Total(requests[..k]) <= |read| - |arrived|
    {
      TotalGrows(done, k);
      assert done[..k] == requests[..k];
    }
  }

  lemma TotalUnfolds(lengths: seq<nat>)
    requires lengths != []
    ensures Total(lengths) == Total(lengths[..|lengths| - 1]) + lengths[|lengths| - 1]
  {
  }

  /** A request that lacks n bytes has been delivered at a later time exactly if by then n further
      bytes have reached the ring. */
  lemma DeliveredOnceRead(views: seq<View>, events: seq<Event>)
    requires |views| == |events| + 1 && views[0].rxLen > 0
    requires forall i :: 0 <= i < |events| ==> Happens(views[i], events[i], views[i + 1])
    requires Timely(views[0]) && Timely(views[|events|])
    ensures |views[|events|].blocks| > |views[0].blocks| <==>
            Taken(views[|events|]) >= Taken(views[0]) + views[0].rxLen
  {
    hide Happens, Total, Taken;
    HistoriesGrow(views, events);
    var v, w := views[0], views[|events|];
    assert w.requests[..|v.requests|] == v.requests;
  }

  class Transport {
    const ring: Ring
    const rxBuffer: array<byte>

    var state: SpiState
    var selected: bool       // chip select, active low
    var dmaActive: bool
    var status0: byte
    var status1: byte
    var rxRequestLen: nat
    var txRequestLen: nat
    var txRest: seq<byte>    // what the transmit pointer and size cover
    var rxBlock: seq<byte>   // the part of the host's buffer filled so far
    var rxLen: nat

    ghost var read: seq<byte>
    ghost var blocks: seq<seq<byte>>
    ghost var requests: seq<nat>
    ghost var submitted: seq<seq<byte>>
    ghost var chunks: seq<Chunk>
    ghost var txDone: nat

    constructor ()
      ensures Valid() && state == Idle && ring.Contents() == [] && fresh(ring) && fresh(ring.storage) && fresh(rxBuffer)
      ensures read == [] && submitted == [] && requests == []
    {
      var storage := new byte[RING_BUFFER_SIZE];
      ring := new Ring(storage);
      rxBuffer := new byte[RX_BUFFER_SIZE];
      state, selected, dmaActive, status0, status1 := Idle, false, false, 0, 0;
      rxRequestLen, txRequestLen, txRest, rxBlock, rxLen := 0, 0, [], [], 0;
      read, blocks, requests, submitted, chunks, txDone := [], [], [], [], [], 0;
    }

    ghost function Now(): View
      requires Shape()
      reads this, ring, ring.storage
    {
      View(state, dmaActive, status0, status1, rxRequestLen, txRequestLen, txRest, rxLen, |ring.Contents()|,
           read, blocks, requests, submitted, chunks, txDone)
    }

    ghost function Arrived(): seq<byte>
      requires rxRequestLen <= rxBuffer.Length
      reads this`state, this`rxRequestLen, rxBuffer
    {
      if state == RxDataReceived then rxBuffer[..rxRequestLen] else []
    }

    ghost function Unsent(): seq<byte>
      requires txRequestLen <= |txRest|
      reads this`state, this`txRequestLen, this`txRest
    {
      if state == TxDataSent then txRest[txRequestLen..] else txRest
    }

    ghost predicate Shape()
      reads ring
    {
      && ring.storage.Length == RING_BUFFER_SIZE && rxBuffer.Length == RX_BUFFER_SIZE
      && rxBuffer != ring.storage && ring.Valid()
    }

    /** No byte lost, doubled or out of order in either direction; and no request waits while
        bytes are available. */
    ghost predicate Valid()
      reads this, ring, ring.storage, rxBuffer
      ensures Valid() ==> Shape()
    {
      && Shape()
      && Control(state, selected, dmaActive, status0, status1, rxRequestLen, txRequestLen, |txRest|, |ring.Contents()|)
      && RxLedger(read, blocks, requests, rxBlock, rxLen, ring.Contents(), Arrived())
      && TxLedger(submitted, chunks, txDone, Unsent(), txRest)
      && (ring.Contents() == [] || rxLen == 0)
    }

    /** The slave announced a read of nothing: no DMA transfer is started, so none will complete. */
    ghost predicate Stuck()
      reads this
    {
      state == RxW4DataReceived && rxRequestLen == 0
    }

    /** What the bookkeeping means at any time: delivered blocks are a prefix of the bytes read
        and have the length asked for, the pieces sent are a prefix of the blocks submitted, all
        of them once the last block is reported, and the reported blocks in full; chip select is
        low except when idle; no request waits while the ring holds bytes, so that requests are
        delivered as soon as they are covered; and the transport waits for a transfer that will
        not come only after a read of nothing. */
    lemma Conservation()
      requires Valid()
      ensures Concat(blocks) <= read && FlatChunks(chunks) <= Concat(submitted)
      ensures |blocks| <= |requests| && forall i :: 0 <= i < |blocks| ==> |blocks[i]| == requests[i]
      ensures txDone == |submitted| ==> FlatChunks(chunks) == Concat(submitted)
      ensures txDone <= |submitted| <= txDone + 1 && |chunks| <= |Concat(submitted)|
      ensures Concat(submitted[..txDone]) <= FlatChunks(chunks)
      ensures selected <==> state != Idle
      ensures (ring.Contents() == [] || rxLen == 0) && Timely(Now())
      ensures state.Waiting() && !dmaActive <==> Stuck()
    {
      hide RxLedger, TxLedger, Ring.Contents, Ring.Valid, Concat, FlatChunks, Total;
      RequestsCovered(read, blocks, requests, rxBlock, rxLen, ring.Contents(), Arrived());
      RxConserved(read, blocks, requests, rxBlock, rxLen, ring.Contents(), Arrived());
      TxConserved(submitted, chunks, txDone, Unsent(), txRest);
    }

    /** Deliver from the ring until it is empty or no request is left. */
    method TransferRxData(ghost arrived: seq<byte>)
      requires ring.Valid() && RxLedger(read, blocks, requests, rxBlock, rxLen, ring.Contents(), arrived)
      modifies ring, this`rxBlock, this`rxLen, this`blocks
      ensures ring.Valid() && RxLedger(read, blocks, requests, rxBlock, rxLen, ring.Contents(), arrived)
      ensures ring.Contents() == [] || rxLen == 0
      ensures rxLen == old(rxLen) - Min(old(rxLen), |old(ring.Contents())|)
      ensures |ring.Contents()| == |old(ring.Contents())| - Min(old(rxLen), |old(ring.Contents())|)
      ensures old(blocks) <= blocks && |blocks| == |old(blocks)| + (if old(rxLen) > 0 && rxLen == 0 then 1 else 0)
    {
      hide RxLedger, Ring.Contents, Ring.Valid, Ring.Count;
      ghost var moved := 0;
      while true
        invariant ring.Valid() && RxLedger(read, blocks, requests, rxBlock, rxLen, ring.Contents(), arrived)
        invariant 0 <= moved && rxLen == old(rxLen) - moved && |ring.Contents()| == |old(ring.Contents())| - moved
        invariant old(blocks) <= blocks && |blocks| == |old(blocks)| + (if old(rxLen) > 0 && rxLen == 0 then 1 else 0)
        decreases |ring.Contents()|
      {
        var available := ring.BytesAvailable();
        if available == 0 { return; }
        if rxLen == 0 { return; }
        var bytesToCopy := Min(available, rxLen);
        var data := ring.Read(bytesToCopy);
        MoveToBlock(read, blocks, requests, rxBlock, rxLen, data, ring.Contents(), arrived);
        rxBlock := rxBlock + data;
        rxLen := rxLen - |data|;
        moved := moved + |data|;
        if rxLen == 0 {
          blocks := blocks + [rxBlock];
          rxBlock := [];
        }
      }
    }

    method StartTxTransaction()
      modifies this`state, this`selected
      ensures state == TxW4Rdy && selected
    {
      state := TxW4Rdy;
      selected := true;
    }

    /** A DMA transfer of nothing is refused and never completes. */
    method StartDma(length: nat)
      modifies this`dmaActive
      ensures dmaActive == (old(dmaActive) || length > 0)
    {
      if length > 0 { dmaActive := true; }
    }

    method StoreArrived()
      requires Valid() && state == RxDataReceived
      modifies this`state, this`selected, this`rxRequestLen, ring, ring.storage
      ensures Shape() && state == Idle && !selected && rxRequestLen == 0
      ensures |ring.Contents()| == |old(ring.Contents())| + old(rxRequestLen)
      ensures RxLedger(read, blocks, requests, rxBlock, rxLen, ring.Contents(), [])
    {
      hide RxLedger, TxLedger, Ring.Contents, Ring.Valid, Ring.Count;
      selected := false;
      state := Idle;
      ArrivedMoves(read, blocks, requests, rxBlock, rxLen, ring.Contents(), rxBuffer[..rxRequestLen]);
      var ok := ring.Write(rxBuffer[..rxRequestLen]);
      assert ok;
      rxRequestLen := 0;
    }

    method FinishRead()
      requires Valid() && state == RxDataReceived
      modifies this`state, this`selected, this`rxRequestLen, this`rxBlock, this`rxLen, this`blocks, ring, ring.storage
      ensures Valid() && Polled(old(Now()), false, Now())
    {
      hide RxLedger, TxLedger, Ring.Contents, Ring.Valid, Ring.Count;
      StoreArrived();
      TransferRxData([]);
    }

    method FinishWrite()
      requires Valid() && state == TxDataSent
      modifies this`state, this`selected, this`txRest, this`txRequestLen, this`txDone
      ensures Valid()
      ensures Polled(old(Now()), false, Now())
    {
      hide RxLedger, TxLedger, Transport.Shape, Ring.Contents, Ring.Valid, Ring.Count;
      ChunkProcessed(submitted, chunks, txDone, txRest[txRequestLen..], txRest);
      selected := false;
      state := Idle;
      txRest := txRest[txRequestLen..];
      txRequestLen := 0;
      if txRest != [] {
        StartTxTransaction();
      } else {
        txDone := txDone + 1;
      }
    }

    method PollIdle(rdy: bool)
      requires Valid() && state == Idle
      modifies this`state, this`selected, this`dmaActive
      ensures Valid() && Polled(old(Now()), rdy, Now())
      ensures state == RxW4ReadCommandSent <==> rdy && 128 - |old(ring.Contents())| >= 64
      ensures state == TxW4Rdy <==> state != RxW4ReadCommandSent && txRest != []
      ensures selected == (state != Idle) && dmaActive == (state == RxW4ReadCommandSent)
    {
      hide RxLedger, TxLedger, Ring.Contents, Ring.Valid;
      var free := ring.BytesFree();
      if rdy && free >= RX_BUFFER_SIZE {
        selected := true;
        state := RxW4ReadCommandSent;
        StartDma(2);
      } else if txRest != [] {
        StartTxTransaction();
      }
    }

    method CheckReadStatus()
      requires Valid() && state == RxReadCommandSent
      modifies this`state, this`selected, this`dmaActive, this`rxRequestLen
      ensures Valid() && Polled(old(Now()), false, Now())
      ensures Stuck() <==> status0 == STS_SLAVE_READY && status1 == 0
      ensures status0 == STS_SLAVE_READY && status1 > 0 ==>
        state == RxW4DataReceived && dmaActive && rxRequestLen == status1
      ensures status0 != STS_SLAVE_READY ==> state == Idle && !selected && !dmaActive
    {
      hide RxLedger, TxLedger, Transport.Shape, Ring.Contents, Ring.Valid, Ring.Count;
      if status0 != STS_SLAVE_READY {
        selected := false;
        state := Idle;
      } else {
        state := RxW4DataReceived;
        rxRequestLen := status1;
        StartDma(rxRequestLen);
      }
    }

    method CheckWriteStatus()
      requires Valid() && state == TxWriteCommandSent
      modifies this`state, this`selected, this`dmaActive, this`txRequestLen
      ensures Valid() && Polled(old(Now()), false, Now())
      ensures status0 == STS_SLAVE_READY && status1 > 0 ==>
        state == TxW4DataSent && dmaActive && txRequestLen == Min(|txRest|, status1)
      ensures status0 != STS_SLAVE_READY || status1 == 0 ==> state == Idle && !selected && !dmaActive
    {
      hide RxLedger, TxLedger, Transport.Shape, Ring.Contents, Ring.Valid, Ring.Count;
      if status0 != STS_SLAVE_READY || status1 == 0 {
        selected := false;
        state := Idle;
      } else {
        txRequestLen := Min(|txRest|, status1);
        state := TxW4DataSent;
        StartDma(txRequestLen);
      }
    }

    method PollReady(rdy: bool)
      requires Valid() && state == TxW4Rdy
      modifies this`state, this`dmaActive
      ensures Valid() && Polled(old(Now()), rdy, Now())
      ensures state == (if rdy then TxW4WriteCommandSent else TxW4Rdy) && dmaActive == rdy && selected
    {
      hide RxLedger, TxLedger, Transport.Shape, Ring.Contents, Ring.Valid, Ring.Count;
      if rdy {
        state := TxW4WriteCommandSent;
        StartDma(2);
      }
    }

    /** The poll handler.  It does nothing while a DMA transfer is under way. */
    method Process(rdy: bool)
      requires Valid()
      modifies this`state, this`selected, this`dmaActive, this`rxRequestLen, this`txRequestLen,
               this`txRest, this`txDone, this`rxBlock, this`rxLen, this`blocks, ring, ring.storage
      ensures Valid() && Polled(old(Now()), rdy, Now())
    {
      hide RxLedger, TxLedger, Transport.Shape, Control;
      match state
      case Idle => PollIdle(rdy);
      case RxReadCommandSent => CheckReadStatus();
      case RxDataReceived => FinishRead();
      case TxW4Rdy => PollReady(rdy);
      case TxWriteCommandSent => CheckWriteStatus();
      case TxDataSent => FinishWrite();
      case _ =>
    }

    method TxRxCpltCallback()
      modifies this`state
      ensures state == match old(state)
                       case RxW4ReadCommandSent => RxReadCommandSent
                       case TxW4WriteCommandSent => TxWriteCommandSent
                       case RxW4DataReceived => RxDataReceived
                       case _ => old(state)
    {
      match state
      case RxW4ReadCommandSent => state := RxReadCommandSent;
      case TxW4WriteCommandSent => state := TxWriteCommandSent;
      case RxW4DataReceived => state := RxDataReceived;
      case _ =>
    }

    method TxCpltCallback()
      modifies this`state
      ensures state == if old(state) == TxW4DataSent then TxDataSent else old(state)
    {
      match state
      case TxW4DataSent => state := TxDataSent;
      case _ =>
    }

    method CommandSent(s0: byte, s1: byte)
      requires Valid() && dmaActive && (state == RxW4ReadCommandSent || state == TxW4WriteCommandSent)
      requires state == RxW4ReadCommandSent && s0 == STS_SLAVE_READY ==> s1 <= RX_BUFFER_SIZE
      modifies this`state, this`dmaActive, this`status0, this`status1
      ensures Valid() && !dmaActive && status0 == s0 && status1 == s1
      ensures state == if old(state) == RxW4ReadCommandSent then RxReadCommandSent else TxWriteCommandSent
    {
      hide RxLedger, TxLedger, Transport.Shape, Ring.Contents, Ring.Valid, Ring.Count;
      dmaActive := false;
      status0, status1 := s0, s1;
      TxRxCpltCallback();
    }

    method DataReceived(data: seq<byte>)
      requires Valid() && dmaActive && state == RxW4DataReceived && |data| == rxRequestLen
      modifies this`state, this`dmaActive, this`read, rxBuffer
      ensures Valid() && !dmaActive && state == RxDataReceived && read == old(read) + data
    {
      hide RxLedger, TxLedger, Ring.Contents, Ring.Valid;
      dmaActive := false;
      forall i | 0 <= i < |data| {
        rxBuffer[i] := data[i];
      }
      assert rxBuffer[..rxRequestLen] == data;
      ArrivedMoves(read, blocks, requests, rxBlock, rxLen, ring.Contents(), data);
      read := read + data;
      TxRxCpltCallback();
    }

    method DataSent()
      requires Valid() && dmaActive && state == TxW4DataSent
      modifies this`state, this`dmaActive, this`chunks
      ensures Valid() && !dmaActive && state == TxDataSent
      ensures txRequestLen <= |txRest| && chunks == old(chunks) + [Chunk(status1, txRest[..txRequestLen])]
    {
      hide RxLedger, TxLedger, Transport.Shape, Ring.Contents, Ring.Valid, Ring.Count;
      dmaActive := false;
      ghost var c := Chunk(status1, txRest[..txRequestLen]);
      ChunkSent(submitted, chunks, txDone, txRest, c);
      chunks := chunks + [c];
      TxCpltCallback();
    }

    /** The DMA controller finishes the transfer under way and calls back: two status bytes after
        a command, the data read, or the data sent. */
    method CompleteTransfer(s0: byte, s1: byte, data: seq<byte>)
      requires Valid() && dmaActive
      requires state == RxW4ReadCommandSent && s0 == STS_SLAVE_READY ==> s1 <= RX_BUFFER_SIZE
      requires state == RxW4DataReceived ==> |data| == rxRequestLen
      modifies this`state, this`dmaActive, this`status0, this`status1, this`read, this`chunks, rxBuffer
      ensures Valid() && Completed(old(Now()), s0, s1, data, Now())
    {
      hide RxLedger, TxLedger, Transport.Shape, Ring.Contents, Ring.Valid, Ring.Count;
      if state == RxW4DataReceived {
        DataReceived(data);
      } else if state == TxW4DataSent {
        DataSent();
      } else {
        CommandSent(s0, s1);
      }
    }

    /** Submit a block, the previous one having been reported.  An empty block is never sent and
        never reported. */
    method SendBlock(data: seq<byte>, rdy: bool)
      requires Valid() && txRest == []
      modifies this`state, this`selected, this`dmaActive, this`rxRequestLen, this`txRequestLen,
               this`txRest, this`txDone, this`rxBlock, this`rxLen, this`blocks, this`submitted, ring, ring.storage
      ensures Valid() && Polled(Submit(old(Now()), data), rdy, Now())
    {
      hide RxLedger, TxLedger, Ring.Contents, Ring.Valid, Ring.Count;
      if data != [] {
        BlockSubmitted(submitted, chunks, txDone, data);
        submitted := submitted + [data];
      }
      txRest := data;
      Process(rdy);
    }

    /** Ask for a block, the previous one having been delivered.  A request for nothing is never
        reported. */
    method ReceiveBlock(length: nat, rdy: bool)
      requires Valid() && rxLen == 0
      modifies this`state, this`selected, this`dmaActive, this`rxRequestLen, this`txRequestLen,
               this`txRest, this`txDone, this`rxBlock, this`rxLen, this`blocks, this`requests, ring, ring.storage
      ensures Valid() && exists mid :: Requested(old(Now()), length, mid) && Polled(mid, rdy, Now())
    {
      hide RxLedger, TxLedger, Transport.Shape, Control;
      AddRequest(length);
      ghost var mid := Now();
      Process(rdy);
      assert Requested(old(Now()), length, mid) && Polled(mid, rdy, Now());
    }

    method AddRequest(length: nat)
      requires Valid() && rxLen == 0
      modifies this`rxBlock, this`rxLen, this`blocks, this`requests, ring
      ensures Valid() && Requested(old(Now()), length, Now())
    {
      hide RxLedger, TxLedger, Ring.Contents, Ring.Valid, Ring.Count, Transport.Arrived, Transport.Unsent;
      NoRequest(read, blocks, requests, rxBlock, rxLen, ring.Contents(), Arrived());
      if length > 0 {
        RequestAdded(read, blocks, requests, length, ring.Contents(), Arrived());
        requests := requests + [length];
      }
      rxLen := length;
      TransferRxData(Arrived());
    }

    method Do(e: Event)
      requires Valid() && Allowed(state, dmaActive, rxRequestLen, txRest, rxLen, e)
      modifies this, ring, ring.storage, rxBuffer
      ensures Valid() && Happens(old(Now()), e, Now())
    {
      hide RxLedger, TxLedger, Transport.Valid, Transport.Shape, Transport.Now, Polled, Completed, Requested, Control;
      match e
      case Poll(rdy) => Process(rdy);
      case Complete(s0, s1, data) => CompleteTransfer(s0, s1, data);
      case Send(data, rdy) => SendBlock(data, rdy);
      case Receive(length, rdy) => ReceiveBlock(length, rdy);
    }

    lemma NowSound()
      requires Valid()
      ensures Sound(Now()) && Timely(Now())
    {
      hide RxLedger, TxLedger, Ring.Contents, Ring.Valid, Timely;
      Conservation();
    }

    /** Any events in any order, from power-up or any later time, up to the first that the rules of
        host and hardware do not allow: each has its effect on the state the one before left. */
    method Run(events: seq<Event>) returns (ghost views: seq<View>, done: nat)
      requires Valid()
      modifies this, ring, ring.storage, rxBuffer
      ensures Valid() && |views| == done + 1 && views[0] == old(Now()) && views[done] == Now()
      ensures done <= |events|
      ensures done == |events| || !Allowed(state, dmaActive, rxRequestLen, txRest, rxLen, events[done])
      ensures forall i :: 0 <= i < done ==> Happens(views[i], events[i], views[i + 1])
      ensures forall i :: 0 <= i <= done ==> Sound(views[i]) && Timely(views[i])
    {
      hide RxLedger, TxLedger, Transport.Valid, Transport.Shape, Transport.Now, Happens, Sound, Timely, Allowed;
      views, done := [Now()], 0;
      NowSound();
      while done < |events| && Allowed(state, dmaActive, rxRequestLen, txRest, rxLen, events[done])
        invariant Valid() && done <= |events| && |views| == done + 1
        invariant views[0] == old(Now()) && views[done] == Now()
        invariant forall i :: 0 <= i < done ==> Happens(views[i], events[i], views[i + 1])
        invariant forall i :: 0 <= i <= done ==> Sound(views[i]) && Timely(views[i])
      {
        Do(events[done]);
        NowSound();
        views, done := views + [Now()], done + 1;
      }
    }
  }

  /** A stuck transport is reachable: the first read finds a ready slave that announces nothing. */
  method StuckReachable() returns (t: Transport)
    ensures fresh(t) && t.Valid() && t.Stuck() && t.submitted == [] && t.requests == []
  {
    hide RxLedger, TxLedger, Transport.Shape, Ring.Contents, Ring.Valid, Ring.Count;
    t := new Transport();
    t.PollIdle(true);
    t.CommandSent(STS_SLAVE_READY, 0);
    t.CheckReadStatus();
  }
}
