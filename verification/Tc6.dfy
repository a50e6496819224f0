/** struct oa_tc6 and the methods that fill and read its SPI buffers in place. */
module Tc6 {
  import opened Words
  import opened Wire
  import opened Transmit
  import opened Receive
  import opened Engine
  import opened EngineProofs
  import opened Quiescence
  import Stream

  /** memcpy into a buffer. */
  function Overwrite(buf: seq<byte>, at: nat, piece: seq<byte>): (r: seq<byte>)
    requires at + |piece| <= |buf|
    ensures |r| == |buf|
  {
    buf[..at] + piece + buf[at + |piece|..]
  }

  ghost predicate ChunkAt(buf: seq<byte>, k: nat, c: TxChunk)
    requires CHUNK_SIZE * (k + 1) <= |buf|
  {
    && |c.data| <= CHUNK_PAYLOAD_SIZE
    && buf[CHUNK_SIZE * k..CHUNK_SIZE * (k + 1)]
       == Render(c, buf[CHUNK_SIZE * k + 4 + |c.data|..CHUNK_SIZE * (k + 1)])
  }

  /** The first chunks of an SPI buffer are `cs`, with stale bytes behind what was copied. */
  ghost predicate Holds(buf: seq<byte>, cs: seq<TxChunk>) {
    && CHUNK_SIZE * |cs| <= |buf|
    && forall k {:trigger cs[k]} :: 0 <= k < |cs| ==> ChunkAt(buf, k, cs[k])
  }

  /** The chunks of a filled buffer, as the SPI transfer sends them. */
  function Slices(buf: seq<byte>, n: nat): (ws: seq<seq<byte>>)
    requires CHUNK_SIZE * n <= |buf|
    ensures |ws| == n
  {
    seq(n, k requires 0 <= k < n => buf[CHUNK_SIZE * k..CHUNK_SIZE * (k + 1)])
  }

  lemma HoldsIsRendering(buf: seq<byte>, cs: seq<TxChunk>)
    requires Holds(buf, cs)
    ensures Rendering(cs, Slices(buf, |cs|))
  {
    var ws := Slices(buf, |cs|);
    forall k | 0 <= k < |cs|
      ensures |ws[k]| == CHUNK_SIZE && |cs[k].data| <= 64 && ws[k] == Render(cs[k], ws[k][4 + |cs[k].data|..])
    {
      var c := cs[k];
      assert ChunkAt(buf, k, c);
      assert ws[k][4 + |c.data|..] == buf[CHUNK_SIZE * k + 4 + |c.data|..CHUNK_SIZE * (k + 1)];
    }
  }

  /** Writing one more chunk behind those already there. */
  lemma HoldsOneMore(buf: seq<byte>, cs: seq<TxChunk>, c: TxChunk)
    requires Holds(buf, cs) && CHUNK_SIZE * (|cs| + 1) <= |buf| && |c.data| <= CHUNK_PAYLOAD_SIZE
    ensures Holds(Overwrite(buf, CHUNK_SIZE * |cs|, Be32(HeaderOf(c)) + c.data), cs + [c])
  {
    hide HeaderOf, Be32;
    var at := CHUNK_SIZE * |cs|;
    var piece := Be32(HeaderOf(c)) + c.data;
    var buf' := Overwrite(buf, at, piece);
    forall k | 0 <= k < |cs|
      ensures ChunkAt(buf', k, cs[k])
    {
      assert ChunkAt(buf, k, cs[k]);
      assert CHUNK_SIZE * (k + 1) <= at;
      var d := cs[k];
      assert buf'[CHUNK_SIZE * k..CHUNK_SIZE * (k + 1)] == buf[CHUNK_SIZE * k..CHUNK_SIZE * (k + 1)];
      assert buf'[CHUNK_SIZE * k + 4 + |d.data|..CHUNK_SIZE * (k + 1)]
          == buf[CHUNK_SIZE * k + 4 + |d.data|..CHUNK_SIZE * (k + 1)];
    }
    assert buf'[at..at + CHUNK_SIZE] == piece + buf'[at + 4 + |c.data|..at + CHUNK_SIZE];
    assert ChunkAt(buf', |cs|, c);
    assert (cs + [c])[|cs|] == c;
  }

  /** What an SPI transfer brings back: the bytes received, what lies behind the receive buffer in memory, and what
      STATUS0 and the allocator will answer while each chunk is processed. */
  datatype Reply = Reply(bytes: seq<byte>, behind: seq<byte>, statuses: seq<Status>, allocs: seq<bool>)

  predicate ValidReply(r: Reply, n: nat) {
    |r.bytes| == CHUNK_SIZE * n && |r.behind| == MEMORY_BEHIND && |r.statuses| == n && |r.allocs| == n
  }

  /** The footer of chunk `i`, big-endian behind 64 payload bytes. */
  function FooterAt(bytes: seq<byte>, i: nat): (ft: Footer)
    requires CHUNK_SIZE * (i + 1) <= |bytes|
    ensures ValidFooter(ft)
  {
    ParseFooter(FromBe32(bytes[CHUNK_SIZE * i + 64..CHUNK_SIZE * i + 68]))
  }

  function FootersOf(bytes: seq<byte>, n: nat): (fts: seq<Footer>)
    requires CHUNK_SIZE * n <= |bytes|
    ensures |fts| == n
  {
    seq(n, i requires 0 <= i < n => FooterAt(bytes, i))
  }

  /** Chunk `i` in the memory that starts with the receive buffer. */
  function InAt(memory: seq<byte>, i: nat, status: Status, allocOk: bool): (x: RxIn)
    requires CHUNK_SIZE * (i + 1) + MEMORY_BEHIND <= |memory|
    ensures ValidIn(x)
  {
    var at := CHUNK_SIZE * i;
    RxIn(memory[at..at + 64], memory[at + 64..at + 64 + MEMORY_BEHIND], FooterAt(memory, i), status, allocOk)
  }

  function InsOf(memory: seq<byte>, statuses: seq<Status>, allocs: seq<bool>): (ins: seq<RxIn>)
    requires CHUNK_SIZE * |statuses| + MEMORY_BEHIND <= |memory| && |allocs| == |statuses|
    ensures |ins| == |statuses| && forall x <- ins :: ValidIn(x)
  {
    seq(|statuses|, i requires 0 <= i < |statuses| => InAt(memory, i, statuses[i], allocs[i]))
  }

  /** The memory after a reply has arrived in a receive buffer that held `buf`. */
  function Arrived(reply: Reply, buf: seq<byte>): seq<byte>
    requires |reply.bytes| <= |buf|
  {
    reply.bytes + buf[|reply.bytes|..] + reply.behind
  }

  /** The chunks of a reply. */
  function Chunks(reply: Reply, buf: seq<byte>): (ins: seq<RxIn>)
    requires ValidReply(reply, |reply.statuses|) && |reply.bytes| <= |buf|
    ensures |ins| == |reply.statuses| && forall x <- ins :: ValidIn(x)
  {
    InsOf(Arrived(reply, buf), reply.statuses, reply.allocs)
  }

  // What the bytes of a round mean, chunk after chunk as they come over the wire.

  /** A chunk as received: payload, then the footer's four bytes. */
  datatype WireChunk = WireChunk(payload: seq<byte>, footer: seq<byte>)

  predicate ValidWire(ws: seq<WireChunk>) {
    forall w <- ws :: |w.payload| == 64 && |w.footer| == 4
  }

  /** All chunks of a round, one behind the other. */
  function OnWire(ws: seq<WireChunk>): (b: seq<byte>)
    requires ValidWire(ws)
    ensures |b| == 68 * |ws|
  {
    if ws == [] then []
    else
      assert ws[|ws| - 1] in ws;
      OnWire(ws[..|ws| - 1]) + ws[|ws| - 1].payload + ws[|ws| - 1].footer
  }

  lemma {:induction false} OnWireAt(ws: seq<WireChunk>, k: nat)
    requires ValidWire(ws) && k < |ws|
    ensures 68 * (k + 1) <= |OnWire(ws)|
    ensures OnWire(ws)[68 * k..68 * k + 64] == ws[k].payload && OnWire(ws)[68 * k + 64..68 * k + 68] == ws[k].footer
  {
    var n := |ws| - 1;
    var front := OnWire(ws[..n]);
    assert ws[n] in ws;
    if k < n {
      OnWireAt(ws[..n], k);
      assert OnWire(ws)[68 * k..68 * k + 64] == front[68 * k..68 * k + 64];
      assert OnWire(ws)[68 * k + 64..68 * k + 68] == front[68 * k + 64..68 * k + 68];
    }
  }

  /** Chunk `k` of the memory is chunk `k` of the wire: its payload, and its footer read from its four bytes. */
  lemma ChunkOnWire(memory: seq<byte>, ws: seq<WireChunk>, k: nat, statuses: seq<Status>, allocs: seq<bool>)
    requires ValidWire(ws) && k < |ws| == |statuses| == |allocs|
    requires CHUNK_SIZE * |ws| + MEMORY_BEHIND <= |memory| && memory[..68 * |ws|] == OnWire(ws)
    ensures
      var x := InsOf(memory, statuses, allocs)[k];
      && x.data == ws[k].payload && FooterBytes(x.ft, ws[k].footer)
      && x.status == statuses[k] && x.allocOk == allocs[k]
  {
    hide ParseFooter, FromBe32, OnWire, FooterBytes;
    OnWireAt(ws, k);
    var n := 68 * |ws|;
    assert memory[0..n] == memory[..n];
    SliceOfSlice(memory, 0, n, 68 * k, 68 * k + 64);
    SliceOfSlice(memory, 0, n, 68 * k + 64, 68 * k + 68);
    FooterOnWire(ws[k].footer);
  }

  /** The footer, in its four bytes, reports no error: not bad, synchronised, and an extended status only without the
      four errors; and there is memory for a receive buffer. */
  predicate Fine(footer: seq<byte>, status: Status, allocOk: bool)
    requires |footer| == 4
  {
    && footer[0] & 0x60 == 0x20 && (footer[0] & 0x80 == 0x80 ==> status.Bits? && status.value & 0x39 == 0)
    && allocOk
  }

  lemma FineBits(b: byte)
    ensures b & 0x60 == 0x20 <==> b & 0x40 != 0x40 && b & 0x20 == 0x20
  {
  }

  lemma FineIsClean(x: RxIn, footer: seq<byte>)
    requires |footer| == 4 && FooterBytes(x.ft, footer) && Fine(footer, x.status, x.allocOk)
    ensures Clean(x) && x.allocOk
  {
    FineBits(footer[0]);
  }

  /** The memory starts with these chunks, and none of them carries an error. */
  predicate StartsFine(memory: seq<byte>, ws: seq<WireChunk>, statuses: seq<Status>, allocs: seq<bool>) {
    && ValidWire(ws) && |ws| == |statuses| == |allocs|
    && CHUNK_SIZE * |ws| + MEMORY_BEHIND <= |memory| && memory[..68 * |ws|] == OnWire(ws)
    && forall k :: 0 <= k < |ws| ==> |ws[k].footer| == 4 && Fine(ws[k].footer, statuses[k], allocs[k])
  }

  /** The events of a round: each data chunk of the wire is seen, with whatever lies behind it in memory. */
  function WireEvents(memory: seq<byte>, ws: seq<WireChunk>, i: nat): seq<Stream.Event>
    requires ValidWire(ws) && i <= |ws| && CHUNK_SIZE * |ws| + MEMORY_BEHIND <= |memory|
    decreases |ws| - i
  {
    if i == |ws| then []
    else
      assert ws[i] in ws;
      var behind := memory[68 * i + 64..68 * i + 64 + MEMORY_BEHIND];
      var ft := ParseFooter(FromBe32(ws[i].footer));
      (if ft.dv then [Stream.Seen(ws[i].payload, behind, ft)] else []) + WireEvents(memory, ws, i + 1)
  }

  lemma FooterIs(memory: seq<byte>, ws: seq<WireChunk>, k: nat, statuses: seq<Status>, allocs: seq<bool>)
    requires ValidWire(ws) && k < |ws| == |statuses| == |allocs|
    requires CHUNK_SIZE * |ws| + MEMORY_BEHIND <= |memory| && memory[..68 * |ws|] == OnWire(ws)
    ensures |ws[k].footer| == 4
    ensures
      var x := InsOf(memory, statuses, allocs)[k];
      && x.ft == ParseFooter(FromBe32(ws[k].footer))
      && x.behind == memory[68 * k + 64..68 * k + 64 + MEMORY_BEHIND]
  {
    hide ParseFooter, FromBe32, OnWire;
    OnWireAt(ws, k);
    var n := 68 * |ws|;
    assert ws[k] in ws;
    assert memory[0..n] == memory[..n];
    SliceOfSlice(memory, 0, n, 68 * k + 64, 68 * k + 68);
  }

  lemma {:induction false} WireIsRound(memory: seq<byte>, ws: seq<WireChunk>, statuses: seq<Status>, allocs: seq<bool>,
                                       i: nat)
    requires StartsFine(memory, ws, statuses, allocs) && i <= |ws|
    ensures
      var ins := InsOf(memory, statuses, allocs);
      && (forall k :: i <= k < |ins| ==> Clean(ins[k]) && ins[k].allocOk)
      && Stream.RoundEvents(ins, i) == WireEvents(memory, ws, i)
    decreases |ws| - i
  {
    hide Fine, FooterBytes, OnWire, ParseFooter, FromBe32, Clean, Retries;
    if i < |ws| {
      assert ws[i] in ws;
      var x := InsOf(memory, statuses, allocs)[i];
      ChunkOnWire(memory, ws, i, statuses, allocs);
      FooterIs(memory, ws, i, statuses, allocs);
      FineIsClean(x, ws[i].footer);
      Stream.CleanIsNotRetried(x);
      WireIsRound(memory, ws, statuses, allocs, i + 1);
    }
  }

  /** With these events the stream goes on unspoilt from where the driver stands. */
  ghost predicate GoesOn(rx: RxState, m: Stream.Meaning, es: seq<Stream.Event>) {
    Stream.Agrees(rx.room, rx, m) && Stream.AllLegal(m, es) && Stream.Unspoilt(rx.room, m, es)
  }

  /** Credits and announced chunks are the last five bits of the first and bits 5 to 1 of the last byte of the last
      footer. */
  predicate ReportsLast(l: Link, ws: seq<WireChunk>)
    requires ValidWire(ws) && ws != []
  {
    assert ws[|ws| - 1] in ws;
    var b := ws[|ws| - 1].footer;
    l.rca == (b[0] & 0x1F) as int && l.credits == ((b[3] >> 1) & 0x1F) as int
  }

  /** Whatever fine chunks the buffer starts with: if their payloads carry the stream on unspoilt, the pass is complete
      and has delivered exactly the intact frames, in order; credits and chunks to come are those of the last footer. */
  ghost predicate DeliversWire(memory: seq<byte>, statuses: seq<Status>, allocs: seq<bool>, before: RxState,
                               after: Link, o: Outcome)
  {
    forall ws: seq<WireChunk>, m: Stream.Meaning {:trigger GoesOn(before, m, WireEvents(memory, ws, 0))} ::
      StartsFine(memory, ws, statuses, allocs) && GoesOn(before, m, WireEvents(memory, ws, 0)) ==>
        var m' := Stream.MeaningOf(m, WireEvents(memory, ws, 0));
        && o == Done && after.rx.delivered == m'.intact && Stream.Agrees(before.room, after.rx, m')
        && (ws != [] ==> ReportsLast(after, ws))
  }

  lemma LastFooter(l: Link, memory: seq<byte>, ws: seq<WireChunk>, statuses: seq<Status>, allocs: seq<bool>)
    requires StartsFine(memory, ws, statuses, allocs) && ws != []
    requires ProcessFrom(l, InsOf(memory, statuses, allocs), 0).outcome == Done
    ensures ReportsLast(ProcessFrom(l, InsOf(memory, statuses, allocs), 0).link, ws)
  {
    hide ProcessFrom, InsOf, Fine, OnWire, Clean, Retries;
    PassOutcome(l, InsOf(memory, statuses, allocs), 0);
    ChunkOnWire(memory, ws, |ws| - 1, statuses, allocs);
  }

  lemma PassDeliversWire(l: Link, memory: seq<byte>, statuses: seq<Status>, allocs: seq<bool>)
    requires |statuses| == |allocs| && CHUNK_SIZE * |statuses| + MEMORY_BEHIND <= |memory|
    ensures
      var p := ProcessFrom(l, InsOf(memory, statuses, allocs), 0);
      DeliversWire(memory, statuses, allocs, l.rx, p.link, p.outcome)
  {
    hide ProcessFrom, InsOf, WireEvents, Stream.AllLegal, Stream.Unspoilt, Stream.MeaningOf, Clean, Stream.InStep,
         ReportsLast;
    forall ws: seq<WireChunk>, m: Stream.Meaning |
      StartsFine(memory, ws, statuses, allocs) && GoesOn(l.rx, m, WireEvents(memory, ws, 0))
      ensures
        var p := ProcessFrom(l, InsOf(memory, statuses, allocs), 0);
        var m' := Stream.MeaningOf(m, WireEvents(memory, ws, 0));
        && p.outcome == Done && p.link.rx.delivered == m'.intact && Stream.Agrees(l.rx.room, p.link.rx, m')
        && (ws != [] ==> ReportsLast(p.link, ws))
    {
      WireIsRound(memory, ws, statuses, allocs, 0);
      Stream.CleanRoundDelivers(l.rx.room, l, m, InsOf(memory, statuses, allocs));
      if ws != [] {
        LastFooter(l, memory, ws, statuses, allocs);
      }
    }
  }

  /** An attached MAC-PHY: any function from what it is sent to its next state and its reply, if the transfer works. */
  type Exchanger<!D> = (D, seq<byte>) -> (D, Option<Reply>)

  /** In a transfer that works the MAC-PHY takes every chunk sent, answers with a chunk for each, and hands over its
      receive backlog. */
  ghost predicate Conforming<D(!new)>(exchange: Exchanger<D>, backlog: D -> nat, phy: D -> MacPhy) {
    forall dev: D, sent: seq<byte> {:trigger exchange(dev, sent)} ::
      var (dev', reply) := exchange(dev, sent);
      var n := |sent| / CHUNK_SIZE;
      reply.Some? ==>
        && phy(dev') == AcceptAll(phy(dev), Slices(sent, n))
        && ValidReply(reply.value, n)
        && HandsOver(backlog(dev), FootersOf(reply.value.bytes, n))
        && backlog(dev') <= Less(backlog(dev), n)
  }

  lemma NothingAccepted(phy: MacPhy, cs: seq<TxChunk>)
    requires cs == []
    ensures AcceptChunks(phy, cs) == phy
  {
  }

  /** The bytes of a filled buffer mean to the MAC-PHY what the chunks in it mean. */
  lemma SentChunks(buf: seq<byte>, cs: seq<TxChunk>, phy: MacPhy)
    requires Holds(buf, cs) && forall c <- cs :: Fits(c)
    ensures AcceptAll(phy, Slices(buf[..CHUNK_SIZE * |cs|], |cs|)) == AcceptChunks(phy, cs)
  {
    hide AcceptAll, AcceptChunks;
    var sent := buf[..CHUNK_SIZE * |cs|];
    forall k | 0 <= k < |cs|
      ensures Slices(sent, |cs|)[k] == Slices(buf, |cs|)[k]
    {
      assert sent == buf[0..CHUNK_SIZE * |cs|];
      SliceOfSlice(buf, 0, CHUNK_SIZE * |cs|, CHUNK_SIZE * k, CHUNK_SIZE * (k + 1));
    }
    assert Slices(sent, |cs|) == Slices(buf, |cs|);
    HoldsIsRendering(buf, cs);
    RenderedChunks(phy, cs, Slices(buf, |cs|));
  }

  lemma PreparedRemains(d: Driver, n: nat)
    requires Live(d.tx) && n == |Prepare(d).1|
    ensures Live(Prepare(d).0) && (Prepare(d).1 == [] <==> n == 0)
  {
    PrepareCounts(d);
  }

  /** A round with nothing to send leaves the transmit slots as they are. */
  lemma QuietTx(d: Driver)
    requires Live(d.tx) && Prepare(d).1 == []
    ensures Prepare(d).0.ongoing == d.tx.ongoing || d.link.credits > 0
    ensures Prepare(d).0.waiting == d.tx.waiting || d.link.credits > 0
    ensures d.tx.ongoing.None? && d.tx.waiting.None? ==> Prepare(d).0.ongoing.None? && Prepare(d).0.waiting.None?
  {
  }

  /** The frames that a prepared round takes out of the slots. */
  lemma LostInRound(phy: MacPhy, d: Driver) returns (lost: seq<Tagged>)
    requires Live(d.tx) && Attuned(phy, d.tx)
    ensures lost + Queued(Prepare(d).0) == Queued(d.tx)
    ensures Prepare(d).0.packets - d.tx.packets == |lost| && Prepare(d).0.dropped == d.tx.dropped
  {
    hide Prepare, Queued, AcceptChunks;
    PrepareRefines(phy, d);
    var (t, cs) := Prepare(d);
    var after := AcceptChunks(phy, cs).frames;
    FramesOnlyGrow(phy, cs);
    lost := after[|phy.frames|..];
    assert after == phy.frames + lost;
    var x, y := lost + Queued(t), Queued(d.tx);
    assert phy.frames + x == phy.frames + y;
    assert (phy.frames + x)[|phy.frames|..] == x && (phy.frames + y)[|phy.frames|..] == y;
  }

  /** What a round does to the transmit slots once its transfer has worked: only a device error drops a frame. */
  lemma DroppedByError(t: TxState, l: Link, ins: seq<RxIn>) returns (lost: seq<Tagged>)
    requires Owned(l.rx) && forall x <- ins :: ValidIn(x)
    ensures
      var turn := AfterTransfer(t, l, Some(ins));
      && turn.next != Some(Returned) && turn.next != Some(SpiError) && !turn.driver.intFlag
      && lost + Queued(turn.driver.tx) == Queued(t) && |lost| <= 1
      && turn.driver.tx.packets == t.packets && turn.driver.tx.dropped == t.dropped + |lost|
      && Owned(turn.driver.link.rx)
      && (turn.next != Some(DeviceError) ==> lost == [] && turn.driver.tx == t)
      && (turn.next == Some(DeviceError) ==> turn.driver.tx.ongoing.None? && turn.driver.link.rx.skb.None?)
  {
    hide ProcessFrom;
    ProcessKeepsOwned(l, ins, 0);
    lost := [];
    if AfterTransfer(t, l, Some(ins)).next == Some(DeviceError) && t.ongoing.Some? {
      lost := [Tagged(t.ongoing.value, Tag(t.ongoingMode))];
    }
  }

  /** After a round the credits and the chunks available come from a footer. */
  lemma RoundBounds(d: Driver, t: TxState, ins: seq<RxIn>)
    requires Owned(d.link.rx) && |ins| > 0 && forall x <- ins :: ValidIn(x)
    ensures
      var turn := AfterTransfer(t, d.link, Some(ins));
      turn.driver.link.credits < 32 && turn.driver.link.rca < 32
  {
    PassFacts(d.link, ins);
  }

  /** What a round whose transfer has worked leaves behind. */
  lemma RoundConcludes(phy: MacPhy, phy': MacPhy, d: Driver, backlog: nat, left: nat, ins: seq<RxIn>)
    returns (lost: seq<Tagged>)
    requires Live(d.tx) && Owned(d.link.rx) && Attuned(phy, d.tx)
    requires Prepare(d).1 != [] && |ins| == |Prepare(d).1| && forall x <- ins :: ValidIn(x)
    requires HandsOver(backlog, Footers(ins)) && left <= Less(backlog, |ins|)
    requires phy' == AcceptChunks(phy, Prepare(d).1)
    ensures
      var turn := AfterTransfer(Prepare(d).0, d.link, Some(ins));
      var d' := turn.driver;
      && turn.next != Some(Returned) && turn.next != Some(SpiError) && !d'.intFlag && Owned(d'.link.rx)
      && d'.link.credits < 32 && d'.link.rca < 32
      && (turn.next.None? ==>
            && Live(d'.tx) && Attuned(phy', d'.tx) && (d'.link.rca == 0 ==> left == 0)
            && Work(d', left) < Work(d, backlog))
      && (turn.next != Some(DeviceError) ==> lost == [])
      && (turn.next == Some(DeviceError) ==> d'.tx.ongoing.None? && d'.link.rx.skb.None? && |lost| <= 1)
      && phy'.paired == phy.paired && phy'.frames + lost + Queued(d'.tx) == phy.frames + Queued(d.tx)
      && d'.tx.packets - d.tx.packets == |phy'.frames| - |phy.frames| && d'.tx.dropped == d.tx.dropped + |lost|
  {
    hide AfterTransfer, Prepare, Owned, HandsOver, Live, Work, Queued, AcceptChunks, Attuned, InBounds;
    LiveIsInBounds(d.tx);
    PrepareRefines(phy, d);
    RoundLeavesLess(d, backlog, ins, left);
    RoundBounds(d, Prepare(d).0, ins);
    lost := DroppedByError(Prepare(d).0, d.link, ins);
    var rest := Queued(AfterTransfer(Prepare(d).0, d.link, Some(ins)).driver.tx);
    assert phy'.frames + (lost + rest) == phy'.frames + lost + rest;
  }

  /** The footers of a reply do not depend on what else is in memory. */
  lemma SameFooters(reply: Reply, buf: seq<byte>)
    requires ValidReply(reply, |reply.statuses|) && |reply.bytes| <= |buf|
    ensures Footers(Chunks(reply, buf)) == FootersOf(reply.bytes, |reply.statuses|)
  {
    hide ParseFooter, FromBe32;
    var n := |reply.statuses|;
    var memory := Arrived(reply, buf);
    forall i | 0 <= i < n
      ensures FooterAt(memory, i) == FooterAt(reply.bytes, i)
    {
      assert memory[CHUNK_SIZE * i + 64..CHUNK_SIZE * i + 68] == reply.bytes[CHUNK_SIZE * i + 64..CHUNK_SIZE * i + 68];
    }
  }

  // The memory from a chunk's payload on, cut out of the whole.
  lemma InPlace(memory: seq<byte>, at: nat)
    requires at + 64 + MEMORY_BEHIND <= |memory|
    ensures memory[at..at + 64] + memory[at + 64..at + 64 + MEMORY_BEHIND] == memory[at..at + 64 + MEMORY_BEHIND]
  {
  }

  lemma CopiedInPlace(memory: seq<byte>, at: nat, from: nat, len: int)
    requires at + 64 + MEMORY_BEHIND <= |memory| && from + 255 <= 64 + MEMORY_BEHIND
    ensures Copied(memory[at..at + 64 + MEMORY_BEHIND], from, len) == Copied(memory, at + from, len)
  {
    SliceOfSlice(memory, at, at + 64 + MEMORY_BEHIND, from, from + len % 256);
  }

  lemma StartInPlace(r: RxState, memory: seq<byte>, at: nat, from: nat, size: int, allocOk: bool)
    requires at + 64 + MEMORY_BEHIND <= |memory| && from <= 60
    ensures
      size >= 0 ==>
        var part := memory[at..at + 64 + MEMORY_BEHIND];
        && FrameStart(r, part, from, size, allocOk) == FrameStart(r, memory, at + from, size, allocOk)
        && CompleteFrame(r, part, from, size, allocOk) == CompleteFrame(r, memory, at + from, size, allocOk)
  {
    hide Copied;
    CopiedInPlace(memory, at, from + TIMESTAMP_SIZE, size - TIMESTAMP_SIZE);
  }

  lemma EndInPlace(r: RxState, memory: seq<byte>, at: nat, size: nat)
    requires at + 64 + MEMORY_BEHIND <= |memory|
    ensures FrameEnd(r, memory[at..at + 64 + MEMORY_BEHIND], 0, size) == FrameEnd(r, memory, at, size)
  {
    hide Copied;
    CopiedInPlace(memory, at, 0, size - FCS_SIZE);
  }

  lemma CopiedWhole(memory: seq<byte>, at: nat)
    requires at + 64 + MEMORY_BEHIND <= |memory|
    ensures Copied(memory, at, CHUNK_PAYLOAD_SIZE) == memory[at..at + 64]
  {
  }

  lemma HoldsNothing(buf: seq<byte>)
    ensures Holds(buf, [])
  {
  }

  lemma FooterAtIs(bytes: seq<byte>, i: nat)
    requires CHUNK_SIZE * (i + 1) <= |bytes|
    ensures FooterAt(bytes, i) == ParseFooter(FromBe32(bytes[CHUNK_SIZE * i + 64..CHUNK_SIZE * i + 68]))
    ensures ValidFooter(FooterAt(bytes, i))
  {
  }

  lemma InsOfAt(memory: seq<byte>, i: nat, statuses: seq<Status>, allocs: seq<bool>)
    requires i < |statuses| == |allocs| && CHUNK_SIZE * |statuses| + MEMORY_BEHIND <= |memory|
    ensures CHUNK_SIZE * (i + 1) + MEMORY_BEHIND <= |memory|
    ensures InsOf(memory, statuses, allocs)[i] == InAt(memory, i, statuses[i], allocs[i])
  {
  }

  lemma PassStep(l: Link, ins: seq<RxIn>, i: nat)
    requires i < |ins| && forall x <- ins :: ValidIn(x)
    ensures
      var (l', o) := ProcessChunk(l, ins[i]);
      ProcessFrom(l, ins, i) == if o == Done then ProcessFrom(l', ins, i + 1) else Pass(l', o, i + 1)
  {
    hide ProcessChunk;
  }

  lemma PassEnds(l: Link, ins: seq<RxIn>)
    requires forall x <- ins :: ValidIn(x)
    ensures ProcessFrom(l, ins, |ins|) == Pass(l, Done, |ins|)
  {
  }

  lemma HeaderOfIs(c: TxChunk)
    ensures HeaderOf(c) == DataHeader(c.dv, c.sv, c.ev, c.ebo, c.tsc)
  {
  }

  lemma AddChunkOffset(t: TxState)
    requires t.ongoing.Some? && InBounds(t)
    ensures
      var (t', c) := AddChunk(t);
      var f := t.ongoing.value;
      t.offset < |f| <= 65535 ==>
        if |f| <= t.offset + 64 then t'.ongoing.None? && t'.offset == 0
        else t'.ongoing == Some(f) && t'.offset == t.offset + 64
  {
    hide AddChunk;
    if t.offset < |t.ongoing.value| <= 65535 {
      AddChunkAdvances(t);
    }
  }

  /** AddChunk, case by case. */
  lemma AddChunkCases(t: TxState)
    requires t.ongoing.Some? && InBounds(t)
    ensures
      var f := t.ongoing.value;
      var n: int := Min((|f| - t.offset) % U16, CHUNK_PAYLOAD_SIZE);
      var offset := (t.offset + n) % U16;
      && n <= CHUNK_PAYLOAD_SIZE && t.offset + n <= |f|
      && AddChunk(t) ==
         if |f| == offset then
           (t.(ongoing := None, offset := 0, ongoingMode := 0, packets := t.packets + 1, bytes := t.bytes + |f|),
            TxChunk(true, t.offset == 0, true, ToU8(n - 1), t.ongoingMode, f[t.offset..t.offset + n]))
         else
           (t.(offset := offset), TxChunk(true, t.offset == 0, false, 0, 0, f[t.offset..t.offset + n]))
  {
    assert Min((|t.ongoing.value| - t.offset) % U16, CHUNK_PAYLOAD_SIZE) == CopyLength(t);
  }

  /** FillTx, case by case. */
  lemma FillTxCases(t: TxState, credits: nat)
    requires InBounds(t)
    ensures InBounds(TakeWaiting(t))
    ensures credits == 0 ==> FillTx(t, credits) == (t, [])
    ensures credits > 0 && TakeWaiting(t).ongoing.None? ==> FillTx(t, credits) == (TakeWaiting(t), [])
    ensures
      credits > 0 && TakeWaiting(t).ongoing.Some? ==>
        var (t', c) := AddChunk(TakeWaiting(t));
        var (last, rest) := FillTx(t', credits - 1);
        FillTx(t, credits) == (last, [c] + rest) && ([c] + rest)[1..] == rest
  {
  }

  lemma OverwriteTwice(buf: seq<byte>, at: nat, header: seq<byte>, payload: seq<byte>)
    requires |header| == 4 && at + 4 + |payload| <= |buf|
    ensures Overwrite(Overwrite(buf, at + 4, payload), at, header) == Overwrite(buf, at, header + payload)
  {
  }

  lemma ConformsOnce<D(!new)>(exchange: Exchanger<D>, backlog: D -> nat, phy: D -> MacPhy, dev: D, sent: seq<byte>)
    requires Conforming(exchange, backlog, phy)
    ensures
      var (dev', reply) := exchange(dev, sent);
      var n := |sent| / CHUNK_SIZE;
      reply.Some? ==>
        && phy(dev') == AcceptAll(phy(dev), Slices(sent, n))
        && ValidReply(reply.value, n)
        && HandsOver(backlog(dev), FootersOf(reply.value.bytes, n))
        && backlog(dev') <= Less(backlog(dev), n)
  {
    hide AcceptAll, HandsOver, ValidReply, Slices, FootersOf;
  }

  class Tc6 {
    const spiDataTxBuf: array<byte>
    const spiDataRxBuf: array<byte>
    const rxRoom: nat
    var ongoingTxSkb: Option<seq<byte>>
    var waitingTxSkb: Option<seq<byte>>
    var rxSkb: Option<seq<byte>>
    var txSkbOffset: nat
    var spiDataTxBufOffset: nat
    var txCredits: nat
    var rxChunksAvailable: nat
    var rxBufOverflow: bool
    var intFlag: bool
    var ongoingTxTsCaptureMode: byte
    var waitingTxTsCaptureMode: byte

    // The counters of the network device and the frames passed to netif_rx.
    var txPackets: nat
    var txBytes: nat
    var txDropped: nat
    var rxDropped: nat
    var received: seq<seq<byte>>

    // The history of receive buffers.
    ghost var allocs: nat
    ghost var freed: nat
    ghost var leaked: nat

    ghost predicate Valid()
      reads this
    {
      && spiDataTxBuf.Length == SPI_DATA_BUF_SIZE && spiDataRxBuf.Length == SPI_DATA_BUF_SIZE
      && spiDataTxBuf != spiDataRxBuf
      && spiDataTxBufOffset <= SPI_DATA_BUF_SIZE
    }

    ghost function Tx(): TxState
      reads this
    {
      TxState(ongoingTxSkb, txSkbOffset, ongoingTxTsCaptureMode, waitingTxSkb, waitingTxTsCaptureMode,
              txPackets, txBytes, txDropped)
    }

    ghost function Rx(): RxState
      reads this
    {
      RxState(rxRoom, rxSkb, rxBufOverflow, received, rxDropped, allocs, freed, leaked)
    }

    ghost function LinkState(): Link
      reads this
    {
      Link(Rx(), txCredits, rxChunksAvailable)
    }

    constructor (credits: nat, rca: nat, room: nat)
      requires credits <= MAX_TX_CHUNKS && rca <= MAX_TX_CHUNKS
      ensures Valid() && fresh(spiDataTxBuf) && fresh(spiDataRxBuf)
      ensures Tx() == EMPTY_TX && LinkState() == Link(EmptyRx(room), credits, rca) && intFlag
    {
      spiDataTxBuf := new byte[SPI_DATA_BUF_SIZE];
      spiDataRxBuf := new byte[SPI_DATA_BUF_SIZE];
      rxRoom := room;
      ongoingTxSkb, waitingTxSkb, rxSkb := None, None, None;
      txSkbOffset, spiDataTxBufOffset := 0, 0;
      txCredits, rxChunksAvailable := credits, rca;
      rxBufOverflow, intFlag := false, true;
      ongoingTxTsCaptureMode, waitingTxTsCaptureMode := 0, 0;
      txPackets, txBytes, txDropped, rxDropped, received := 0, 0, 0, 0, [];
      allocs, freed, leaked := 0, 0, 0;
    }

    // ---------------------------------------------------------- transmit

    /** memcpy of `piece` to byte `at` of the transmit buffer. */
    method CopyToTxBuf(at: nat, piece: seq<byte>)
      requires Valid() && at + |piece| <= SPI_DATA_BUF_SIZE
      modifies spiDataTxBuf
      ensures spiDataTxBuf[..] == Overwrite(old(spiDataTxBuf[..]), at, piece)
    {
      forall i | 0 <= i < |piece| {
        spiDataTxBuf[at + i] := piece[i];
      }
      ghost var now, before := spiDataTxBuf[..], old(spiDataTxBuf[..]);
      assert now[..at] == before[..at];
      assert now[at..at + |piece|] == piece;
      assert now[at + |piece|..] == before[at + |piece|..];
      assert now == now[..at] + now[at..at + |piece|] + now[at + |piece|..];
    }

    /** oa_tc6_add_tx_skb_to_spi_buf up to the header: the next bytes go behind the place for it. */
    method CopyPayload() returns (startValid: bool, endValid: bool, endByteOffset: byte, tsCaptureMode: byte,
                                  ghost payload: seq<byte>)
      requires Valid() && ongoingTxSkb.Some? && InBounds(Tx())
      requires spiDataTxBufOffset + CHUNK_SIZE <= SPI_DATA_BUF_SIZE
      modifies `ongoingTxSkb, `txSkbOffset, `ongoingTxTsCaptureMode, `txPackets, `txBytes, spiDataTxBuf
      ensures |payload| <= CHUNK_PAYLOAD_SIZE
      ensures AddChunk(old(Tx())) == (Tx(), TxChunk(true, startValid, endValid, endByteOffset, tsCaptureMode, payload))
      ensures spiDataTxBuf[..] == Overwrite(old(spiDataTxBuf[..]), spiDataTxBufOffset + 4, payload)
    {
      hide Overwrite, AddChunk, CopyLength, ToU8;
      AddChunkCases(Tx());
      var frame := ongoingTxSkb.value;
      var remainingLen := (|frame| - txSkbOffset) % U16;
      endValid, endByteOffset, tsCaptureMode := false, 0, 0;
      startValid := txSkbOffset == 0;
      var lengthToCopy: int := Min(remainingLen, CHUNK_PAYLOAD_SIZE);
      payload := frame[txSkbOffset..txSkbOffset + lengthToCopy];
      CopyToTxBuf(spiDataTxBufOffset + 4, frame[txSkbOffset..txSkbOffset + lengthToCopy]);
      txSkbOffset := (txSkbOffset + lengthToCopy) % U16;
      if |frame| == txSkbOffset {
        endValid := true;
        endByteOffset := ToU8(lengthToCopy - 1);
        txSkbOffset := 0;
        txBytes := txBytes + |frame|;
        txPackets := txPackets + 1;
        ongoingTxSkb := None;
        tsCaptureMode := ongoingTxTsCaptureMode;
        ongoingTxTsCaptureMode := 0;
      }
    }

    /** The end of oa_tc6_add_tx_skb_to_spi_buf: the header goes before the payload just copied. */
    method WriteHeader(ghost payload: seq<byte>, startValid: bool, endValid: bool, endByteOffset: byte,
                       tsCaptureMode: byte, ghost buf: seq<byte>)
      requires Valid() && spiDataTxBufOffset + CHUNK_SIZE <= SPI_DATA_BUF_SIZE && |payload| <= CHUNK_PAYLOAD_SIZE
      requires |buf| == SPI_DATA_BUF_SIZE && spiDataTxBuf[..] == Overwrite(buf, spiDataTxBufOffset + 4, payload)
      modifies `spiDataTxBufOffset, spiDataTxBuf
      ensures Valid() && spiDataTxBufOffset == old(spiDataTxBufOffset) + CHUNK_SIZE
      ensures
        var header := Be32(DataHeader(true, startValid, endValid, endByteOffset, tsCaptureMode));
        spiDataTxBuf[..] == Overwrite(buf, old(spiDataTxBufOffset), header + payload)
    {
      hide Be32, DataHeader, Overwrite;
      var header := Be32(DataHeader(true, startValid, endValid, endByteOffset, tsCaptureMode));
      CopyToTxBuf(spiDataTxBufOffset, header);
      OverwriteTwice(buf, spiDataTxBufOffset, header, payload);
      spiDataTxBufOffset := spiDataTxBufOffset + CHUNK_SIZE;
    }

    /** oa_tc6_add_tx_skb_to_spi_buf */
    method AddTxSkbToSpiBuf()
      requires Valid() && ongoingTxSkb.Some? && InBounds(Tx())
      requires spiDataTxBufOffset + CHUNK_SIZE <= SPI_DATA_BUF_SIZE
      modifies `ongoingTxSkb, `txSkbOffset, `ongoingTxTsCaptureMode, `txPackets, `txBytes, `spiDataTxBufOffset
      modifies spiDataTxBuf
      ensures Valid() && Tx() == AddChunk(old(Tx())).0
      ensures spiDataTxBufOffset == old(spiDataTxBufOffset) + CHUNK_SIZE
      ensures
        var f := old(ongoingTxSkb.value);
        old(txSkbOffset) < |f| <= 65535 ==>
          (if |f| <= old(txSkbOffset) + 64 then ongoingTxSkb.None? && txSkbOffset == 0
           else ongoingTxSkb == Some(f) && txSkbOffset == old(txSkbOffset) + 64)
      ensures
        var c := AddChunk(old(Tx())).1;
        && |c.data| <= CHUNK_PAYLOAD_SIZE
        && spiDataTxBuf[..] == Overwrite(old(spiDataTxBuf[..]), old(spiDataTxBufOffset), Be32(HeaderOf(c)) + c.data)
    {
      hide Be32, DataHeader, Overwrite, AddChunk, HeaderOf, InBounds;
      AddChunkOffset(Tx());
      var startValid, endValid, endByteOffset, tsCaptureMode;
      ghost var payload;
      startValid, endValid, endByteOffset, tsCaptureMode, payload := CopyPayload();
      HeaderOfIs(TxChunk(true, startValid, endValid, endByteOffset, tsCaptureMode, payload));
      WriteHeader(payload, startValid, endValid, endByteOffset, tsCaptureMode, old(spiDataTxBuf[..]));
    }

    /** The chunks in the transmit buffer, from its start to the fill level. */
    ghost predicate Filled(cs: seq<TxChunk>)
      requires Valid()
      reads this, spiDataTxBuf
    {
      spiDataTxBufOffset == CHUNK_SIZE * |cs| && Holds(spiDataTxBuf[..], cs)
    }

    /** The section of oa_tc6_prepare_spi_tx_buf_for_tx_skbs under the lock. */
    method TakeWaitingTxSkb()
      modifies `ongoingTxSkb, `waitingTxSkb, `ongoingTxTsCaptureMode, `waitingTxTsCaptureMode
      ensures Tx() == TakeWaiting(old(Tx()))
    {
      if ongoingTxSkb.None? {
        ongoingTxSkb, waitingTxSkb := waitingTxSkb, None;
        ongoingTxTsCaptureMode, waitingTxTsCaptureMode := waitingTxTsCaptureMode, 0;
      }
    }

    /** oa_tc6_prepare_spi_tx_buf_for_tx_skbs */
    method PrepareSpiTxBufForTxSkbs() returns (len: nat)
      requires Valid() && InBounds(Tx()) && spiDataTxBufOffset == 0 && txCredits <= MAX_TX_CHUNKS
      modifies `ongoingTxSkb, `waitingTxSkb, `txSkbOffset, `ongoingTxTsCaptureMode, `waitingTxTsCaptureMode
      modifies `txPackets, `txBytes, `spiDataTxBufOffset, spiDataTxBuf
      ensures Valid() && InBounds(Tx()) && Tx() == FillTx(old(Tx()), txCredits).0
      ensures Filled(FillTx(old(Tx()), txCredits).1) && len == spiDataTxBufOffset
    {
      hide Holds, AddChunk, FillTx, Overwrite, HeaderOf, Be32, TakeWaiting, InBounds;
      ghost var start := Tx();
      HoldsNothing(spiDataTxBuf[..]);
      ghost var cs: seq<TxChunk> := [];
      ghost var rest := FillTx(start, txCredits).1;
      assert cs + rest == rest;
      var usedTxCredits := 0;
      while usedTxCredits < txCredits
        invariant Valid() && InBounds(Tx()) && usedTxCredits == |cs| <= txCredits
        invariant Filled(cs)
        invariant rest == FillTx(Tx(), txCredits - usedTxCredits).1
        invariant FillTx(start, txCredits) == (FillTx(Tx(), txCredits - usedTxCredits).0, cs + rest)
      {
        FillTxCases(Tx(), txCredits - usedTxCredits);
        TakeWaitingTxSkb();
        if ongoingTxSkb.None? {
          assert cs + [] == cs;
          len := usedTxCredits * CHUNK_SIZE;
          return;
        }
        ghost var c := AddChunk(Tx()).1;
        ghost var buf := spiDataTxBuf[..];
        AddTxSkbToSpiBuf();
        HoldsOneMore(buf, cs, c);
        assert cs + rest == cs + [c] + rest[1..];
        rest := rest[1..];
        cs := cs + [c];
        usedTxCredits := usedTxCredits + 1;
      }
      FillTxCases(Tx(), 0);
      len := usedTxCredits * CHUNK_SIZE;
      assert cs + [] == cs;
    }

    /** oa_tc6_add_empty_chunks_to_spi_buf */
    method AddEmptyChunksToSpiBuf(neededEmptyChunks: nat, ghost cs: seq<TxChunk>)
      requires Valid() && Filled(cs) && |cs| + neededEmptyChunks <= MAX_TX_CHUNKS
      modifies `spiDataTxBufOffset, spiDataTxBuf
      ensures Valid() && Filled(cs + Empties(neededEmptyChunks))
    {
      hide Be32, DataHeader;
      var header := Be32(DataHeader(false, false, false, 0, 0));
      var needed := neededEmptyChunks;
      ghost var n := 0;
      assert cs + Empties(0) == cs;
      while needed > 0
        invariant Valid() && n + needed == neededEmptyChunks
        invariant Filled(cs + Empties(n))
      {
        ghost var buf := spiDataTxBuf[..];
        CopyToTxBuf(spiDataTxBufOffset, header);
        assert header + EMPTY_CHUNK.data == header;
        HoldsOneMore(buf, cs + Empties(n), EMPTY_CHUNK);
        assert cs + Empties(n) + [EMPTY_CHUNK] == cs + Empties(n + 1);
        spiDataTxBufOffset := spiDataTxBufOffset + CHUNK_SIZE;
        needed := needed - 1;
        n := n + 1;
      }
    }

    /** oa_tc6_prepare_spi_tx_buf_for_rx_chunks */
    method PrepareSpiTxBufForRxChunks(len: nat, ghost cs: seq<TxChunk>) returns (spiLen: nat)
      requires Valid() && Filled(cs) && len == spiDataTxBufOffset && rxChunksAvailable <= MAX_TX_CHUNKS
      requires |cs| <= MAX_TX_CHUNKS
      modifies `spiDataTxBufOffset, spiDataTxBuf
      ensures Valid() && spiLen == spiDataTxBufOffset
      ensures Filled(cs + Empties(if |cs| >= rxChunksAvailable then 0 else rxChunksAvailable - |cs|))
    {
      var txChunks := len / CHUNK_SIZE;
      if txChunks >= rxChunksAvailable {
        assert cs + Empties(0) == cs;
        return len;
      }
      var neededEmptyChunks := rxChunksAvailable - txChunks;
      AddEmptyChunksToSpiBuf(neededEmptyChunks, cs);
      spiLen := neededEmptyChunks * CHUNK_SIZE + len;
    }

    /** The buffer filled for a turn of oa_tc6_try_spi_transfer: data chunks, then empty ones for what is announced. */
    method FillSpiTxBuf() returns (spiLen: nat)
      requires Valid() && Live(Tx()) && txCredits <= MAX_TX_CHUNKS && rxChunksAvailable <= MAX_TX_CHUNKS
      modifies `ongoingTxSkb, `waitingTxSkb, `txSkbOffset, `ongoingTxTsCaptureMode, `waitingTxTsCaptureMode
      modifies `txPackets, `txBytes, `spiDataTxBufOffset, spiDataTxBuf
      ensures Valid() && InBounds(old(Tx()))
      ensures
        var (t, cs) := Composed(old(Tx()), LinkState());
        Tx() == t && Filled(cs) && |cs| <= MAX_TX_CHUNKS && spiLen == spiDataTxBufOffset
    {
      hide Holds, FillTx, Remaining, Regular, Live, InBounds;
      LiveIsInBounds(Tx());
      HoldsNothing(spiDataTxBuf[..]);
      FillTxCounts(Tx(), txCredits);
      spiLen := 0;
      spiDataTxBufOffset := 0;
      ghost var data := [];
      if ongoingTxSkb.Some? || waitingTxSkb.Some? {
        data := FillTx(Tx(), txCredits).1;
        spiLen := PrepareSpiTxBufForTxSkbs();
      }
      spiLen := PrepareSpiTxBufForRxChunks(spiLen, data);
    }

    /** The first half of a turn of oa_tc6_try_spi_transfer: everything up to the transfer. */
    method PrepareTransfer() returns (spiLen: nat)
      requires Valid() && Live(Tx()) && txCredits <= MAX_TX_CHUNKS && rxChunksAvailable <= MAX_TX_CHUNKS
      modifies `ongoingTxSkb, `waitingTxSkb, `txSkbOffset, `ongoingTxTsCaptureMode, `waitingTxTsCaptureMode
      modifies `txPackets, `txBytes, `spiDataTxBufOffset, `intFlag, spiDataTxBuf
      ensures Valid() && !intFlag
      ensures
        var (t, cs) := Prepare(old(Driver(Tx(), LinkState(), intFlag)));
        Tx() == t && Filled(cs) && |cs| <= MAX_TX_CHUNKS && spiLen == spiDataTxBufOffset == CHUNK_SIZE * |cs|
    {
      hide Holds, Live, InBounds, Composed, Empties;
      spiLen := FillSpiTxBuf();
      ghost var chunks := Composed(old(Tx()), LinkState()).1;
      if intFlag {
        intFlag := false;
        if spiLen == 0 {
          assert chunks == [] && [] + Empties(1) == Empties(1);
          AddEmptyChunksToSpiBuf(1, []);
          spiLen := CHUNK_SIZE;
        }
      }
    }

    // ---------------------------------------------------------- receive

    /** oa_tc6_cleanup_ongoing_rx_skb */
    method CleanupOngoingRxSkb()
      modifies `rxSkb, `rxDropped, `freed
      ensures Rx() == Cleanup(old(Rx()))
      ensures rxSkb.None? && rxDropped == old(rxDropped) + (if old(rxSkb).Some? then 1 else 0)
    {
      if rxSkb.Some? {
        rxDropped := rxDropped + 1;
        freed := freed + 1;
        rxSkb := None;
      }
    }

    /** oa_tc6_cleanup_ongoing_tx_skb */
    method CleanupOngoingTxSkb()
      modifies `ongoingTxSkb, `txDropped
      ensures Tx() == CleanupTx(old(Tx()))
      ensures ongoingTxSkb.None? && txDropped == old(txDropped) + (if old(ongoingTxSkb).Some? then 1 else 0)
    {
      if ongoingTxSkb.Some? {
        txDropped := txDropped + 1;
        ongoingTxSkb := None;
      }
    }

    /** oa_tc6_allocate_rx_skb */
    method AllocateRxSkb(allocOk: bool) returns (o: Outcome)
      modifies `rxSkb, `rxDropped, `allocs, `leaked
      ensures Rx() == Allocate(old(Rx()), allocOk) && o == if allocOk then Done else Fatal(NoMemory)
    {
      leaked := leaked + Held(Rx());
      if !allocOk {
        rxSkb := None;
        rxDropped := rxDropped + 1;
        return Fatal(NoMemory);
      }
      allocs := allocs + 1;
      rxSkb := Some([]);
      o := Done;
    }

    /** oa_tc6_submit_rx_skb */
    method SubmitRxSkb()
      requires rxSkb.Some?
      modifies `rxSkb, `received
      ensures Rx() == Submit(old(Rx()))
    {
      received := received + [rxSkb.value];
      rxSkb := None;
    }

    /** The memory that starts with the receive buffer. */
    ghost function RxMemory(behind: seq<byte>): (memory: seq<byte>)
      requires Valid()
      reads this, spiDataRxBuf
      ensures |memory| == SPI_DATA_BUF_SIZE + |behind|
    {
      spiDataRxBuf[..] + behind
    }

    /** oa_tc6_update_rx_skb: `length` bytes of memory from `from` on, as a u8. */
    method UpdateRxSkb(from: nat, length: int, behind: seq<byte>) returns (o: Outcome)
      requires Valid() && from + 255 <= SPI_DATA_BUF_SIZE + |behind| && rxSkb.Some?
      modifies `rxSkb
      ensures (Rx(), o) == Append(old(Rx()), Copied(RxMemory(behind), from, length))
    {
      var piece := Copied(spiDataRxBuf[..] + behind, from, length);
      if |rxSkb.value| + |piece| > rxRoom {
        return Fault;
      }
      rxSkb := Some(rxSkb.value + piece);
      o := Done;
    }

    /** oa_tc6_prcs_rx_frame_start on `size` bytes from byte `from` of the receive buffer. */
    method PrcsRxFrameStart(from: nat, size: nat, allocOk: bool, behind: seq<byte>) returns (o: Outcome)
      requires Valid() && from + TIMESTAMP_SIZE + 255 <= SPI_DATA_BUF_SIZE + |behind|
      modifies `rxSkb, `rxDropped, `allocs, `leaked
      ensures (Rx(), o) == FrameStart(old(Rx()), RxMemory(behind), from, size, allocOk)
    {
      hide Copied;
      o := AllocateRxSkb(allocOk);
      if o != Done {
        return;
      }
      o := UpdateRxSkb(from + TIMESTAMP_SIZE, size - TIMESTAMP_SIZE, behind);
    }

    /** oa_tc6_prcs_complete_rx_frame */
    method PrcsCompleteRxFrame(from: nat, size: nat, allocOk: bool, behind: seq<byte>) returns (o: Outcome)
      requires Valid() && from + TIMESTAMP_SIZE + 255 <= SPI_DATA_BUF_SIZE + |behind|
      modifies `rxSkb, `rxDropped, `allocs, `leaked, `received
      ensures (Rx(), o) == CompleteFrame(old(Rx()), RxMemory(behind), from, size, allocOk)
    {
      hide FrameStart;
      o := PrcsRxFrameStart(from, size, allocOk, behind);
      if o == Done {
        SubmitRxSkb();
      }
    }

    /** oa_tc6_prcs_rx_frame_end */
    method PrcsRxFrameEnd(from: nat, size: nat, behind: seq<byte>) returns (o: Outcome)
      requires Valid() && from + 255 <= SPI_DATA_BUF_SIZE + |behind|
      modifies `rxSkb, `received
      ensures (Rx(), o) == FrameEnd(old(Rx()), RxMemory(behind), from, size)
    {
      hide Copied;
      if rxSkb.None? {
        return Fault;
      }
      o := UpdateRxSkb(from, size - FCS_SIZE, behind);
      if o == Done {
        SubmitRxSkb();
      }
    }

    /** oa_tc6_prcs_rx_chunk_payload on the chunk whose payload starts at byte `at` of the receive buffer. */
    method PrcsRxChunkPayload(at: nat, ft: Footer, allocOk: bool, behind: seq<byte>) returns (o: Outcome)
      requires Valid() && at + CHUNK_SIZE <= SPI_DATA_BUF_SIZE && ValidFooter(ft) && |behind| == MEMORY_BEHIND
      modifies `rxSkb, `rxBufOverflow, `rxDropped, `allocs, `leaked, `received
      ensures
        var data := RxMemory(behind)[at..at + 64];
        var rest := RxMemory(behind)[at + 64..at + 64 + MEMORY_BEHIND];
        (Rx(), o) == ChunkPayload(old(Rx()), data, rest, ft, allocOk)
    {
      hide FrameStart, CompleteFrame, FrameEnd;
      var start := 4 * ft.swo;
      var end := ft.ebo;
      ghost var memory := RxMemory(behind);
      ghost var r := Rx().(overflow := false);
      InPlace(memory, at);
      StartInPlace(r, memory, at, start, end + 1 - start, allocOk);
      StartInPlace(r, memory, at, start, CHUNK_PAYLOAD_SIZE - start, allocOk);
      EndInPlace(r, memory, at, end + 1);
      if ft.sv && rxBufOverflow {
        rxBufOverflow := false;
      }
      if rxBufOverflow {
        return Done;
      }
      if ft.sv && ft.ev && start < end {
        o := PrcsCompleteRxFrame(at + start, end + 1 - start, allocOk, behind);
        return;
      }
      if ft.sv && !ft.ev {
        o := PrcsRxFrameStart(at + start, CHUNK_PAYLOAD_SIZE - start, allocOk, behind);
        return;
      }
      if ft.ev && !ft.sv {
        o := PrcsRxFrameEnd(at, end + 1, behind);
        return;
      }
      if ft.sv && ft.ev && start > end {
        if rxSkb.Some? {
          o := PrcsRxFrameEnd(at, end + 1, behind);
          if o != Done {
            return;
          }
          StartInPlace(Rx(), memory, at, start, CHUNK_PAYLOAD_SIZE - start, allocOk);
        }
        o := PrcsRxFrameStart(at + start, CHUNK_PAYLOAD_SIZE - start, allocOk, behind);
        return;
      }
      if rxSkb.None? {
        return Fault;
      }
      CopiedWhole(memory, at);
      o := UpdateRxSkb(at, CHUNK_PAYLOAD_SIZE, behind);
    }

    /** oa_tc6_process_extended_status */
    method ProcessExtendedStatus(status: Status) returns (o: Outcome)
      modifies `rxSkb, `rxBufOverflow, `rxDropped, `freed
      ensures (Rx(), o) == ExtendedStatusOf(old(Rx()), status)
      ensures status.Bits? ==> (o == Again <==> status.value & 0x8 == 0x8) && (o == Done <==> status.value & 0x39 == 0)
    {
      if status.Bits? {
        StatusMeans(Rx(), status.value);
      }
      match status
      case AccessFailed(again) => o := if again then Again else Fatal(Register);
      case Bits(v) =>
        if RxBufferOverflow(v) {
          rxBufOverflow := true;
          CleanupOngoingRxSkb();
          o := Again;
        } else if FatalStatus(v) {
          o := Fatal(NoDevice);
        } else {
          o := Done;
        }
    }

    /** oa_tc6_process_rx_chunk_footer */
    method ProcessRxChunkFooter(ft: Footer, status: Status) returns (o: Outcome)
      modifies `txCredits, `rxChunksAvailable, `rxSkb, `rxBufOverflow, `rxDropped, `freed
      ensures (LinkState(), o) == ChunkFooter(old(LinkState()), ft, status)
      ensures txCredits == ft.txc && rxChunksAvailable == ft.rca
    {
      txCredits := ft.txc;
      rxChunksAvailable := ft.rca;
      if ft.exst {
        o := ProcessExtendedStatus(status);
        if o != Done {
          return;
        }
      }
      o := if ft.hdrb || !ft.sync then Fatal(NoDevice) else Done;
    }

    /** The body of the loop in oa_tc6_process_spi_data_rx_buf, for chunk `i`. */
    method ProcessRxChunk(i: nat, status: Status, allocOk: bool, behind: seq<byte>) returns (o: Outcome)
      requires Valid() && CHUNK_SIZE * (i + 1) <= SPI_DATA_BUF_SIZE && |behind| == MEMORY_BEHIND
      modifies `txCredits, `rxChunksAvailable, `rxSkb, `rxBufOverflow, `rxDropped, `freed, `allocs, `leaked, `received
      ensures (LinkState(), o) == ProcessChunk(old(LinkState()), InAt(RxMemory(behind), i, status, allocOk))
    {
      hide ChunkPayload, ChunkFooter, ParseFooter, FromBe32;
      var at := CHUNK_SIZE * i;
      var ft := ParseFooter(FromBe32(spiDataRxBuf[at + 64..at + 68]));
      assert spiDataRxBuf[at + 64..at + 68] == RxMemory(behind)[at + 64..at + 68];
      FooterAtIs(RxMemory(behind), i);
      o := ProcessRxChunkFooter(ft, status);
      if o == Done && ft.dv {
        o := PrcsRxChunkPayload(at, ft, allocOk, behind);
      }
    }

    /** oa_tc6_process_spi_data_rx_buf */
    method ProcessSpiDataRxBuf(length: nat, statuses: seq<Status>, allocOks: seq<bool>, behind: seq<byte>)
      returns (o: Outcome, ghost examined: nat)
      requires Valid() && length <= SPI_DATA_BUF_SIZE && |behind| == MEMORY_BEHIND
      requires |statuses| == |allocOks| == length / CHUNK_SIZE
      modifies `txCredits, `rxChunksAvailable, `rxSkb, `rxBufOverflow, `rxDropped, `freed, `allocs, `leaked, `received
      ensures ProcessFrom(old(LinkState()), InsOf(RxMemory(behind), statuses, allocOks), 0)
           == Pass(LinkState(), o, examined)
      ensures DeliversWire(RxMemory(behind), statuses, allocOks, old(Rx()), LinkState(), o)
    {
      hide ProcessChunk, ProcessFrom, InsOf, DeliversWire;
      PassDeliversWire(LinkState(), RxMemory(behind), statuses, allocOks);
      ghost var ins := InsOf(RxMemory(behind), statuses, allocOks);
      ghost var start := LinkState();
      var noOfRxChunks := length / CHUNK_SIZE;
      var i := 0;
      while i < noOfRxChunks
        invariant i <= noOfRxChunks
        invariant ProcessFrom(start, ins, 0) == ProcessFrom(LinkState(), ins, i)
      {
        InsOfAt(RxMemory(behind), i, statuses, allocOks);
        PassStep(LinkState(), ins, i);
        o := ProcessRxChunk(i, statuses[i], allocOks[i], behind);
        i := i + 1;
        examined := i;
        if o != Done {
          return;
        }
      }
      PassEnds(LinkState(), ins);
      o, examined := Done, i;
    }

    // ---------------------------------------------------------- the transfer loop

    /** The receive half of the SPI transfer: the bytes that arrived. */
    method FillRxBuf(bytes: seq<byte>)
      requires Valid() && |bytes| <= SPI_DATA_BUF_SIZE
      modifies spiDataRxBuf
      ensures spiDataRxBuf[..] == bytes + old(spiDataRxBuf[|bytes|..])
    {
      forall i | 0 <= i < |bytes| {
        spiDataRxBuf[i] := bytes[i];
      }
    }

    /** The invariant of the transfer loop, with `backlog` chunks waiting in the MAC-PHY. */
    ghost predicate LoopInv(backlog: nat)
      reads this
    {
      && Valid() && Live(Tx()) && Owned(Rx())
      && txCredits <= MAX_TX_CHUNKS && rxChunksAvailable <= MAX_TX_CHUNKS
      && (rxChunksAvailable == 0 ==> backlog == 0 || intFlag)
    }

    /** oa_tc6_process_spi_data_rx_buf on the bytes of a reply, and the error handling of the transfer loop; None to
        go on with the next round. */
    method FinishTransfer(spiLen: nat, reply: Reply) returns (next: Option<Result>)
      requires Valid() && Live(Tx()) && CHUNK_SIZE <= spiLen <= SPI_DATA_BUF_SIZE && spiLen % CHUNK_SIZE == 0
      requires ValidReply(reply, spiLen / CHUNK_SIZE) && !intFlag
      modifies this, spiDataRxBuf
      ensures Valid()
      ensures
        var ins := Chunks(reply, old(spiDataRxBuf[..]));
        AfterTransfer(old(Tx()), old(LinkState()), Some(ins)) == Turn(Driver(Tx(), LinkState(), intFlag), next)
    {
      hide InsOf, ProcessFrom;
      FillRxBuf(reply.bytes);
      assert RxMemory(reply.behind) == Arrived(reply, old(spiDataRxBuf[..]));
      var o, examined := ProcessSpiDataRxBuf(spiLen, reply.statuses, reply.allocs, reply.behind);
      match o
      case Done => next := None;
      case Again => next := None;
      case Fault => next := Some(Crashed);
      case Fatal(_) =>
        CleanupOngoingTxSkb();
        CleanupOngoingRxSkb();
        next := Some(DeviceError);
    }

    /** One turn of the loop of oa_tc6_try_spi_transfer; None to go on. Unless the transfer fails, the frames in the
        MAC-PHY, the one dropped by a device error and those still in the slots are together what they were; if it
        fails, `lost` are the frames whose last chunk was in it, already counted as sent. */
    method TransferRound<D(!new)>(attached: D, exchange: Exchanger<D>, ghost backlog: D -> nat, ghost phy: D -> MacPhy)
      returns (next: Option<Result>, dev: D, ghost lost: seq<Tagged>)
      requires LoopInv(backlog(attached)) && Conforming(exchange, backlog, phy) && Attuned(phy(attached), Tx())
      modifies this, spiDataTxBuf, spiDataRxBuf
      ensures Valid() && Owned(Rx()) && !intFlag
      ensures next.None? ==>
                LoopInv(backlog(dev))
                && Work(Driver(Tx(), LinkState(), intFlag), backlog(dev))
                   < old(Work(Driver(Tx(), LinkState(), intFlag), backlog(attached)))
      ensures next.None? || next == Some(Returned) ==> Attuned(phy(dev), Tx()) && lost == []
      ensures next == Some(Returned) ==>
                && LoopInv(backlog(dev)) && rxChunksAvailable == 0 && backlog(dev) == 0
                && (txCredits == 0 || (ongoingTxSkb.None? && waitingTxSkb.None?))
      ensures next != Some(SpiError) ==>
                && phy(dev).paired == phy(attached).paired
                && phy(dev).frames + lost + Queued(Tx()) == phy(attached).frames + Queued(old(Tx()))
                && txPackets - old(txPackets) == |phy(dev).frames| - |phy(attached).frames|
                && txDropped == old(txDropped) + |lost|
      ensures next == Some(SpiError) ==>
                && lost + Queued(Tx()) == Queued(old(Tx()))
                && txPackets - old(txPackets) == |lost| && txDropped == old(txDropped)
      ensures next == Some(DeviceError) ==> ongoingTxSkb.None? && rxSkb.None? && |lost| <= 1
      ensures next == Some(Crashed) ==> lost == []
    {
      hide Live, Owned, AfterTransfer, Work, Holds, Prepare, HandsOver, InBounds, Attuned, Queued, AcceptAll,
           AcceptChunks, Slices, Fits, Chunks, FootersOf, Conforming;
      ghost var d := Driver(Tx(), LinkState(), intFlag);
      LiveIsInBounds(d.tx);
      EmptyRoundIsQuiet(d, backlog(attached));
      PrepareRefines(phy(attached), d);
      ghost var prepared := Prepare(d);
      ghost var n := |prepared.1|;
      PreparedRemains(d, n);
      lost := [];
      var spiLen := PrepareTransfer();
      assert Tx() == prepared.0 && spiLen == CHUNK_SIZE * n && LinkState() == d.link;
      if spiLen == 0 {
        QuietTx(d);
        NothingAccepted(phy(attached), prepared.1);
        return Some(Returned), attached, lost;
      }
      var sent := spiDataTxBuf[..spiLen];
      SentChunks(spiDataTxBuf[..], prepared.1, phy(attached));
      ConformsOnce(exchange, backlog, phy, attached, sent);
      var (dev', reply) := exchange(attached, sent);
      dev := dev';
      if reply.None? {
        lost := LostInRound(phy(attached), d);
        return Some(SpiError), dev, lost;
      }
      assert |sent| / CHUNK_SIZE == n;
      ghost var ins := Chunks(reply.value, spiDataRxBuf[..]);
      SameFooters(reply.value, spiDataRxBuf[..]);
      lost := RoundConcludes(phy(attached), phy(dev), d, backlog(attached), backlog(dev), ins);
      next := FinishTransfer(spiLen, reply.value);
      assert AfterTransfer(prepared.0, d.link, Some(ins)) == Turn(Driver(Tx(), LinkState(), intFlag), next);
    }

    /** oa_tc6_try_spi_transfer: against any MAC-PHY that takes what it is sent and hands over its receive backlog,
        and with no arrivals meanwhile, the loop ends; when it returns normally nothing is left to fetch or answer,
        nothing to send for which there is credit, and the MAC-PHY has got exactly the frames that left the slots,
        in order, and the part of the ongoing one that was cut. However it ends, no frame goes astray but those of a
        failed transfer, which are counted as sent, and the ongoing one at a device error, which is counted as
        dropped; `last` is the MAC-PHY before a failed transfer, else after the last one. */
    method TrySpiTransfer<D(!new)>(attached: D, exchange: Exchanger<D>, ghost backlog: D -> nat, ghost phy: D -> MacPhy)
      returns (result: Result, dev: D, ghost last: D, ghost lost: seq<Tagged>)
      requires LoopInv(backlog(attached)) && Conforming(exchange, backlog, phy) && Attuned(phy(attached), Tx())
      modifies this, spiDataTxBuf, spiDataRxBuf
      ensures Valid() && Owned(Rx()) && !intFlag
      ensures result == Returned ==>
                && LoopInv(backlog(dev)) && rxChunksAvailable == 0 && backlog(dev) == 0
                && (txCredits == 0 || (ongoingTxSkb.None? && waitingTxSkb.None?))
                && Attuned(phy(dev), Tx())
      ensures phy(last).paired == phy(attached).paired
      ensures phy(last).frames + lost + Queued(Tx()) == phy(attached).frames + Queued(old(Tx()))
      ensures result != SpiError ==> last == dev && txDropped == old(txDropped) + |lost|
      ensures result == SpiError ==> txDropped == old(txDropped)
      ensures txPackets - old(txPackets)
           == |phy(last).frames| - |phy(attached).frames| + if result == SpiError then |lost| else 0
      ensures result == Returned || result == Crashed ==> lost == []
      ensures result == DeviceError ==> ongoingTxSkb.None? && rxSkb.None? && |lost| <= 1
    {
      dev := attached;
      while true
        invariant LoopInv(backlog(dev)) && Attuned(phy(dev), Tx()) && phy(dev).paired == phy(attached).paired
        invariant phy(dev).frames + Queued(Tx()) == phy(attached).frames + Queued(old(Tx()))
        invariant txPackets - old(txPackets) == |phy(dev).frames| - |phy(attached).frames|
        invariant txDropped == old(txDropped)
        decreases Work(Driver(Tx(), LinkState(), intFlag), backlog(dev))
      {
        hide Live, Owned, Work, Conforming, Queued, Attuned, InBounds;
        LiveIsInBounds(Tx());
        last := dev;
        ghost var queued := Queued(Tx());
        var next;
        next, dev, lost := TransferRound(dev, exchange, backlog, phy);
        if next == Some(SpiError) {
          assert phy(last).frames + (lost + Queued(Tx())) == phy(last).frames + lost + Queued(Tx());
        } else {
          last := dev;
          assert lost == [] ==> phy(dev).frames + lost == phy(dev).frames;
        }
        if next.Some? {
          return next.value, dev, last, lost;
        }
      }
    }

    // ---------------------------------------------------------- the other contexts

    /** oa_tc6_start_xmit, with the outcome of skb_linearize; true for NETDEV_TX_BUSY. */
    method StartXmit(skb: Skb, linearizeOk: bool) returns (busy: bool)
      modifies `waitingTxSkb, `waitingTxTsCaptureMode, `txDropped
      ensures busy == old(waitingTxSkb).Some?
      ensures
        Tx() == if busy then old(Tx())
                else if !linearizeOk then old(Tx()).(dropped := old(txDropped) + 1)
                else old(Tx()).(waiting := Some(skb.data), waitingMode := skb.mode)
    {
      if waitingTxSkb.Some? {
        return true;
      }
      if !linearizeOk {
        txDropped := txDropped + 1;
        return false;
      }
      waitingTxSkb := Some(skb.data);
      waitingTxTsCaptureMode := skb.mode;
      busy := false;
    }

    /** oa_tc6_macphy_isr */
    method MacphyIsr()
      modifies `intFlag
      ensures intFlag
    {
      intFlag := true;
    }
  }
}
