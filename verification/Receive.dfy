/** The receive side: frames reassembled from chunks by their footers, with a resynchronisation mode after overflow. */
module Receive {
  import opened Words
  import opened Wire

  const TIMESTAMP_SIZE: nat := 8
  const FCS_SIZE: nat := 4

  /** How far behind a chunk's payload a copy can reach whose length wrapped: it starts at most 60 + 8 bytes into the
      payload and takes at most 255. */
  const MEMORY_BEHIND: nat := 259

  /** rx_skb, rx_buf_overflow and the receive counters. `room` is the size of a receive buffer, the MTU and 18 bytes
      as the allocator rounds them up. `allocs`, `freed` and `leaked` are the history of the buffers: each one is
      delivered, freed, overwritten while still held, or still held. */
  datatype RxState = RxState(
    room: nat, skb: Option<seq<byte>>, overflow: bool, delivered: seq<seq<byte>>, dropped: nat,
    allocs: nat, freed: nat, leaked: nat)

  function EmptyRx(room: nat): RxState {
    RxState(room, None, false, [], 0, 0, 0, 0)
  }

  datatype Error = NoMemory | NoDevice | Register

  /** What one processing step returns. `Fault` stands where the kernel stops the thread: a null buffer dereferenced,
      or skb_put beyond the end of the buffer. */
  datatype Outcome = Done | Again | Fatal(error: Error) | Fault

  /** What reading STATUS0 and writing it back gives; a failed access carries an error code, possibly -EAGAIN. */
  datatype Status = AccessFailed(again: bool) | Bits(value: bv32)

  predicate RxBufferOverflow(v: bv32) { v & 0x8 != 0 }
  predicate FatalStatus(v: bv32) { v & 0x1 != 0 || v & 0x10 != 0 || v & 0x20 != 0 }

  /** One received chunk: its payload, what lies behind that in memory, its footer, STATUS0 should the footer ask for
      it, and the allocator's answer. */
  datatype RxIn = RxIn(data: seq<byte>, behind: seq<byte>, ft: Footer, status: Status, allocOk: bool)

  predicate ValidFooter(ft: Footer) {
    ft.swo < 16 && ft.ebo < 64 && ft.rca < 32 && ft.txc < 32
  }

  predicate ValidPayload(data: seq<byte>, behind: seq<byte>) {
    |data| == CHUNK_PAYLOAD_SIZE && |behind| == MEMORY_BEHIND
  }

  predicate ValidIn(x: RxIn) {
    ValidPayload(x.data, x.behind) && ValidFooter(x.ft)
  }

  function Held(r: RxState): nat {
    if r.skb.Some? then 1 else 0
  }

  /** oa_tc6_cleanup_ongoing_rx_skb */
  function Cleanup(r: RxState): RxState {
    if r.skb.Some? then r.(skb := None, dropped := r.dropped + 1, freed := r.freed + 1) else r
  }

  /** oa_tc6_allocate_rx_skb: the field is overwritten whatever it held. */
  function Allocate(r: RxState, ok: bool): RxState {
    if ok then r.(skb := Some([]), allocs := r.allocs + 1, leaked := r.leaked + Held(r))
    else r.(skb := None, leaked := r.leaked + Held(r), dropped := r.dropped + 1)
  }

  /** The bytes copied when `len` is passed as a u8. */
  function Copied(memory: seq<byte>, from: nat, len: int): (piece: seq<byte>)
    requires from + 255 <= |memory|
    ensures |piece| == len % 256
  {
    memory[from..from + len % 256]
  }

  /** oa_tc6_update_rx_skb */
  function Append(r: RxState, piece: seq<byte>): (RxState, Outcome)
    requires r.skb.Some?
  {
    if |r.skb.value| + |piece| > r.room then (r, Fault) else (r.(skb := Some(r.skb.value + piece)), Done)
  }

  /** oa_tc6_submit_rx_skb */
  function Submit(r: RxState): RxState
    requires r.skb.Some?
  {
    r.(skb := None, delivered := r.delivered + [r.skb.value])
  }

  /** oa_tc6_prcs_rx_frame_start on `size` bytes: the buffer starts after the timestamp. */
  function FrameStart(r: RxState, memory: seq<byte>, from: nat, size: nat, allocOk: bool): (p: (RxState, Outcome))
    requires from + TIMESTAMP_SIZE + 255 <= |memory|
    ensures p.1 == Done ==> p.0.skb.Some?
  {
    var a := Allocate(r, allocOk);
    if !allocOk then (a, Fatal(NoMemory)) else Append(a, Copied(memory, from + TIMESTAMP_SIZE, size - TIMESTAMP_SIZE))
  }

  /** oa_tc6_prcs_complete_rx_frame: the timestamp is stripped, the frame check sequence is not. */
  function CompleteFrame(r: RxState, memory: seq<byte>, from: nat, size: nat, allocOk: bool): (RxState, Outcome)
    requires from + TIMESTAMP_SIZE + 255 <= |memory|
  {
    var (s, o) := FrameStart(r, memory, from, size, allocOk);
    if o == Done then (Submit(s), Done) else (s, o)
  }

  /** oa_tc6_prcs_rx_frame_end on `size` bytes: the last four are stripped. */
  function FrameEnd(r: RxState, memory: seq<byte>, from: nat, size: nat): (RxState, Outcome)
    requires from + 255 <= |memory|
  {
    if r.skb.None? then (r, Fault)
    else
      var (s, o) := Append(r, Copied(memory, from, size - FCS_SIZE));
      if o == Done then (Submit(s), Done) else (s, o)
  }

  /** oa_tc6_prcs_rx_chunk_payload */
  function ChunkPayload(r0: RxState, data: seq<byte>, behind: seq<byte>, ft: Footer, allocOk: bool): (RxState, Outcome)
    requires ValidPayload(data, behind) && ValidFooter(ft)
  {
    var memory := data + behind;
    var start := 4 * ft.swo;
    var end := ft.ebo;
    var r := if ft.sv then r0.(overflow := false) else r0;
    if r.overflow then
      (r, Done)
    else if ft.sv && ft.ev && start < end then
      CompleteFrame(r, memory, start, end + 1 - start, allocOk)
    else if ft.sv && !ft.ev then
      FrameStart(r, memory, start, CHUNK_PAYLOAD_SIZE - start, allocOk)
    else if ft.ev && !ft.sv then
      FrameEnd(r, memory, 0, end + 1)
    else if ft.sv && ft.ev && start > end then
      var (s, o) := if r.skb.Some? then FrameEnd(r, memory, 0, end + 1) else (r, Done);
      if o != Done then (s, o) else FrameStart(s, memory, start, CHUNK_PAYLOAD_SIZE - start, allocOk)
    else if r.skb.None? then
      (r, Fault)
    else
      Append(r, data)
  }

  /** The receive state together with what footers report. */
  datatype Link = Link(rx: RxState, credits: nat, rca: nat)

  /** oa_tc6_process_extended_status */
  function ExtendedStatusOf(r: RxState, status: Status): (RxState, Outcome) {
    match status
    case AccessFailed(again) => (r, if again then Again else Fatal(Register))
    case Bits(v) =>
      if RxBufferOverflow(v) then (Cleanup(r.(overflow := true)), Again)
      else if FatalStatus(v) then (r, Fatal(NoDevice))
      else (r, Done)
  }

  /** oa_tc6_process_rx_chunk_footer */
  function ChunkFooter(l: Link, ft: Footer, status: Status): (Link, Outcome) {
    var l' := l.(credits := ft.txc, rca := ft.rca);
    var (r, o) := if ft.exst then ExtendedStatusOf(l.rx, status) else (l.rx, Done);
    if o != Done then (l'.(rx := r), o)
    else if ft.hdrb || !ft.sync then (l'.(rx := r), Fatal(NoDevice))
    else (l'.(rx := r), Done)
  }

  /** One turn of the loop in oa_tc6_process_spi_data_rx_buf. */
  function ProcessChunk(l: Link, x: RxIn): (Link, Outcome)
    requires ValidIn(x)
  {
    var (l', o) := ChunkFooter(l, x.ft, x.status);
    if o == Done && x.ft.dv then
      var (r, o') := ChunkPayload(l'.rx, x.data, x.behind, x.ft, x.allocOk);
      (l'.(rx := r), o')
    else
      (l', o)
  }

  /** The result of a round's receive pass; `examined` counts the footers looked at. */
  datatype Pass = Pass(link: Link, outcome: Outcome, examined: nat)

  /** oa_tc6_process_spi_data_rx_buf from chunk `i` on. */
  function ProcessFrom(l: Link, ins: seq<RxIn>, i: nat): (p: Pass)
    requires i <= |ins| && forall x <- ins :: ValidIn(x)
    ensures i <= p.examined <= |ins|
    decreases |ins| - i
  {
    if i == |ins| then
      Pass(l, Done, i)
    else
      var (l', o) := ProcessChunk(l, ins[i]);
      if o == Done then ProcessFrom(l', ins, i + 1) else Pass(l', o, i + 1)
  }

  // ------------------------------------------------------------ buffer ownership, for arbitrary input

  /** A held buffer and overflow mode exclude each other; every allocated buffer is accounted for. */
  predicate Owned(r: RxState) {
    && (r.overflow ==> r.skb.None?)
    && r.allocs == |r.delivered| + r.freed + r.leaked + Held(r)
    && r.freed <= r.dropped
  }

  lemma PayloadKeepsOwned(r: RxState, data: seq<byte>, behind: seq<byte>, ft: Footer, allocOk: bool)
    requires Owned(r) && ValidPayload(data, behind) && ValidFooter(ft)
    ensures Owned(ChunkPayload(r, data, behind, ft, allocOk).0)
  {
  }

  lemma FooterKeepsOwned(l: Link, ft: Footer, status: Status)
    requires Owned(l.rx)
    ensures Owned(ChunkFooter(l, ft, status).0.rx)
    ensures ChunkFooter(l, ft, status).0.credits == ft.txc && ChunkFooter(l, ft, status).0.rca == ft.rca
  {
  }

  lemma ChunkKeepsOwned(l: Link, x: RxIn)
    requires Owned(l.rx) && ValidIn(x)
    ensures Owned(ProcessChunk(l, x).0.rx)
    ensures ProcessChunk(l, x).0.credits == x.ft.txc && ProcessChunk(l, x).0.rca == x.ft.rca
  {
    FooterKeepsOwned(l, x.ft, x.status);
    var (l', o) := ChunkFooter(l, x.ft, x.status);
    if o == Done && x.ft.dv {
      PayloadKeepsOwned(l'.rx, x.data, x.behind, x.ft, x.allocOk);
    }
  }

  /** Whatever bytes arrive, also in rounds cut short, failed or faulting, ownership is kept; a round without
      error examines every footer, and the credits and chunk count are those of the last footer examined. */
  lemma {:induction false} ProcessKeepsOwned(l: Link, ins: seq<RxIn>, i: nat)
    requires i <= |ins| && forall x <- ins :: ValidIn(x)
    requires Owned(l.rx)
    ensures
      var p := ProcessFrom(l, ins, i);
      && Owned(p.link.rx)
      && (p.outcome == Done ==> p.examined == |ins|)
      && (p.outcome != Done ==> p.examined > i)
      && (p.examined > i ==>
            p.link.credits == ins[p.examined - 1].ft.txc && p.link.rca == ins[p.examined - 1].ft.rca)
      && (p.examined == i ==> p.link == l)
    decreases |ins| - i
  {
    if i < |ins| {
      ChunkKeepsOwned(l, ins[i]);
      var (l', o) := ProcessChunk(l, ins[i]);
      if o == Done {
        ProcessKeepsOwned(l', ins, i + 1);
      }
    }
  }

  // ------------------------------------------------------------ how a pass can end

  // STATUS0: bit 0 transmit protocol error, bit 3 receive buffer overflow, bit 4 loss of frame, bit 5 header error.

  lemma OverflowBit(v: bv32)
    ensures RxBufferOverflow(v) <==> v & 0x8 == 0x8
  {
  }

  lemma FatalBits(v: bv32)
    ensures !RxBufferOverflow(v) && !FatalStatus(v) <==> v & 0x39 == 0
  {
  }

  lemma StatusBits(v: bv32)
    ensures v & 0x8 == 0x8 || v & 0x8 == 0
    ensures v & 0x39 == 0 <==> v & 0x8 == 0 && v & 0x31 == 0
  {
  }

  /** What each value of STATUS0 leads to: an overflow is retried whatever else is set, the other three errors are
      fatal, and nothing else matters. */
  lemma StatusMeans(r: RxState, v: bv32)
    ensures
      var (r', o) := ExtendedStatusOf(r, Bits(v));
      && (o == Again <==> v & 0x8 == 0x8) && (o == Done <==> v & 0x39 == 0)
      && (o.Fatal? <==> v & 0x8 == 0 && v & 0x31 != 0)
      && r'.overflow == (v & 0x8 == 0x8 || r.overflow)
      && (v & 0x8 == 0x8 ==> r'.skb.None?) && (v & 0x8 == 0 ==> r' == r)
  {
    OverflowBit(v);
    FatalBits(v);
    StatusBits(v);
  }

  /** Nothing in the footer stops the pass. */
  predicate Clean(x: RxIn) {
    !x.ft.hdrb && x.ft.sync && (x.ft.exst ==> x.status.Bits? && x.status.value & 0x39 == 0)
  }

  /** The footer makes the loop retry: an overflow status, or a register access that failed with -EAGAIN. */
  predicate Retries(x: RxIn) {
    x.ft.exst && match x.status case AccessFailed(again) => again case Bits(v) => v & 0x8 == 0x8
  }

  lemma PayloadOutcome(r: RxState, data: seq<byte>, behind: seq<byte>, ft: Footer, allocOk: bool)
    requires ValidPayload(data, behind) && ValidFooter(ft)
    ensures
      var (r', o) := ChunkPayload(r, data, behind, ft, allocOk);
      && o != Again && (o.Fatal? ==> o == Fatal(NoMemory))
      && (o == Fatal(NoMemory) ==> !allocOk && ft.sv && r'.skb.None?)
      && (!allocOk && ft.sv && !(ft.ev && 4 * ft.swo == ft.ebo) ==> o != Done)
      && r'.dropped == r.dropped + (if o == Fatal(NoMemory) then 1 else 0) && r'.freed == r.freed
  {
  }

  /** What stops a pass at a footer, and what passes it. */
  lemma FooterOutcome(l: Link, ft: Footer, status: Status)
    ensures
      var (l', o) := ChunkFooter(l, ft, status);
      var clean := !ft.hdrb && ft.sync && (ft.exst ==> status.Bits? && status.value & 0x39 == 0);
      var retried := ft.exst && match status case AccessFailed(again) => again case Bits(v) => v & 0x8 == 0x8;
      && (o == Done <==> clean) && (o == Again <==> retried) && (o.Fatal? <==> !clean && !retried)
      && o != Fatal(NoMemory) && l'.credits == ft.txc && l'.rca == ft.rca
      && (retried && status.Bits? ==> l'.rx.overflow && l'.rx.skb.None?)
      && (!(retried && status.Bits?) ==> l'.rx == l.rx)
      && l'.rx.dropped - l.rx.dropped == l'.rx.freed - l.rx.freed
  {
    if status.Bits? {
      StatusMeans(l.rx, status.value);
      StatusBits(status.value);
    }
  }

  /** Every footer before the last examined one was clean; the pass is complete only if all were, is retried exactly at
      an extended status that asks for it, and fails with a device error exactly at a footer that is neither clean nor
      to be retried, or for want of memory; an overflow leaves overflow mode on with no buffer held; a frame is counted
      as dropped for every buffer freed and every one refused. */
  lemma {:induction false} PassOutcome(l: Link, ins: seq<RxIn>, i: nat)
    requires i <= |ins| && forall x <- ins :: ValidIn(x)
    ensures
      var p := ProcessFrom(l, ins, i);
      var noMemory := p.outcome == Fatal(NoMemory);
      && (forall k :: i <= k < p.examined - 1 ==> Clean(ins[k]))
      && (p.outcome == Done ==> forall k :: i <= k < |ins| ==> Clean(ins[k]))
      && (p.outcome == Done ==> p.examined == |ins|) && (p.outcome != Done ==> p.examined > i)
      && (p.examined > i ==>
            var x := ins[p.examined - 1];
            && p.link.credits == x.ft.txc && p.link.rca == x.ft.rca
            && (p.outcome == Again <==> Retries(x))
            && (p.outcome.Fatal? <==> (!Clean(x) && !Retries(x)) || noMemory)
            && (p.outcome == Again && x.status.Bits? ==> p.link.rx.overflow && p.link.rx.skb.None?)
            && (noMemory ==> Clean(x) && x.ft.dv && x.ft.sv && !x.allocOk && p.link.rx.skb.None?))
      && p.link.rx.dropped - l.rx.dropped == p.link.rx.freed - l.rx.freed + if noMemory then 1 else 0
    decreases |ins| - i
  {
    hide ChunkPayload, ChunkFooter;
    if i < |ins| {
      assert ins[i] in ins;
      var x := ins[i];
      var (l', o) := ProcessChunk(l, x);
      FooterOutcome(l, x.ft, x.status);
      PayloadOutcome(ChunkFooter(l, x.ft, x.status).0.rx, x.data, x.behind, x.ft, x.allocOk);
      if o == Done {
        PassOutcome(l', ins, i + 1);
      }
    }
  }
}
