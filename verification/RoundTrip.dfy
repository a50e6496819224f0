/** The two halves of the driver against each other: what the transmit side cuts, the receive side puts together. */
module RoundTrip {
  import opened Words
  import opened Wire
  import opened Transmit
  import opened Receive
  import opened Stream

  /** A frame without what the driver strips: eight bytes of timestamp and, when the frame spans chunks, the last four
      bytes. */
  function Stripped(raw: seq<byte>): seq<byte> {
    if |raw| > CHUNK_PAYLOAD_SIZE then StripBoth(raw) else if |raw| >= TIMESTAMP_SIZE then StripHead(raw) else []
  }

  /** A received frame whose chunks have room for what is stripped from them, and that then fits a buffer of `room`
      bytes. */
  predicate Receivable(room: nat, raw: seq<byte>) {
    && (if |raw| <= CHUNK_PAYLOAD_SIZE then |raw| >= TIMESTAMP_SIZE
        else (|raw| - 1) % CHUNK_PAYLOAD_SIZE >= FCS_SIZE - 1)
    && |Stripped(raw)| <= room
  }

  /** The chunks of a list of frames with their capture modes, each frame cut on its own. */
  function SegmentAll(frames: seq<(seq<byte>, byte)>): seq<TxChunk> {
    if frames == [] then []
    else FillTx(Loaded(frames[0].0, frames[0].1), ChunkCount(|frames[0].0|)).1 + SegmentAll(frames[1..])
  }

  function StrippedAll(frames: seq<(seq<byte>, byte)>): seq<seq<byte>> {
    if frames == [] then [] else [Stripped(frames[0].0)] + StrippedAll(frames[1..])
  }

  /** What lies in memory behind a chunk's payload. */
  type Behind = b: seq<byte> | |b| == MEMORY_BEHIND witness seq(MEMORY_BEHIND, _ => 0)

  /** A transmit chunk on the wire, handed to the receive side with its header read as a footer. */
  function AsSeen(w: seq<byte>, behind: Behind): (e: Event)
    requires |w| == CHUNK_SIZE
  {
    Seen(w[4..], behind, ParseFooter(FromBe32(w[..4])))
  }

  /** All chunks handed over, with whatever lies behind each in memory. */
  function AllSeen(ws: seq<seq<byte>>, behind: seq<Behind>): (es: seq<Event>)
    requires |behind| == |ws| && forall w <- ws :: |w| == CHUNK_SIZE
    ensures |es| == |ws|
  {
    seq(|ws|, k requires 0 <= k < |ws| => assert ws[k] in ws; AsSeen(ws[k], behind[k]))
  }

  /** The event shows the chunk's flags and bytes. */
  predicate Shows(e: Event, c: TxChunk) {
    && e.Seen? && ValidEvent(e) && |c.data| <= CHUNK_PAYLOAD_SIZE
    && e.ft.sv == c.sv && e.ft.swo == 0 && e.ft.ev == c.ev && e.ft.ebo == LowSix(c.ebo)
    && e.data[..|c.data|] == c.data
  }

  predicate ShowAll(es: seq<Event>, cs: seq<TxChunk>) {
    |es| == |cs| && forall k :: 0 <= k < |cs| ==> Shows(es[k], cs[k])
  }

  lemma RenderedShows(c: TxChunk, w: seq<byte>, behind: Behind)
    requires |c.data| <= CHUNK_PAYLOAD_SIZE && |w| == CHUNK_SIZE && w == Render(c, w[4 + |c.data|..])
    ensures Shows(AsSeen(w, behind), c)
  {
    hide Be32, FromBe32, DataHeader, LowSix;
    var h := HeaderOf(c);
    assert w[..4] == Be32(h);
    Be32RoundTrip(h);
    HeaderFlags(c);
    assert w[4..][..|c.data|] == c.data;
  }

  /** What the receive side holds while a frame is being fed to it. */
  predicate Partway(r: RxState, t: TxState)
    requires t.ongoing.Some? && Live(t)
  {
    && !r.overflow
    && (t.offset == 0 ==> r.skb.None?)
    && (t.offset > 0 ==> r.skb == Some(t.ongoing.value[TIMESTAMP_SIZE..t.offset]))
  }

  lemma LastChunk(t: TxState)
    requires t.ongoing.Some? && Live(t) && AddChunk(t).1.ev
    ensures LowSix(AddChunk(t).1.ebo) == |AddChunk(t).1.data| - 1
    ensures |AddChunk(t).1.data| == (|t.ongoing.value| - 1) % CHUNK_PAYLOAD_SIZE + 1
  {
    hide AddChunk, LowSix;
    AddChunkState(t);
    AddChunkRegular(t);
  }

  /** Feeding the chunks of `raw` to `r` ends in `after`: one frame more is delivered, which is the stripped `raw`
      exactly if that is receivable. */
  predicate Arrives(r: RxState, raw: seq<byte>, after: Option<RxState>) {
    match after
    case None => !Receivable(r.room, raw)
    case Some(r') =>
      var n := |r.delivered|;
      && r'.room == r.room && r'.skb.None? && !r'.overflow
      && |r'.delivered| == n + 1 && r'.delivered[..n] == r.delivered
      && (r'.delivered[n] == Stripped(raw) <==> Receivable(r.room, raw))
  }

  lemma FeedWhole(r: RxState, raw: seq<byte>, e: Event)
    requires 1 <= |raw| <= CHUNK_PAYLOAD_SIZE && r.skb.None? && !r.overflow
    requires e.Seen? && ValidEvent(e) && e.ft.sv && e.ft.ev && e.ft.swo == 0 && e.ft.ebo == |raw| - 1
    requires e.data[..|raw|] == raw
    ensures Arrives(r, raw, React(r, e))
  {
    if |raw| >= TIMESTAMP_SIZE {
      assert e.data[0..|raw|] == raw;
      HeadCopied(e.data, e.behind, 0, raw);
    }
  }

  lemma FeedLast(r: RxState, raw: seq<byte>, offset: nat, e: Event)
    requires CHUNK_PAYLOAD_SIZE <= offset < |raw| <= offset + CHUNK_PAYLOAD_SIZE && offset % CHUNK_PAYLOAD_SIZE == 0
    requires r.skb == Some(raw[TIMESTAMP_SIZE..offset]) && !r.overflow
    requires e.Seen? && ValidEvent(e) && !e.ft.sv && e.ft.ev && e.ft.ebo == |raw| - offset - 1
    requires e.data[..|raw| - offset] == raw[offset..]
    ensures Arrives(r, raw, React(r, e))
  {
    var n := |raw| - offset;
    assert (|raw| - 1) % CHUNK_PAYLOAD_SIZE == n - 1;
    if n >= FCS_SIZE {
      CopiedInside(e.data, e.behind, 0, n - FCS_SIZE);
      assert e.data[0..n - FCS_SIZE] == raw[offset..][..n - FCS_SIZE];
      assert raw[TIMESTAMP_SIZE..offset] + raw[offset..][..n - FCS_SIZE] == StripBoth(raw);
    }
  }

  /** A last chunk of one to three bytes has its length wrap: 253 to 255 bytes are copied, and the frame goes out 256
      bytes longer than stripped, unless that is too much for the buffer. */
  lemma ShortTailGrows(r: RxState, raw: seq<byte>, offset: nat, e: Event)
    requires CHUNK_PAYLOAD_SIZE <= offset < |raw| < offset + FCS_SIZE
    requires r.skb == Some(raw[TIMESTAMP_SIZE..offset]) && !r.overflow
    requires e.Seen? && ValidEvent(e) && !e.ft.sv && e.ft.ev && e.ft.ebo == |raw| - offset - 1
    ensures
      match React(r, e)
      case None => |Stripped(raw)| + 256 > r.room
      case Some(r') =>
        var n := |r.delivered|;
        |r'.delivered| == n + 1 && |r'.delivered[n]| == |Stripped(raw)| + 256 && |Stripped(raw)| + 256 <= r.room
  {
  }

  /** A full chunk that does not end its frame. */
  lemma FeedFull(r: RxState, raw: seq<byte>, offset: nat, e: Event)
    requires offset + CHUNK_PAYLOAD_SIZE <= |raw| && (offset == 0 || offset >= CHUNK_PAYLOAD_SIZE) && !r.overflow
    requires r.skb == if offset == 0 then None else Some(raw[TIMESTAMP_SIZE..offset])
    requires e.Seen? && ValidEvent(e) && e.ft.sv == (offset == 0) && !e.ft.ev && e.ft.swo == 0
    requires e.data == raw[offset..offset + CHUNK_PAYLOAD_SIZE]
    ensures
      match React(r, e)
      case None => offset + CHUNK_PAYLOAD_SIZE - TIMESTAMP_SIZE > r.room
      case Some(r') =>
        && r'.skb == Some(raw[TIMESTAMP_SIZE..offset + CHUNK_PAYLOAD_SIZE]) && !r'.overflow
        && r'.delivered == r.delivered && r'.room == r.room
  {
    if offset == 0 {
      HeadCopied(e.data, e.behind, 0, e.data);
      assert e.data[TIMESTAMP_SIZE..] == raw[TIMESTAMP_SIZE..CHUNK_PAYLOAD_SIZE];
    } else {
      assert raw[TIMESTAMP_SIZE..offset] + e.data == raw[TIMESTAMP_SIZE..offset + CHUNK_PAYLOAD_SIZE];
    }
  }

  /** A frame that goes on beyond what a buffer holds is not receivable. */
  lemma OutgrownIsNotReceivable(room: nat, raw: seq<byte>, offset: nat)
    requires offset % CHUNK_PAYLOAD_SIZE == 0 && offset + CHUNK_PAYLOAD_SIZE < |raw|
    requires offset + CHUNK_PAYLOAD_SIZE - TIMESTAMP_SIZE > room
    ensures !Receivable(room, raw)
  {
    var rest := |raw| - 1 - offset - CHUNK_PAYLOAD_SIZE;
    assert rest % CHUNK_PAYLOAD_SIZE == (|raw| - 1) % CHUNK_PAYLOAD_SIZE;
    assert rest >= rest % CHUNK_PAYLOAD_SIZE;
  }

  lemma FeedChunk(r: RxState, t: TxState, e: Event)
    requires t.ongoing.Some? && Live(t) && Partway(r, t)
    requires Shows(e, AddChunk(t).1)
    ensures
      var (t', c) := AddChunk(t);
      var raw := t.ongoing.value;
      if c.ev then Arrives(r, raw, React(r, e))
      else
        match React(r, e)
        case None => !Receivable(r.room, raw)
        case Some(r') =>
          t'.ongoing == t.ongoing && Live(t') && Partway(r', t') && r'.delivered == r.delivered && r'.room == r.room
  {
    hide AddChunk, ChunkPayload, Stripped, Receivable, Arrives;
    AddChunkState(t);
    var (t', c) := AddChunk(t);
    var raw := t.ongoing.value;
    if c.ev {
      LastChunk(t);
      assert c.data == raw[t.offset..] && |c.data| == |raw| - t.offset;
      if c.sv {
        assert c.data == raw;
        FeedWhole(r, raw, e);
      } else {
        FeedLast(r, raw, t.offset, e);
      }
    } else {
      assert e.data[..CHUNK_PAYLOAD_SIZE] == e.data;
      FeedFull(r, raw, t.offset, e);
      if React(r, e).None? {
        OutgrownIsNotReceivable(r.room, raw, t.offset);
      }
    }
  }

  lemma ValidFromShow(es: seq<Event>, cs: seq<TxChunk>)
    requires ShowAll(es, cs)
    ensures forall e <- es :: ValidEvent(e)
  {
  }

  lemma FillTxStep(t: TxState) returns (rest: seq<TxChunk>)
    requires t.ongoing.Some? && t.waiting.None? && Live(t)
    ensures var (t', c) := AddChunk(t);
      rest == FillTx(t', Remaining(t')).1 && FillTx(t, Remaining(t)).1 == [c] + rest && (c.ev ==> rest == [])
  {
    hide AddChunk, Remaining;
    AddChunkState(t);
    AddChunkRemaining(t);
    var t' := AddChunk(t).0;
    rest := FillTx(t', Remaining(t')).1;
  }

  lemma DriveStep(r: RxState, es: seq<Event>)
    requires es != [] && forall e <- es :: ValidEvent(e)
    ensures Drive(r, es) == (match React(r, es[0]) case None => None case Some(r') => Drive(r', es[1..]))
    ensures |es| == 1 ==> Drive(r, es) == React(r, es[0])
  {
  }

  lemma {:induction false} FeedFrame(r: RxState, t: TxState, es: seq<Event>)
    requires t.ongoing.Some? && t.waiting.None? && Live(t) && Partway(r, t)
    requires ShowAll(es, FillTx(t, Remaining(t)).1)
    ensures forall e <- es :: ValidEvent(e)
    ensures Arrives(r, t.ongoing.value, Drive(r, es))
    decreases Remaining(t)
  {
    hide React, AddChunk, Receivable, Stripped;
    ValidFromShow(es, FillTx(t, Remaining(t)).1);
    AddChunkRemaining(t);
    AddChunkState(t);
    var rest := FillTxStep(t);
    var (t', c) := AddChunk(t);
    FeedChunk(r, t, es[0]);
    DriveStep(r, es);
    if c.ev {
      assert |es| == 1;
    } else if React(r, es[0]).Some? {
      assert forall k :: 0 <= k < |rest| ==> Shows(es[1..][k], rest[k]) by {
        forall k | 0 <= k < |rest| ensures Shows(es[1..][k], rest[k]) {
          assert ([c] + rest)[k + 1] == rest[k];
        }
      }
      FeedFrame(React(r, es[0]).value, t', es[1..]);
    }
  }

  lemma ShowSplit(es: seq<Event>, a: seq<TxChunk>, b: seq<TxChunk>)
    requires ShowAll(es, a + b)
    ensures ShowAll(es[..|a|], a) && ShowAll(es[|a|..], b)
  {
    forall k | 0 <= k < |a| ensures Shows(es[k], a[k]) {
      assert (a + b)[k] == a[k];
    }
    forall k | 0 <= k < |b| ensures Shows(es[|a| + k], b[k]) {
      assert (a + b)[|a| + k] == b[k];
    }
  }

  predicate AllReceivable(room: nat, frames: seq<(seq<byte>, byte)>) {
    forall f <- frames :: Receivable(room, f.0)
  }

  predicate AllValidLength(frames: seq<(seq<byte>, byte)>) {
    forall f <- frames :: ValidLength(f.0)
  }

  lemma ReceivableSplit(room: nat, frames: seq<(seq<byte>, byte)>)
    requires frames != []
    ensures AllReceivable(room, frames) <==> Receivable(room, frames[0].0) && AllReceivable(room, frames[1..])
    ensures AllValidLength(frames) <==> ValidLength(frames[0].0) && AllValidLength(frames[1..])
  {
    assert frames == [frames[0]] + frames[1..];
    assert frames[0] in frames;
  }

  lemma LoadedRemaining(f: seq<byte>, mode: byte)
    requires ValidLength(f)
    ensures InBounds(Loaded(f, mode)) && Remaining(Loaded(f, mode)) == ChunkCount(|f|)
  {
  }

  /** The receive side gets through, and what it then has delivered goes on with exactly the stripped frames. */
  predicate DeliversStripped(r: RxState, frames: seq<(seq<byte>, byte)>, after: Option<RxState>) {
    after.Some? && after.value.delivered == r.delivered + StrippedAll(frames)
  }

  /** What feeding the chunks of `frames` to a receive side with no frame open amounts to. */
  predicate FedAs(r: RxState, frames: seq<(seq<byte>, byte)>, after: Option<RxState>) {
    && (DeliversStripped(r, frames, after) <==> AllReceivable(r.room, frames))
    && (after.Some? ==> r.delivered <= after.value.delivered)
  }

  /** From one frame and the rest to all. */
  lemma FedJoins(r: RxState, frames: seq<(seq<byte>, byte)>, r1: Option<RxState>, after: Option<RxState>)
    requires frames != []
    requires Arrives(r, frames[0].0, r1)
    requires r1.None? ==> after.None?
    requires r1.Some? ==> FedAs(r1.value, frames[1..], after)
    ensures FedAs(r, frames, after)
  {
    hide Receivable, Stripped;
    ReceivableSplit(r.room, frames);
    if after.Some? {
      var n := |r.delivered|;
      var x, rest := Stripped(frames[0].0), StrippedAll(frames[1..]);
      var d1, d := r1.value.delivered, after.value.delivered;
      assert d1 == r.delivered + [d1[n]];
      assert d[..n + 1] == d1;
      assert r.delivered + ([x] + rest) == r.delivered + [x] + rest;
      assert (r.delivered + [x] + rest)[n] == x;
      assert d[n] == d1[n];
    }
  }

  lemma LoadedIsLive(r: RxState, f: seq<byte>, mode: byte)
    requires ValidLength(f) && r.skb.None? && !r.overflow
    ensures Live(Loaded(f, mode)) && Partway(r, Loaded(f, mode))
  {
  }

  lemma ShowLength(es: seq<Event>, cs: seq<TxChunk>)
    requires ShowAll(es, cs)
    ensures |es| == |cs|
  {
  }

  /** The events of the first frame, and what feeding them does. */
  lemma FeedFirst(r: RxState, frames: seq<(seq<byte>, byte)>, es: seq<Event>) returns (n: nat)
    requires r.skb.None? && !r.overflow
    requires frames != [] && ValidLength(frames[0].0)
    requires ShowAll(es, SegmentAll(frames))
    requires forall e <- es :: ValidEvent(e)
    ensures n <= |es| && ShowAll(es[n..], SegmentAll(frames[1..]))
    ensures Arrives(r, frames[0].0, Drive(r, es[..n]))
  {
    hide React, Shows, FillTx, Stripped, Receivable, Remaining, ValidEvent, ShowAll, Drive, ValidLength, Arrives;
    var f, mode := frames[0].0, frames[0].1;
    var t := Loaded(f, mode);
    LoadedRemaining(f, mode);
    LoadedIsLive(r, f, mode);
    var a, b := FillTx(t, Remaining(t)).1, SegmentAll(frames[1..]);
    ShowLength(es, a + b);
    ShowSplit(es, a, b);
    n := |a|;
    FeedFrame(r, t, es[..n]);
  }

  lemma CutEvents(es: seq<Event>, n: nat)
    requires n <= |es| && forall e <- es :: ValidEvent(e)
    ensures es == es[..n] + es[n..]
    ensures forall e <- es[..n] :: ValidEvent(e)
    ensures forall e <- es[n..] :: ValidEvent(e)
  {
    hide ValidEvent;
  }

  lemma ArrivedIsIdle(r: RxState, raw: seq<byte>, r1: RxState)
    requires Arrives(r, raw, Some(r1))
    ensures r1.skb.None? && !r1.overflow
  {
    hide Receivable, Stripped;
  }

  lemma {:induction false} FeedAll(r: RxState, frames: seq<(seq<byte>, byte)>, es: seq<Event>)
    requires r.skb.None? && !r.overflow
    requires AllValidLength(frames)
    requires ShowAll(es, SegmentAll(frames))
    requires forall e <- es :: ValidEvent(e)
    ensures FedAs(r, frames, Drive(r, es))
    decreases |frames|
  {
    if frames == [] {
      assert r.delivered + [] == r.delivered;
    } else {
      hide FedAs, ShowAll, AllValidLength, Drive, ValidLength, SegmentAll, ValidEvent, Arrives, Receivable;
      ReceivableSplit(r.room, frames);
      var n := FeedFirst(r, frames, es);
      CutEvents(es, n);
      DriveConcat(r, es[..n], es[n..]);
      if Drive(r, es[..n]).Some? {
        var r1 := Drive(r, es[..n]).value;
        ArrivedIsIdle(r, frames[0].0, r1);
        FeedAll(r1, frames[1..], es[n..]);
      }
      FedJoins(r, frames, Drive(r, es[..n]), Drive(r, es));
    }
  }

  /** Cutting any list of frames and feeding every chunk back, stale bytes and all, delivers exactly the stripped
      frames in order, if and only if every frame has room for what the driver strips and then fits a buffer;
      otherwise the receive side faults, or delivers something else. */
  lemma {:induction false} RoundTripIff(room: nat, frames: seq<(seq<byte>, byte)>, ws: seq<seq<byte>>,
                                        behind: seq<Behind>)
    requires AllValidLength(frames)
    requires Rendering(SegmentAll(frames), ws)
    requires |behind| == |ws|
    ensures forall w <- ws :: |w| == CHUNK_SIZE
    ensures forall e <- AllSeen(ws, behind) :: ValidEvent(e)
    ensures
      var after := Drive(EmptyRx(room), AllSeen(ws, behind));
      (after.Some? && after.value.delivered == StrippedAll(frames)) <==> AllReceivable(room, frames)
  {
    var cs := SegmentAll(frames);
    forall k | 0 <= k < |cs| ensures Shows(AsSeen(ws[k], behind[k]), cs[k]) {
      RenderedShows(cs[k], ws[k], behind[k]);
    }
    ValidFromShow(AllSeen(ws, behind), cs);
    FeedAll(EmptyRx(room), frames, AllSeen(ws, behind));
    assert [] + StrippedAll(frames) == StrippedAll(frames);
  }
}
