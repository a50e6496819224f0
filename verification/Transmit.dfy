/** The transmit side: frames cut into chunks, resumable wherever the credits run out. */
module Transmit {
  import opened Words
  import opened Wire

  /** The transmit fields of struct oa_tc6 and the transmit counters of the network device. */
  datatype TxState = TxState(
    ongoing: Option<seq<byte>>, offset: nat, ongoingMode: byte,
    waiting: Option<seq<byte>>, waitingMode: byte,
    packets: nat, bytes: nat, dropped: nat)

  const EMPTY_TX := TxState(None, 0, 0, None, 0, 0, 0, 0)

  /** The values of a u16. */
  const U16: nat := 65536

  /** Frame lengths whose offsets fit the u16 field tx_skb_offset. */
  predicate ValidLength(f: seq<byte>) {
    1 <= |f| <= 65535
  }

  /** Every read of the ongoing frame stays inside it. */
  predicate InBounds(t: TxState) {
    match t.ongoing
    case None => t.offset == 0
    case Some(f) => t.offset <= |f| && t.offset < U16
  }

  /** oa_tc6.c:1066-1075: an idle transmitter takes the waiting frame and its capture mode, under the lock. */
  function TakeWaiting(t: TxState): TxState {
    if t.ongoing.None? then
      t.(ongoing := t.waiting, waiting := None, ongoingMode := t.waitingMode, waitingMode := 0)
    else
      t
  }

  function Min(a: nat, b: nat): nat {
    if a < b then a else b
  }

  /** How many bytes the next chunk copies; remaining_len is a u16. */
  function CopyLength(t: TxState): (n: nat)
    requires t.ongoing.Some? && InBounds(t)
    ensures n <= CHUNK_PAYLOAD_SIZE && t.offset + n <= |t.ongoing.value|
  {
    Min((|t.ongoing.value| - t.offset) % U16, CHUNK_PAYLOAD_SIZE)
  }

  /** The conversion of an int to u8. */
  function ToU8(n: int): byte {
    (n % 256) as byte
  }

  /** oa_tc6_add_tx_skb_to_spi_buf: the next chunk of the ongoing frame and the state after it. */
  function AddChunk(t: TxState): (r: (TxState, TxChunk))
    requires t.ongoing.Some? && InBounds(t)
    ensures InBounds(r.0)
  {
    var f := t.ongoing.value;
    var n := CopyLength(t);
    var offset := (t.offset + n) % U16;
    var data := f[t.offset..t.offset + n];
    if |f| == offset then
      (t.(ongoing := None, offset := 0, ongoingMode := 0, packets := t.packets + 1, bytes := t.bytes + |f|),
       TxChunk(true, t.offset == 0, true, ToU8(n - 1), t.ongoingMode, data))
    else
      (t.(offset := offset), TxChunk(true, t.offset == 0, false, 0, 0, data))
  }

  /** oa_tc6_prepare_spi_tx_buf_for_tx_skbs with no interleaved step: the chunks that `credits` buy. */
  function FillTx(t: TxState, credits: nat): (r: (TxState, seq<TxChunk>))
    requires InBounds(t)
    ensures InBounds(r.0) && |r.1| <= credits
    decreases credits
  {
    if credits == 0 then
      (t, [])
    else
      var taken := TakeWaiting(t);
      if taken.ongoing.None? then
        (taken, [])
      else
        var (t', c) := AddChunk(taken);
        var (t'', cs) := FillTx(t', credits - 1);
        (t'', [c] + cs)
  }

  // ------------------------------------------------------------ what a chunk does to the MAC-PHY

  /** Frames in both slots have a legal length and the offset stands before the end, on a chunk boundary. */
  predicate Live(t: TxState) {
    && (t.ongoing.None? ==> t.offset == 0)
    && (t.ongoing.Some? ==> ValidLength(t.ongoing.value) && t.offset < |t.ongoing.value|
                            && t.offset % CHUNK_PAYLOAD_SIZE == 0)
    && (t.waiting.Some? ==> ValidLength(t.waiting.value))
  }

  /** The part of the ongoing frame already cut into chunks. */
  function Progress(t: TxState): Option<seq<byte>>
    requires InBounds(t)
  {
    if t.ongoing.Some? && t.offset > 0 then Some(t.ongoing.value[..t.offset]) else None
  }

  /** The number of chunks a frame of `len` bytes takes. */
  function ChunkCount(len: nat): nat {
    (len + 63) / 64
  }

  /** Chunks still to be cut from the two slots. */
  function Remaining(t: TxState): nat
    requires InBounds(t)
  {
    (if t.ongoing.Some? then ChunkCount(|t.ongoing.value| - t.offset) else 0)
    + (if t.waiting.Some? then ChunkCount(|t.waiting.value|) else 0)
  }

  /** The fields respect each other: no end data without an end, no start or end without data. */
  predicate Regular(c: TxChunk) {
    && Fits(c)
    && (!c.ev ==> c.ebo == 0 && c.tsc == 0)
    && (!c.dv ==> !c.sv && !c.ev)
  }

  lemma EndOffset(n: nat)
    requires 1 <= n <= 64
    ensures LowSix(ToU8(n - 1)) == n - 1
  {
    LowSixOf(n - 1);
  }

  lemma ZeroFields()
    ensures LowSix(0) == 0 && Tag(0) == 0
  {
  }

  /** A regular chunk has a header that meets the wire format, bit for bit. */
  lemma RegularIsWellFormed(c: TxChunk)
    requires Regular(c)
    ensures WellFormedHeader(HeaderOf(c))
  {
    DataHeaderFields(c.dv, c.sv, c.ev, c.ebo, c.tsc);
    DataHeaderOdd(c.dv, c.sv, c.ev, c.ebo, c.tsc);
    ZeroFields();
  }

  /** Where the next cut of a live frame falls. */
  lemma NextCut(t: TxState)
    requires Live(t) && t.ongoing.Some?
    ensures
      var f, n := t.ongoing.value, CopyLength(t);
      && 1 <= n && (t.offset + n) % U16 == t.offset + n
      && (|f| == t.offset + n) == (|f| <= t.offset + CHUNK_PAYLOAD_SIZE)
      && (|f| != t.offset + n ==> n == CHUNK_PAYLOAD_SIZE && t.offset + n < |f|)
  {
  }

  lemma CopyInNumbers(t: TxState)
    requires t.ongoing.Some? && t.offset < |t.ongoing.value| <= 65535
    ensures InBounds(t)
    ensures
      var left := |t.ongoing.value| - t.offset;
      CopyLength(t) == (if left < 64 then left else 64) && (t.offset + CopyLength(t)) % U16 == t.offset + CopyLength(t)
  {
  }

  lemma ToU8Of(n: nat)
    requires n < 64
    ensures ToU8(n) as int == n
  {
  }

  /** One chunk in numbers: up to 64 bytes more of the frame, or its end. */
  lemma AddChunkAdvances(t: TxState)
    requires t.ongoing.Some? && t.offset < |t.ongoing.value| <= 65535
    ensures InBounds(t)
    ensures
      var (t', c) := AddChunk(t);
      var f := t.ongoing.value;
      var n := if |f| - t.offset < 64 then |f| - t.offset else 64;
      && c.dv && (c.sv <==> t.offset == 0) && c.data == f[t.offset..t.offset + n]
      && (c.ev <==> t.offset + n == |f|) && (c.ev ==> c.ebo as int == n - 1 && c.tsc == t.ongoingMode)
      && (!c.ev ==> c.ebo == 0 && c.tsc == 0)
      && t'.ongoing == (if c.ev then None else t.ongoing) && t'.offset == (if c.ev then 0 else t.offset + n)
      && t'.ongoingMode == (if c.ev then 0 else t.ongoingMode)
      && t'.packets == t.packets + (if c.ev then 1 else 0) && t'.bytes == t.bytes + (if c.ev then |f| else 0)
      && t'.waiting == t.waiting && t'.waitingMode == t.waitingMode && t'.dropped == t.dropped
  {
    hide CopyLength, ToU8;
    CopyInNumbers(t);
    ToU8Of(CopyLength(t) - 1);
  }

  lemma AddChunkState(t: TxState)
    requires Live(t) && t.ongoing.Some?
    ensures
      var (t', c) := AddChunk(t);
      var f := t.ongoing.value;
      && Live(t') && c.dv && c.sv == (t.offset == 0)
      && c.ev == (|f| <= t.offset + CHUNK_PAYLOAD_SIZE)
      && t' == (if c.ev then t.(ongoing := None, offset := 0, ongoingMode := 0,
                                packets := t.packets + 1, bytes := t.bytes + |f|)
                else t.(offset := t.offset + CHUNK_PAYLOAD_SIZE))
      && c.data == f[t.offset..if c.ev then |f| else t.offset + CHUNK_PAYLOAD_SIZE]
  {
    NextCut(t);
  }

  lemma AddChunkRemaining(t: TxState)
    requires Live(t) && t.ongoing.Some?
    ensures Remaining(AddChunk(t).0) + 1 == Remaining(t)
  {
    AddChunkState(t);
    var left := |t.ongoing.value| - t.offset;
    assert ChunkCount(left) == if left <= 64 then 1 else ChunkCount(left - 64) + 1;
  }

  lemma AddChunkRegular(t: TxState)
    requires Live(t) && t.ongoing.Some?
    ensures Regular(AddChunk(t).1)
    ensures AddChunk(t).1.ev ==> AddChunk(t).1.tsc == t.ongoingMode
  {
    NextCut(t);
    if AddChunk(t).1.ev {
      EndOffset(CopyLength(t));
    } else {
      ZeroFields();
    }
  }

  /** One chunk of a live frame: the MAC-PHY's partial frame follows the driver's offset, and the frame is
      delivered with its own tag exactly when the driver lets go of it. */
  lemma AddChunkRefines(d: MacPhy, t: TxState)
    requires Live(t) && t.ongoing.Some? && d.partial == Progress(t)
    ensures
      var (t', c) := AddChunk(t);
      AcceptChunk(d, c) == MacPhy(if c.ev then d.frames + [Tagged(t.ongoing.value, Tag(t.ongoingMode))] else d.frames,
                                  Progress(t'), d.paired)
  {
    AddChunkState(t);
    AddChunkRegular(t);
    var (t', c) := AddChunk(t);
    var f := t.ongoing.value;
    var upTo := if c.ev then |f| else t.offset + CHUNK_PAYLOAD_SIZE;
    assert OrEmpty(d.partial) == f[..t.offset];
    assert f[..t.offset] + c.data == f[..upTo];
    assert c.sv ==> c.data == f[..upTo];
    assert c.ev ==> f[..upTo] == f;
  }

  lemma TakeKeeps(t: TxState)
    requires Live(t)
    ensures Live(TakeWaiting(t)) && Progress(TakeWaiting(t)) == Progress(t)
    ensures Remaining(TakeWaiting(t)) == Remaining(t)
    ensures TakeWaiting(t).ongoing.None? ==> Remaining(t) == 0
  {
  }

  /** A round's data chunks: exactly as many as credits and pending frames allow. */
  lemma {:induction false} FillTxCounts(t: TxState, credits: nat)
    requires Live(t)
    ensures Live(FillTx(t, credits).0)
    ensures |FillTx(t, credits).1| == Min(credits, Remaining(t))
    ensures Remaining(FillTx(t, credits).0) == Remaining(t) - |FillTx(t, credits).1|
    ensures forall c <- FillTx(t, credits).1 :: c.dv && Regular(c)
    decreases credits
  {
    hide AddChunk, Remaining, Regular;
    TakeKeeps(t);
    var taken := TakeWaiting(t);
    if credits > 0 && taken.ongoing.Some? {
      AddChunkState(taken);
      AddChunkRemaining(taken);
      AddChunkRegular(taken);
      FillTxCounts(AddChunk(taken).0, credits - 1);
    }
  }

  /** The frames in the two slots, with the tags they will carry. */
  function Queued(t: TxState): seq<Tagged> {
    (if t.ongoing.Some? then [Tagged(t.ongoing.value, Tag(t.ongoingMode))] else [])
    + (if t.waiting.Some? then [Tagged(t.waiting.value, Tag(t.waitingMode))] else [])
  }

  /** A MAC-PHY whose partial frame is what the driver has cut of its ongoing one. */
  predicate Attuned(d: MacPhy, t: TxState) {
    InBounds(t) && d.partial == Progress(t)
  }

  /** One chunk moves at most the ongoing frame to the MAC-PHY, and counts it. */
  lemma AddChunkMoves(d: MacPhy, t: TxState)
    requires Live(t) && Attuned(d, t) && t.ongoing.Some?
    ensures
      var (t', c) := AddChunk(t);
      var d' := AcceptChunk(d, c);
      && Live(t') && Attuned(d', t') && d'.paired == d.paired
      && d'.frames + Queued(t') == d.frames + Queued(t)
      && t'.packets - t.packets == |d'.frames| - |d.frames| && t'.dropped == t.dropped
  {
    hide AddChunk, AcceptChunk;
    AddChunkState(t);
    AddChunkRefines(d, t);
  }

  lemma AcceptFirst(d: MacPhy, c: TxChunk, rest: seq<TxChunk>)
    ensures AcceptChunks(d, [c] + rest) == AcceptChunks(AcceptChunk(d, c), rest)
  {
    AcceptConcat(d, [c], rest);
    assert [c][..0] == [];
    assert AcceptChunks(d, [c]) == AcceptChunk(AcceptChunks(d, []), c);
  }

  /** A round's data chunks move frames from the slots to the MAC-PHY, in order, none lost and none added, and each is
      counted. */
  lemma {:induction false} FillTxRefines(d: MacPhy, t: TxState, credits: nat)
    requires Live(t) && Attuned(d, t)
    ensures
      var (t', cs) := FillTx(t, credits);
      var d' := AcceptChunks(d, cs);
      Attuned(d', t') && d'.frames + Queued(t') == d.frames + Queued(t) && d'.paired == d.paired
      && t'.packets - t.packets == |d'.frames| - |d.frames| && t'.dropped == t.dropped
    decreases credits
  {
    hide AddChunk, AcceptChunk;
    TakeKeeps(t);
    var taken := TakeWaiting(t);
    assert Queued(taken) == Queued(t);
    if credits > 0 && taken.ongoing.Some? {
      hide Queued, Live, Progress;
      AddChunkMoves(d, taken);
      var (t1, c) := AddChunk(taken);
      FillTxRefines(AcceptChunk(d, c), t1, credits - 1);
      AcceptFirst(d, c, FillTx(t1, credits - 1).1);
    }
  }

  // ------------------------------------------------------------ which frames the u16 offset can carry

  function Loaded(f: seq<byte>, mode: byte): TxState {
    EMPTY_TX.(ongoing := Some(f), ongoingMode := mode)
  }

  /** Some number of chunks hands exactly `f`, with its tag, to the MAC-PHY, whatever the stale bytes. */
  ghost predicate Carried(f: seq<byte>, mode: byte) {
    exists k: nat ::
      forall ws | Rendering(FillTx(Loaded(f, mode), k).1, ws) ::
        AcceptAll(FRESH_MACPHY, ws) == MacPhy([Tagged(f, Tag(mode))], None, true)
  }

  lemma {:induction false} SegmentsCarry(d: MacPhy, t: TxState)
    requires Live(t) && t.ongoing.Some? && t.waiting.None? && d.partial == Progress(t)
    ensures
      var cs := FillTx(t, Remaining(t)).1;
      AcceptChunks(d, cs) == MacPhy(d.frames + [Tagged(t.ongoing.value, Tag(t.ongoingMode))], None, d.paired)
    decreases Remaining(t)
  {
    hide AddChunk, Remaining, Take;
    AddChunkRefines(d, t);
    AddChunkState(t);
    AddChunkRemaining(t);
    AddChunkRegular(t);
    var (t', c) := AddChunk(t);
    var rest := FillTx(t', Remaining(t')).1;
    AcceptConcat(d, [c], rest);
    assert AcceptChunks(d, [c]) == AcceptChunk(AcceptChunks(d, [c][..0]), c);
    if c.ev {
      assert rest == [];
    } else {
      SegmentsCarry(AcceptChunk(d, c), t');
    }
  }

  lemma {:induction false} OversizeNeverEnds(t: TxState, k: nat)
    requires t.ongoing.Some? && InBounds(t) && |t.ongoing.value| >= U16
    ensures FillTx(t, k).0.ongoing == t.ongoing
    ensures forall c <- FillTx(t, k).1 :: !c.ev
    decreases k
  {
    if k > 0 {
      OversizeNeverEnds(AddChunk(t).0, k - 1);
    }
  }

  lemma {:induction false} NoEndNoFrame(d: MacPhy, cs: seq<TxChunk>, ws: seq<seq<byte>>)
    requires Rendering(cs, ws)
    requires forall c <- cs :: !c.ev
    ensures AcceptAll(d, ws).frames == d.frames
  {
    hide Be32, FromBe32, DataHeader, DataValid, StartValid, EndValid, StartWordOffset, EndByteOffset, TimestampCapture;
    if cs != [] {
      var n := |cs| - 1;
      NoEndNoFrame(d, cs[..n], ws[..n]);
      var c := cs[n];
      assert ws[n][..4] == Be32(HeaderOf(c));
      Be32RoundTrip(HeaderOf(c));
      HeaderFlags(c);
    }
  }

  function Zeros(n: nat): (s: seq<byte>)
    ensures |s| == n
  {
    seq(n, _ => 0)
  }

  function RenderZeros(cs: seq<TxChunk>): (ws: seq<seq<byte>>)
    requires forall c <- cs :: |c.data| <= CHUNK_PAYLOAD_SIZE
    ensures |ws| == |cs|
  {
    seq(|cs|, k requires 0 <= k < |cs| => Render(cs[k], Zeros(64 - |cs[k].data|)))
  }

  lemma RenderZerosIsRendering(cs: seq<TxChunk>)
    requires forall c <- cs :: |c.data| <= CHUNK_PAYLOAD_SIZE
    ensures Rendering(cs, RenderZeros(cs))
  {
    var ws := RenderZeros(cs);
    forall k | 0 <= k < |cs|
      ensures ws[k] == Render(cs[k], ws[k][4 + |cs[k].data|..])
    {
      assert ws[k][4 + |cs[k].data|..] == Zeros(64 - |cs[k].data|);
    }
  }

  lemma {:induction false} ChunkDataFits(t: TxState, k: nat)
    requires InBounds(t)
    ensures forall c <- FillTx(t, k).1 :: |c.data| <= CHUNK_PAYLOAD_SIZE
    decreases k
  {
    if k > 0 && TakeWaiting(t).ongoing.Some? && InBounds(TakeWaiting(t)) {
      ChunkDataFits(AddChunk(TakeWaiting(t)).0, k - 1);
    }
  }

  lemma {:induction false} OnlyOneFrame(f: seq<byte>, mode: byte, k: nat)
    requires f == []
    ensures k > 0 ==> FillTx(Loaded(f, mode), k).1 == [TxChunk(true, true, true, ToU8(-1), mode, [])]
    ensures k == 0 ==> FillTx(Loaded(f, mode), k).1 == []
  {
    if k > 0 {
      var (t', c) := AddChunk(Loaded(f, mode));
      assert TakeWaiting(t').ongoing.None?;
    }
  }

  lemma WrappedEndOffset()
    ensures LowSix(ToU8(-1)) == 63
  {
    assert ToU8(-1) == 0xFF;
  }

  lemma CarriedWithinU16(f: seq<byte>, mode: byte)
    requires ValidLength(f)
    ensures Carried(f, mode)
  {
    var t := Loaded(f, mode);
    var k := Remaining(t);
    var cs := FillTx(t, k).1;
    FillTxCounts(t, k);
    SegmentsCarry(FRESH_MACPHY, t);
    forall ws | Rendering(cs, ws)
      ensures AcceptAll(FRESH_MACPHY, ws) == MacPhy([Tagged(f, Tag(mode))], None, true)
    {
      RenderedChunks(FRESH_MACPHY, cs, ws);
    }
  }

  lemma EmptyFrameNotCarried(f: seq<byte>, mode: byte, k: nat, ws: seq<seq<byte>>)
    requires f == [] && Rendering(FillTx(Loaded(f, mode), k).1, ws)
    ensures AcceptAll(FRESH_MACPHY, ws) != MacPhy([Tagged(f, Tag(mode))], None, true)
  {
    hide Be32, FromBe32, DataHeader, ToU8, DataValid, StartValid, EndValid, StartWordOffset, EndByteOffset,
         TimestampCapture;
    OnlyOneFrame(f, mode, k);
    if k > 0 {
      var c := TxChunk(true, true, true, ToU8(-1), mode, []);
      assert ws[..0] == [];
      assert AcceptAll(FRESH_MACPHY, ws) == Accept(AcceptAll(FRESH_MACPHY, ws[..0]), ws[0]);
      WrappedEndOffset();
      assert ws[0][..4] == Be32(HeaderOf(c));
      Be32RoundTrip(HeaderOf(c));
      HeaderFlags(c);
      var d := Accept(FRESH_MACPHY, ws[0]);
      assert d.frames == [Tagged(ws[0][4..][0..64], Tag(mode))];
      assert |d.frames[0].data| == 64;
    }
  }

  /** A frame reaches the MAC-PHY exactly when its length fits the u16 offset and is not zero: an empty frame is
      announced as 64 stale bytes, and a longer one never meets its end. */
  lemma CarriedIff(f: seq<byte>, mode: byte)
    ensures Carried(f, mode) <==> 1 <= |f| <= 65535
  {
    if ValidLength(f) {
      CarriedWithinU16(f, mode);
    } else if Carried(f, mode) {
      var k: nat :| forall ws | Rendering(FillTx(Loaded(f, mode), k).1, ws) ::
        AcceptAll(FRESH_MACPHY, ws) == MacPhy([Tagged(f, Tag(mode))], None, true);
      var cs := FillTx(Loaded(f, mode), k).1;
      ChunkDataFits(Loaded(f, mode), k);
      RenderZerosIsRendering(cs);
      var ws := RenderZeros(cs);
      if f == [] {
        EmptyFrameNotCarried(f, mode, k, ws);
      } else {
        OversizeNeverEnds(Loaded(f, mode), k);
        NoEndNoFrame(FRESH_MACPHY, cs, ws);
      }
    }
  }
}
