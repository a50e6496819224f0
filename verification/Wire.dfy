/** Headers and footers of the serial interface, bit by bit, and 68-byte chunks on the wire. */
module Wire {
  import opened Words

  const CHUNK_PAYLOAD_SIZE: nat := 64
  const CHUNK_SIZE: nat := 68
  const MAX_TX_CHUNKS: nat := 48
  const SPI_DATA_BUF_SIZE: nat := 3264

  /** The bits a transmit data header never sets: SEQ, NORX, reserved, vendor, SWO. */
  const RESERVED_BITS: bv32 := 0x7FCF803E

  function BitIf(b: bool, mask: bv32): bv32 {
    if b then mask else 0
  }

  function DataHeaderBase(dv: bool, sv: bool, ev: bool, ebo: byte, tsc: byte): bv32 {
    0x80000000 | BitIf(dv, 0x200000) | BitIf(sv, 0x100000) | BitIf(ev, 0x4000)
    | (((ebo as bv32) << 8) & 0x3F00) | (((tsc as bv32) << 6) & 0xC0)
  }

  /** oa_tc6_prepare_data_header, before the conversion to big-endian bytes. */
  function DataHeader(dv: bool, sv: bool, ev: bool, ebo: byte, tsc: byte): bv32 {
    var h := DataHeaderBase(dv, sv, ev, ebo, tsc);
    h | Parity(h)
  }

  // FIELD_GET of the fields shared by headers and footers.
  predicate DataValid(h: bv32) { h & 0x200000 != 0 }
  predicate StartValid(h: bv32) { h & 0x100000 != 0 }
  predicate EndValid(h: bv32) { h & 0x4000 != 0 }
  function StartWordOffset(h: bv32): (n: nat) ensures n < 16 { ((h >> 16) & 0xF) as bv4 as int }
  function EndByteOffset(h: bv32): (n: nat) ensures n < 64 { ((h >> 8) & 0x3F) as bv6 as int }

  // Fields of a header or of a footer alone.
  predicate DataNotCtrl(h: bv32) { h & 0x80000000 != 0 }
  function TimestampCapture(h: bv32): (n: nat) ensures n < 4 { ((h >> 6) & 0x3) as bv2 as int }
  predicate ExtendedStatus(h: bv32) { h & 0x80000000 != 0 }
  predicate HeaderBad(h: bv32) { h & 0x40000000 != 0 }
  predicate ConfigSync(h: bv32) { h & 0x20000000 != 0 }
  function RxChunksField(h: bv32): (n: nat) ensures n < 32 { ((h >> 24) & 0x1F) as bv5 as int }
  function TxCreditsField(h: bv32): (n: nat) ensures n < 32 { ((h >> 1) & 0x1F) as bv5 as int }

  /** What a MAC-PHY reads in a data header. */
  datatype Header = Header(dnc: bool, dv: bool, sv: bool, swo: nat, ev: bool, ebo: nat, tsc: nat)

  function ParseHeader(h: bv32): Header {
    Header(DataNotCtrl(h), DataValid(h), StartValid(h), StartWordOffset(h), EndValid(h), EndByteOffset(h),
           TimestampCapture(h))
  }

  /** What the driver reads in a receive data footer. */
  datatype Footer = Footer(exst: bool, hdrb: bool, sync: bool, rca: nat, dv: bool, sv: bool, swo: nat,
                           ev: bool, ebo: nat, txc: nat)

  function ParseFooter(h: bv32): Footer {
    Footer(ExtendedStatus(h), HeaderBad(h), ConfigSync(h), RxChunksField(h), DataValid(h), StartValid(h),
           StartWordOffset(h), EndValid(h), EndByteOffset(h), TxCreditsField(h))
  }

  // Where the fields of a footer lie in its four bytes on the wire, one at a time.

  lemma FooterByte0(b: seq<byte>)
    requires |b| == 4
    ensures ExtendedStatus(FromBe32(b)) <==> b[0] & 0x80 == 0x80
    ensures HeaderBad(FromBe32(b)) <==> b[0] & 0x40 == 0x40
    ensures ConfigSync(FromBe32(b)) <==> b[0] & 0x20 == 0x20
  {
  }

  lemma FooterChunks(b: seq<byte>)
    requires |b| == 4
    ensures RxChunksField(FromBe32(b)) == (b[0] & 0x1F) as int
  {
  }

  lemma FooterByte1(b: seq<byte>)
    requires |b| == 4
    ensures DataValid(FromBe32(b)) <==> b[1] & 0x20 == 0x20
    ensures StartValid(FromBe32(b)) <==> b[1] & 0x10 == 0x10
  {
  }

  lemma FooterStart(b: seq<byte>)
    requires |b| == 4
    ensures StartWordOffset(FromBe32(b)) == (b[1] & 0x0F) as int
  {
  }

  lemma FooterByte2(b: seq<byte>)
    requires |b| == 4
    ensures EndValid(FromBe32(b)) <==> b[2] & 0x40 == 0x40
  {
  }

  lemma FooterEnd(b: seq<byte>)
    requires |b| == 4
    ensures EndByteOffset(FromBe32(b)) == (b[2] & 0x3F) as int
  {
  }

  lemma FooterCredits(b: seq<byte>)
    requires |b| == 4
    ensures TxCreditsField(FromBe32(b)) == ((b[3] >> 1) & 0x1F) as int
  {
  }

  /** The footer in its four bytes, the first on the wire first, as the interface specification lays it out. */
  predicate FooterBytes(ft: Footer, b: seq<byte>)
    requires |b| == 4
  {
    && (ft.exst <==> b[0] & 0x80 == 0x80) && (ft.hdrb <==> b[0] & 0x40 == 0x40) && (ft.sync <==> b[0] & 0x20 == 0x20)
    && ft.rca == (b[0] & 0x1F) as int
    && (ft.dv <==> b[1] & 0x20 == 0x20) && (ft.sv <==> b[1] & 0x10 == 0x10) && ft.swo == (b[1] & 0x0F) as int
    && (ft.ev <==> b[2] & 0x40 == 0x40) && ft.ebo == (b[2] & 0x3F) as int
    && ft.txc == ((b[3] >> 1) & 0x1F) as int
  }

  /** Every field of a footer is read from its place in the four bytes. */
  lemma FooterOnWire(b: seq<byte>)
    requires |b| == 4
    ensures FooterBytes(ParseFooter(FromBe32(b)), b)
  {
    hide FromBe32, ExtendedStatus, HeaderBad, ConfigSync, RxChunksField, DataValid, StartValid, StartWordOffset,
         EndValid, EndByteOffset, TxCreditsField;
    FooterByte0(b);
    FooterChunks(b);
    FooterByte1(b);
    FooterStart(b);
    FooterByte2(b);
    FooterEnd(b);
    FooterCredits(b);
  }

  /** A header as section 7 of the interface specification asks for it. */
  ghost predicate WellFormedHeader(h: bv32) {
    var r := ParseHeader(h);
    && r.dnc
    && OddWeight(h)
    && h & RESERVED_BITS == 0
    && (!r.ev ==> r.ebo == 0 && r.tsc == 0)
    && (!r.dv ==> !r.sv && !r.ev)
    && r.swo == 0
  }

  // One field at a time: a header is its base with a parity bit `p`.
  lemma BaseFlags(dv: bool, sv: bool, ev: bool, ebo: byte, tsc: byte, p: bv32)
    requires p == 0 || p == 1
    ensures DataNotCtrl(DataHeaderBase(dv, sv, ev, ebo, tsc) | p)
    ensures DataHeaderBase(dv, sv, ev, ebo, tsc) & 1 == 0
    ensures (DataHeaderBase(dv, sv, ev, ebo, tsc) | p) & RESERVED_BITS == 0
  {
  }

  lemma BaseDataValid(dv: bool, sv: bool, ev: bool, ebo: byte, tsc: byte, p: bv32)
    requires p == 0 || p == 1
    ensures DataValid(DataHeaderBase(dv, sv, ev, ebo, tsc) | p) == dv
  {
  }

  lemma BaseStartValid(dv: bool, sv: bool, ev: bool, ebo: byte, tsc: byte, p: bv32)
    requires p == 0 || p == 1
    ensures StartValid(DataHeaderBase(dv, sv, ev, ebo, tsc) | p) == sv
  {
  }

  lemma BaseEndValid(dv: bool, sv: bool, ev: bool, ebo: byte, tsc: byte, p: bv32)
    requires p == 0 || p == 1
    ensures EndValid(DataHeaderBase(dv, sv, ev, ebo, tsc) | p) == ev
  {
  }

  lemma BaseStartWord(dv: bool, sv: bool, ev: bool, ebo: byte, tsc: byte, p: bv32)
    requires p == 0 || p == 1
    ensures ((DataHeaderBase(dv, sv, ev, ebo, tsc) | p) >> 16) & 0xF == 0
  {
  }

  lemma BaseEndByte(dv: bool, sv: bool, ev: bool, ebo: byte, tsc: byte, p: bv32)
    requires p == 0 || p == 1
    ensures ((DataHeaderBase(dv, sv, ev, ebo, tsc) | p) >> 8) & 0x3F == (ebo & 0x3F) as bv32
  {
  }

  lemma BaseTag(dv: bool, sv: bool, ev: bool, ebo: byte, tsc: byte, p: bv32)
    requires p == 0 || p == 1
    ensures ((DataHeaderBase(dv, sv, ev, ebo, tsc) | p) >> 6) & 0x3 == (tsc & 3) as bv32
  {
  }

  /** The two bits of a capture mode that fit the header. */
  function Tag(mode: byte): (t: nat) ensures t < 4 { (mode & 3) as bv2 as int }

  /** The capture modes the interface specification defines travel unchanged. */
  lemma TagIsMode(mode: byte)
    requires mode < 4
    ensures Tag(mode) == mode as int
  {
  }

  /** The six bits of an end byte offset that fit the header. */
  function LowSix(b: byte): (n: nat) ensures n < 64 { (b & 0x3F) as bv6 as int }

  lemma LowSixOf(n: nat)
    requires n < 64
    ensures LowSix(n as byte) == n
  {
  }

  lemma BaseFields(h: bv32, dv: bool, sv: bool, ev: bool, ebo: byte, tsc: byte, p: bv32)
    requires p == 0 || p == 1
    requires h == DataHeaderBase(dv, sv, ev, ebo, tsc) | p
    ensures ParseHeader(h) == Header(true, dv, sv, 0, ev, LowSix(ebo), Tag(tsc))
  {
    BaseFlags(dv, sv, ev, ebo, tsc, p);
    BaseDataValid(dv, sv, ev, ebo, tsc, p);
    BaseStartValid(dv, sv, ev, ebo, tsc, p);
    BaseEndValid(dv, sv, ev, ebo, tsc, p);
    BaseStartWord(dv, sv, ev, ebo, tsc, p);
    BaseEndByte(dv, sv, ev, ebo, tsc, p);
    BaseTag(dv, sv, ev, ebo, tsc, p);
  }

  lemma OrCongruence(h: bv32, a: bv32, b: bv32)
    requires a == b
    ensures h | a == h | b
  {
  }

  lemma HeaderUnfolds(dv: bool, sv: bool, ev: bool, ebo: byte, tsc: byte)
    ensures DataHeader(dv, sv, ev, ebo, tsc)
         == DataHeaderBase(dv, sv, ev, ebo, tsc) | Parity(DataHeaderBase(dv, sv, ev, ebo, tsc))
  {
  }

  lemma ParityIsABit(h: bv32) returns (p: bv32)
    ensures p == 0 || p == 1
    ensures p == Parity(h)
  {
    p := Parity(h);
  }

  lemma HeaderIsBase(dv: bool, sv: bool, ev: bool, ebo: byte, tsc: byte) returns (p: bv32)
    ensures p == 0 || p == 1
    ensures DataHeader(dv, sv, ev, ebo, tsc) == DataHeaderBase(dv, sv, ev, ebo, tsc) | p
  {
    var h := DataHeaderBase(dv, sv, ev, ebo, tsc);
    p := ParityIsABit(h);
    HeaderUnfolds(dv, sv, ev, ebo, tsc);
    OrCongruence(h, Parity(h), p);
  }

  /** Every field given to oa_tc6_prepare_data_header is read back from the header; no other bit is set. */
  lemma DataHeaderFields(dv: bool, sv: bool, ev: bool, ebo: byte, tsc: byte)
    ensures ParseHeader(DataHeader(dv, sv, ev, ebo, tsc)) == Header(true, dv, sv, 0, ev, LowSix(ebo), Tag(tsc))
    ensures DataHeader(dv, sv, ev, ebo, tsc) & RESERVED_BITS == 0
  {
    var p := HeaderIsBase(dv, sv, ev, ebo, tsc);
    BaseFields(DataHeader(dv, sv, ev, ebo, tsc), dv, sv, ev, ebo, tsc, p);
    BaseFlags(dv, sv, ev, ebo, tsc, p);
  }

  /** Every data header has an odd number of ones. */
  lemma DataHeaderOdd(dv: bool, sv: bool, ev: bool, ebo: byte, tsc: byte)
    ensures OddWeight(DataHeader(dv, sv, ev, ebo, tsc))
  {
    BaseFlags(dv, sv, ev, ebo, tsc, 0);
    ParityMakesOdd(DataHeaderBase(dv, sv, ev, ebo, tsc));
  }

  function Flag(b: bool, mask: byte): byte {
    if b then mask else 0
  }

  // The bytes of a data header behind the first, which is always 0x80: data and start flags, end flag and offset, tag.
  function StartByte(dv: bool, sv: bool): byte { Flag(dv, 0x20) | Flag(sv, 0x10) }
  function EndByte(ev: bool, ebo: byte): byte { Flag(ev, 0x40) | (ebo & 0x3F) }
  function TagByte(tsc: byte): byte { (tsc << 6) & 0xC0 }

  lemma BaseByte0(dv: bool, sv: bool, ev: bool, ebo: byte, tsc: byte, p: bv32)
    requires p == 0 || p == 1
    ensures ((DataHeaderBase(dv, sv, ev, ebo, tsc) | p) >> 24) & 0xFF == 0x80
  {
  }

  lemma BaseByte1(dv: bool, sv: bool, ev: bool, ebo: byte, tsc: byte, p: bv32)
    requires p == 0 || p == 1
    ensures ((DataHeaderBase(dv, sv, ev, ebo, tsc) | p) >> 16) & 0xFF == StartByte(dv, sv) as bv32
  {
  }

  lemma BaseByte2(dv: bool, sv: bool, ev: bool, ebo: byte, tsc: byte, p: bv32)
    requires p == 0 || p == 1
    ensures ((DataHeaderBase(dv, sv, ev, ebo, tsc) | p) >> 8) & 0xFF == EndByte(ev, ebo) as bv32
  {
  }

  lemma BaseByte3(dv: bool, sv: bool, ev: bool, ebo: byte, tsc: byte, p: bv32)
    requires p == 0 || p == 1
    ensures ((DataHeaderBase(dv, sv, ev, ebo, tsc) | p) & 0xFF) & 0xFE == TagByte(tsc) as bv32
  {
  }

  lemma Be32Bytes(h: bv32, x0: byte, x1: byte, x2: byte, x3: byte)
    requires (h >> 24) & 0xFF == x0 as bv32 && (h >> 16) & 0xFF == x1 as bv32 && (h >> 8) & 0xFF == x2 as bv32
    requires (h & 0xFF) & 0xFE == x3 as bv32
    ensures Be32(h)[0] == x0 && Be32(h)[1] == x1 && Be32(h)[2] == x2 && Be32(h)[3] & 0xFE == x3
  {
  }

  lemma BaseOnWire(h: bv32, dv: bool, sv: bool, ev: bool, ebo: byte, tsc: byte, p: bv32)
    requires p == 0 || p == 1
    requires h == DataHeaderBase(dv, sv, ev, ebo, tsc) | p
    ensures Be32(h)[0] == 0x80 && Be32(h)[1] == StartByte(dv, sv) && Be32(h)[2] == EndByte(ev, ebo)
    ensures Be32(h)[3] & 0xFE == TagByte(tsc)
  {
    hide DataHeaderBase, Be32, StartByte, EndByte, TagByte;
    BaseByte0(dv, sv, ev, ebo, tsc, p);
    BaseByte1(dv, sv, ev, ebo, tsc, p);
    BaseByte2(dv, sv, ev, ebo, tsc, p);
    BaseByte3(dv, sv, ev, ebo, tsc, p);
    Be32Bytes(h, 0x80, StartByte(dv, sv), EndByte(ev, ebo), TagByte(tsc));
  }

  /** The four bytes of a data header as they go out, the first on the wire first; the last bit is the parity's. */
  lemma DataHeaderOnWire(dv: bool, sv: bool, ev: bool, ebo: byte, tsc: byte)
    ensures
      var b := Be32(DataHeader(dv, sv, ev, ebo, tsc));
      && b[0] == 0x80 && b[1] == StartByte(dv, sv) && b[2] == EndByte(ev, ebo)
      && b[3] & 0xFE == TagByte(tsc)
  {
    hide DataHeader, DataHeaderBase, Be32, StartByte, EndByte, TagByte;
    var p := HeaderIsBase(dv, sv, ev, ebo, tsc);
    BaseOnWire(DataHeader(dv, sv, ev, ebo, tsc), dv, sv, ev, ebo, tsc, p);
  }

  // ------------------------------------------------------------ framing

  /** How the start and end flags of a chunk divide its payload among frames. */
  datatype Cut =
    | Middle(body: seq<byte>)
    | Starts(head: seq<byte>)
    | Ends(tail: seq<byte>)
    | Whole(frame: seq<byte>)
    | EndsAndStarts(tail: seq<byte>, head: seq<byte>)

  /** The interface specification's reading of SV, SWO, EV and EBO, in headers and footers alike. */
  function CutOf(sv: bool, swo: nat, ev: bool, ebo: nat, payload: seq<byte>): Cut
    requires swo < 16 && ebo < 64 && |payload| == CHUNK_PAYLOAD_SIZE
  {
    if sv && ev then
      if 4 * swo <= ebo then Whole(payload[4 * swo..ebo + 1])
      else EndsAndStarts(payload[..ebo + 1], payload[4 * swo..])
    else if sv then Starts(payload[4 * swo..])
    else if ev then Ends(payload[..ebo + 1])
    else Middle(payload)
  }

  function OrEmpty(o: Option<seq<byte>>): seq<byte> {
    match o
    case None => []
    case Some(s) => s
  }

  // ------------------------------------------------------------ the MAC-PHY's side of transmission

  /** A frame together with the timestamp tag its last chunk carried. */
  datatype Tagged = Tagged(data: seq<byte>, tag: nat)

  /** What a MAC-PHY has made of the chunks sent to it; `paired` drops when start and end flags fail to alternate. */
  datatype MacPhy = MacPhy(frames: seq<Tagged>, partial: Option<seq<byte>>, paired: bool)

  const FRESH_MACPHY := MacPhy([], None, true)

  function Take(d: MacPhy, cut: Cut, tag: nat): MacPhy {
    var cur := OrEmpty(d.partial);
    match cut
    case Middle(p) => d.(partial := Some(cur + p), paired := d.paired && d.partial.Some?)
    case Starts(q) => d.(partial := Some(q), paired := d.paired && d.partial.None?)
    case Ends(p) => MacPhy(d.frames + [Tagged(cur + p, tag)], None, d.paired && d.partial.Some?)
    case Whole(f) => MacPhy(d.frames + [Tagged(f, tag)], None, d.paired && d.partial.None?)
    case EndsAndStarts(p, q) => MacPhy(d.frames + [Tagged(cur + p, tag)], Some(q), d.paired && d.partial.Some?)
  }

  /** The MAC-PHY takes one 68-byte chunk from the wire. */
  function Accept(d: MacPhy, w: seq<byte>): MacPhy
    requires |w| == CHUNK_SIZE
  {
    var h := FromBe32(w[..4]);
    if DataValid(h) then
      Take(d, CutOf(StartValid(h), StartWordOffset(h), EndValid(h), EndByteOffset(h), w[4..]), TimestampCapture(h))
    else
      d
  }

  function AcceptAll(d: MacPhy, ws: seq<seq<byte>>): MacPhy
    requires forall w <- ws :: |w| == CHUNK_SIZE
  {
    if ws == [] then d else Accept(AcceptAll(d, ws[..|ws| - 1]), ws[|ws| - 1])
  }

  // ------------------------------------------------------------ transmit chunks

  /** One transmit chunk as the driver composes it: header fields and the payload bytes it copies. */
  datatype TxChunk = TxChunk(dv: bool, sv: bool, ev: bool, ebo: byte, tsc: byte, data: seq<byte>)

  const EMPTY_CHUNK := TxChunk(false, false, false, 0, 0, [])

  function HeaderOf(c: TxChunk): bv32 {
    DataHeader(c.dv, c.sv, c.ev, c.ebo, c.tsc)
  }

  /** The chunk in the SPI buffer: `stale` is what earlier rounds left behind the copied bytes. */
  function Render(c: TxChunk, stale: seq<byte>): (w: seq<byte>)
    requires |c.data| + |stale| == CHUNK_PAYLOAD_SIZE
    ensures |w| == CHUNK_SIZE
  {
    Be32(HeaderOf(c)) + c.data + stale
  }

  /** The copied bytes are exactly those the header declares valid. */
  predicate Fits(c: TxChunk) {
    c.dv ==> |c.data| == if c.ev then LowSix(c.ebo) + 1 else CHUNK_PAYLOAD_SIZE
  }

  function CutOfChunk(c: TxChunk): Cut {
    if c.sv && c.ev then Whole(c.data)
    else if c.sv then Starts(c.data)
    else if c.ev then Ends(c.data)
    else Middle(c.data)
  }

  function AcceptChunk(d: MacPhy, c: TxChunk): MacPhy {
    if c.dv then Take(d, CutOfChunk(c), Tag(c.tsc)) else d
  }

  function AcceptChunks(d: MacPhy, cs: seq<TxChunk>): MacPhy {
    if cs == [] then d else AcceptChunk(AcceptChunks(d, cs[..|cs| - 1]), cs[|cs| - 1])
  }

  /** The payload of a fitting chunk, cut as its flags say, whatever stale bytes follow the copied ones. */
  lemma PayloadCut(c: TxChunk, stale: seq<byte>)
    requires |c.data| + |stale| == CHUNK_PAYLOAD_SIZE && Fits(c) && c.dv
    ensures CutOf(c.sv, 0, c.ev, LowSix(c.ebo), c.data + stale) == CutOfChunk(c)
  {
    var payload := c.data + stale;
    assert payload[..|c.data|] == c.data && payload[0..|c.data|] == c.data;
    assert !c.ev ==> payload == c.data && payload[0..] == c.data;
  }

  /** The header fields of a chunk as the MAC-PHY reads them. */
  lemma HeaderFlags(c: TxChunk)
    ensures
      var h := HeaderOf(c);
      && DataValid(h) == c.dv && StartValid(h) == c.sv && StartWordOffset(h) == 0 && EndValid(h) == c.ev
      && EndByteOffset(h) == LowSix(c.ebo) && TimestampCapture(h) == Tag(c.tsc)
  {
    DataHeaderFields(c.dv, c.sv, c.ev, c.ebo, c.tsc);
    assert ParseHeader(HeaderOf(c)) == Header(true, c.dv, c.sv, 0, c.ev, LowSix(c.ebo), Tag(c.tsc));
  }

  /** On the wire a fitting chunk means what its fields and copied bytes say, whatever stale bytes follow. */
  lemma RenderedChunk(d: MacPhy, c: TxChunk, stale: seq<byte>)
    requires |c.data| + |stale| == CHUNK_PAYLOAD_SIZE && Fits(c)
    ensures Accept(d, Render(c, stale)) == AcceptChunk(d, c)
  {
    hide Be32, FromBe32, DataHeader, Take, CutOf, Fits;
    var w := Render(c, stale);
    var h := HeaderOf(c);
    assert w[..4] == Be32(h);
    assert w[4..] == c.data + stale;
    Be32RoundTrip(h);
    HeaderFlags(c);
    if c.dv {
      PayloadCut(c, stale);
    }
  }

  /** `ws` are the chunks `cs` as they stand in the SPI buffer, with some stale bytes. */
  ghost predicate Rendering(cs: seq<TxChunk>, ws: seq<seq<byte>>) {
    && |ws| == |cs|
    && forall k :: 0 <= k < |cs| ==>
         |ws[k]| == CHUNK_SIZE && |cs[k].data| <= CHUNK_PAYLOAD_SIZE
         && ws[k] == Render(cs[k], ws[k][4 + |cs[k].data|..])
  }

  lemma {:induction false} RenderedChunks(d: MacPhy, cs: seq<TxChunk>, ws: seq<seq<byte>>)
    requires Rendering(cs, ws)
    requires forall c <- cs :: Fits(c)
    ensures AcceptAll(d, ws) == AcceptChunks(d, cs)
  {
    if cs != [] {
      var n := |cs| - 1;
      RenderedChunks(d, cs[..n], ws[..n]);
      RenderedChunk(AcceptChunks(d, cs[..n]), cs[n], ws[n][4 + |cs[n].data|..]);
    }
  }

  /** What a MAC-PHY has put together stays. */
  lemma {:induction false} FramesOnlyGrow(d: MacPhy, cs: seq<TxChunk>)
    ensures d.frames <= AcceptChunks(d, cs).frames
  {
    if cs != [] {
      FramesOnlyGrow(d, cs[..|cs| - 1]);
    }
  }

  lemma {:induction false} AcceptConcat(d: MacPhy, a: seq<TxChunk>, b: seq<TxChunk>)
    ensures AcceptChunks(d, a + b) == AcceptChunks(AcceptChunks(d, a), b)
  {
    if b == [] {
      assert a + b == a;
    } else {
      var n := |b| - 1;
      AcceptConcat(d, a, b[..n]);
      assert (a + b)[..|a + b| - 1] == a + b[..n];
    }
  }
}
