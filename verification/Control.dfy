/** Register access over control transactions: headers, echo checks and the register map behind them. */
module Control {
  import opened Words
  import opened Wire

  const CTRL_MAX_REGISTERS: nat := 128
  const CTRL_SPI_BUF_SIZE: nat := 520

  function CtrlHeaderBase(addr: bv32, lengthField: byte, write: bool): bv32 {
    BitIf(write, 0x20000000) | (((addr >> 16) << 24) & 0x0F000000) | ((addr << 8) & 0x00FFFF00)
    | (((lengthField as bv32) << 1) & 0xFE)
  }

  /** oa_tc6_prepare_ctrl_header for `length` registers, before the conversion to big-endian bytes. */
  function CtrlHeader(addr: bv32, length: byte, write: bool): bv32 {
    var h := CtrlHeaderBase(addr, length - 1, write);
    h | Parity(h)
  }

  // What a MAC-PHY reads in a control header.
  predicate WriteNotRead(h: bv32) { h & 0x20000000 != 0 }
  function MemMap(h: bv32): nat { ((h >> 24) & 0xF) as bv4 as int }
  function RegAddr(h: bv32): nat { ((h >> 8) & 0xFFFF) as bv16 as int }
  function RegCount(h: bv32): nat { ((h >> 1) & 0x7F) as bv7 as int + 1 }

  // The memory map selector and the register address in the driver's 32-bit address.
  function MapOf(addr: bv32): nat { ((addr >> 16) & 0xF) as bv4 as int }
  function AddrOf(addr: bv32): nat { (addr & 0xFFFF) as bv16 as int }

  /** The register counts that oa_tc6_read_registers and oa_tc6_write_registers accept. */
  predicate ValidCount(length: byte) {
    1 <= length <= 128
  }

  lemma CtrlBaseBits(addr: bv32, len: byte, write: bool, p: bv32)
    requires p == 0 || p == 1
    ensures DataNotCtrl(CtrlHeaderBase(addr, len, write) | p) == false
    ensures WriteNotRead(CtrlHeaderBase(addr, len, write) | p) == write
    ensures ((CtrlHeaderBase(addr, len, write) | p) >> 24) & 0xF == (addr >> 16) & 0xF
    ensures CtrlHeaderBase(addr, len, write) & 1 == 0
  {
  }

  lemma PickAddr(a: bv32, b: bv32, c: bv32, d: bv32, p: bv32)
    requires a & 0x00FFFF00 == 0 && b & 0x00FFFF00 == 0 && d & 0x00FFFF00 == 0 && p & 0x00FFFF00 == 0
    ensures ((a | b | c | d | p) >> 8) & 0xFFFF == (c >> 8) & 0xFFFF
  {
  }

  lemma AddrField(addr: bv32)
    ensures (((addr << 8) & 0x00FFFF00) >> 8) & 0xFFFF == addr & 0xFFFF
    ensures (((addr >> 16) << 24) & 0x0F000000) & 0x00FFFF00 == 0
  {
  }

  lemma OtherFields(write: bool, len: byte, p: bv32)
    requires p == 0 || p == 1
    ensures BitIf(write, 0x20000000) & 0x00FFFF00 == 0 && (((len as bv32) << 1) & 0xFE) & 0x00FFFF00 == 0
    ensures p & 0x00FFFF00 == 0
  {
  }

  lemma CtrlBaseAddr(addr: bv32, len: byte, write: bool, p: bv32)
    requires p == 0 || p == 1
    ensures ((CtrlHeaderBase(addr, len, write) | p) >> 8) & 0xFFFF == addr & 0xFFFF
  {
    OtherFields(write, len, p);
    AddrField(addr);
    PickAddr(BitIf(write, 0x20000000), ((addr >> 16) << 24) & 0x0F000000, (addr << 8) & 0x00FFFF00,
             ((len as bv32) << 1) & 0xFE, p);
  }

  lemma CtrlBaseCount(addr: bv32, len: byte, write: bool, p: bv32)
    requires p == 0 || p == 1
    ensures ((CtrlHeaderBase(addr, len, write) | p) >> 1) & 0x7F == (len & 0x7F) as bv32
  {
  }

  lemma CountField(length: byte)
    requires ValidCount(length)
    ensures ((length - 1) & 0x7F) as bv7 as int + 1 == length as int
  {
  }

  lemma CtrlHeaderUnfolds(addr: bv32, length: byte, write: bool)
    ensures
      var base := CtrlHeaderBase(addr, length - 1, write);
      CtrlHeader(addr, length, write) == base | Parity(base)
  {
  }

  lemma CtrlHeaderIsBase(addr: bv32, length: byte, write: bool) returns (p: bv32)
    ensures p == 0 || p == 1
    ensures CtrlHeader(addr, length, write) == CtrlHeaderBase(addr, length - 1, write) | p
  {
    var base := CtrlHeaderBase(addr, length - 1, write);
    p := ParityIsABit(base);
    CtrlHeaderUnfolds(addr, length, write);
    OrCongruence(base, Parity(base), p);
  }

  lemma CtrlBaseFields(h: bv32, addr: bv32, len: byte, write: bool, p: bv32)
    requires p == 0 || p == 1
    requires h == CtrlHeaderBase(addr, len, write) | p
    ensures WriteNotRead(h) == write && MemMap(h) == MapOf(addr) && RegAddr(h) == AddrOf(addr)
    ensures RegCount(h) == (len & 0x7F) as bv7 as int + 1 && !DataNotCtrl(h)
  {
    CtrlBaseBits(addr, len, write, p);
    CtrlBaseAddr(addr, len, write, p);
    CtrlBaseCount(addr, len, write, p);
  }

  /** A MAC-PHY reads back from the header what the driver put in. */
  lemma CtrlHeaderFields(addr: bv32, length: byte, write: bool)
    requires ValidCount(length)
    ensures
      var h := CtrlHeader(addr, length, write);
      && !DataNotCtrl(h) && WriteNotRead(h) == write
      && MemMap(h) == MapOf(addr) && RegAddr(h) == AddrOf(addr) && RegCount(h) == length as int
  {
    var p := CtrlHeaderIsBase(addr, length, write);
    CtrlBaseFields(CtrlHeader(addr, length, write), addr, length - 1, write, p);
    CountField(length);
  }

  /** Every control header has an odd number of ones. */
  lemma CtrlHeaderOdd(addr: bv32, length: byte, write: bool)
    ensures OddWeight(CtrlHeader(addr, length, write))
  {
    CtrlBaseBits(addr, length - 1, write, 0);
    ParityMakesOdd(CtrlHeaderBase(addr, length - 1, write));
  }

  // The bytes of a control header: write flag and memory map, address, count less one.
  function MapByte(write: bool, addr: bv32): byte { Flag(write, 0x20) | (((addr >> 16) & 0xF) as byte) }
  function AddrHigh(addr: bv32): byte { ((addr >> 8) & 0xFF) as byte }
  function AddrLow(addr: bv32): byte { (addr & 0xFF) as byte }
  function CountByte(len: byte): byte { len << 1 }

  lemma CtrlByte0(addr: bv32, len: byte, write: bool, p: bv32)
    requires p == 0 || p == 1
    ensures ((CtrlHeaderBase(addr, len, write) | p) >> 24) & 0xFF == MapByte(write, addr) as bv32
  {
  }

  lemma CtrlByte1(addr: bv32, len: byte, write: bool, p: bv32)
    requires p == 0 || p == 1
    ensures ((CtrlHeaderBase(addr, len, write) | p) >> 16) & 0xFF == AddrHigh(addr) as bv32
  {
  }

  lemma CtrlByte2(addr: bv32, len: byte, write: bool, p: bv32)
    requires p == 0 || p == 1
    ensures ((CtrlHeaderBase(addr, len, write) | p) >> 8) & 0xFF == AddrLow(addr) as bv32
  {
  }

  lemma CtrlByte3(addr: bv32, len: byte, write: bool, p: bv32)
    requires p == 0 || p == 1
    ensures ((CtrlHeaderBase(addr, len, write) | p) & 0xFF) & 0xFE == CountByte(len) as bv32
  {
  }

  lemma CtrlBaseOnWire(h: bv32, addr: bv32, len: byte, write: bool, p: bv32)
    requires p == 0 || p == 1
    requires h == CtrlHeaderBase(addr, len, write) | p
    ensures Be32(h)[0] == MapByte(write, addr) && Be32(h)[1] == AddrHigh(addr) && Be32(h)[2] == AddrLow(addr)
    ensures Be32(h)[3] & 0xFE == CountByte(len)
  {
    hide CtrlHeaderBase, Be32, MapByte, AddrHigh, AddrLow, CountByte;
    CtrlByte0(addr, len, write, p);
    CtrlByte1(addr, len, write, p);
    CtrlByte2(addr, len, write, p);
    CtrlByte3(addr, len, write, p);
    Be32Bytes(h, MapByte(write, addr), AddrHigh(addr), AddrLow(addr), CountByte(len));
  }

  /** The four bytes of a control header as they go out, the first on the wire first; the last bit is the parity's. */
  lemma CtrlHeaderOnWire(addr: bv32, length: byte, write: bool)
    requires ValidCount(length)
    ensures
      var b := Be32(CtrlHeader(addr, length, write));
      && b[0] == MapByte(write, addr) && b[1] == AddrHigh(addr) && b[2] == AddrLow(addr)
      && b[3] & 0xFE == CountByte(length - 1)
  {
    hide CtrlHeader, CtrlHeaderBase, Be32, MapByte, AddrHigh, AddrLow, CountByte;
    var p := CtrlHeaderIsBase(addr, length, write);
    CtrlBaseOnWire(CtrlHeader(addr, length, write), addr, length - 1, write, p);
  }

  // ------------------------------------------------------------ words in byte sequences

  /** Values one after the other, each most significant byte first. */
  function BeAll(values: seq<bv32>): (b: seq<byte>)
    ensures |b| == 4 * |values|
  {
    if values == [] then [] else BeAll(values[..|values| - 1]) + Be32(values[|values| - 1])
  }

  function WordAt(b: seq<byte>, at: nat): bv32
    requires at + 4 <= |b|
  {
    FromBe32(b[at..at + 4])
  }

  /** `n` words read from position `at` on. */
  function WordsAt(b: seq<byte>, at: nat, n: nat): (ws: seq<bv32>)
    requires at + 4 * n <= |b|
    ensures |ws| == n
  {
    seq(n, i requires 0 <= i < n => WordAt(b, at + 4 * i))
  }

  lemma {:induction false} BeAllAt(values: seq<bv32>, i: nat)
    requires i < |values|
    ensures BeAll(values)[4 * i..4 * i + 4] == Be32(values[i])
  {
    hide Be32;
    var n := |values| - 1;
    var front := BeAll(values[..n]);
    if i < n {
      BeAllAt(values[..n], i);
      assert BeAll(values)[4 * i..4 * i + 4] == front[4 * i..4 * i + 4];
    } else {
      assert (front + Be32(values[n]))[4 * n..4 * n + 4] == Be32(values[n]);
    }
  }

  /** Values written big-endian are read back. */
  lemma WordsRoundTrip(b: seq<byte>, at: nat, values: seq<bv32>)
    requires at + 4 * |values| <= |b| && b[at..at + 4 * |values|] == BeAll(values)
    ensures WordsAt(b, at, |values|) == values
  {
    hide Be32, FromBe32, BeAll;
    var all := b[at..at + 4 * |values|];
    forall i | 0 <= i < |values|
      ensures WordAt(b, at + 4 * i) == values[i]
    {
      BeAllAt(values, i);
      SliceOfSlice(b, at, at + 4 * |values|, 4 * i, 4 * i + 4);
      Be32RoundTrip(values[i]);
    }
  }

  // ------------------------------------------------------------ the MAC-PHY's registers

  /** A register: memory map selector and 16-bit address. */
  type Register = (nat, nat)

  /** The contents of the implemented registers; the others read as zero. */
  type Registers = map<Register, bv32>

  /** The `i`-th of consecutive registers from `a` on; the address increments within 16 bits. */
  function Nth(mms: nat, a: nat, i: nat): Register {
    (mms, (a + i) % 0x10000)
  }

  function ReadAll(regs: Registers, mms: nat, a: nat, n: nat): (vs: seq<bv32>)
    ensures |vs| == n
  {
    seq(n, i requires 0 <= i < n => if Nth(mms, a, i) in regs then regs[Nth(mms, a, i)] else 0)
  }

  /** Registers written one by one; a write to an unimplemented register has no effect. */
  function WriteAll(regs: Registers, mms: nat, a: nat, values: seq<bv32>): (r: Registers)
    ensures r.Keys == regs.Keys
  {
    if values == [] then regs
    else
      var n := |values| - 1;
      var r := WriteAll(regs, mms, a, values[..n]);
      if Nth(mms, a, n) in r then r[Nth(mms, a, n) := values[n]] else r
  }

  /** A conforming MAC-PHY's answer to a control command: its registers after it, and the bytes on MISO, four bytes to
      be ignored followed by the echoed command, or by the echoed header and the register contents. */
  function Respond(regs: Registers, sent: seq<byte>, ignored: seq<byte>): (r: (Registers, seq<byte>))
    requires |ignored| == 4 && |sent| >= 8
  {
    var h := FromBe32(sent[..4]);
    var n := RegCount(h);
    if WriteNotRead(h) then
      (if 8 + 4 * n <= |sent| then WriteAll(regs, MemMap(h), RegAddr(h), WordsAt(sent, 4, n)) else regs,
       ignored + sent[..|sent| - 4])
    else
      (regs, ignored + sent[..4] + BeAll(ReadAll(regs, MemMap(h), RegAddr(h), n)))
  }

  lemma NthDistinct(mms: nat, a: nat, i: nat, j: nat)
    requires i < j < 0x10000
    ensures Nth(mms, a, i) != Nth(mms, a, j)
  {
  }

  lemma {:induction false} WrittenAt(regs: Registers, mms: nat, a: nat, values: seq<bv32>, i: nat)
    requires i < |values| <= 0x10000 && Nth(mms, a, i) in regs
    ensures WriteAll(regs, mms, a, values)[Nth(mms, a, i)] == values[i]
  {
    hide Nth;
    var n := |values| - 1;
    if i < n {
      NthDistinct(mms, a, i, n);
      WrittenAt(regs, mms, a, values[..n], i);
    }
  }

  lemma {:induction false} OthersKept(regs: Registers, mms: nat, a: nat, values: seq<bv32>, r: Register)
    requires r in regs && forall i :: 0 <= i < |values| ==> r != Nth(mms, a, i)
    ensures WriteAll(regs, mms, a, values)[r] == regs[r]
  {
    hide Nth;
    if values != [] {
      OthersKept(regs, mms, a, values[..|values| - 1], r);
    }
  }

  // ------------------------------------------------------------ the driver's checks

  datatype CtrlResult = CtrlOk | InvalidLength | SpiFailed | ProtocolError | OutOfBounds

  /** oa_tc6_calculate_ctrl_buf_size */
  function CtrlSize(length: byte): (n: nat)
    ensures n == 8 + 4 * length as int
  {
    4 + 4 * length as int + 4
  }

  /** oa_tc6_check_ctrl_write_reply: the size arrives as a u8, so that larger ones wrap; a wrapped size below four
      makes memcmp run away. */
  function CheckWriteReply(sent: seq<byte>, got: seq<byte>, size: nat): CtrlResult
    requires 8 <= size <= |sent| && size <= |got|
  {
    var u8size := size % 256;
    if u8size < 4 then OutOfBounds
    else if sent[..u8size - 4] == got[4..u8size] then CtrlOk
    else ProtocolError
  }

  /** oa_tc6_check_ctrl_read_reply */
  function CheckReadReply(sent: seq<byte>, got: seq<byte>): CtrlResult
    requires |sent| >= 4 && |got| >= 8
  {
    if sent[..4] == got[4..8] then CtrlOk else ProtocolError
  }

  /** The echo is right: header and every value. */
  predicate Echoed(sent: seq<byte>, got: seq<byte>, size: nat)
    requires 8 <= size <= |sent| && size <= |got|
  {
    got[4..size] == sent[..size - 4]
  }

  /** For every reply the check succeeds exactly when the echo is right. */
  ghost predicate CheckIsExact(length: byte) {
    forall sent: seq<byte>, got: seq<byte> {:trigger CheckWriteReply(sent, got, CtrlSize(length))} |
      |sent| == |got| == CtrlSize(length) ::
      CheckWriteReply(sent, got, CtrlSize(length)) == CtrlOk <==> Echoed(sent, got, CtrlSize(length))
  }

  lemma WrappedCheckMisses(length: byte)
    requires 62 <= length <= 128
    ensures !CheckIsExact(length)
  {
    var size := CtrlSize(length);
    var u8size := size % 256;
    var sent: seq<byte> := seq(size, _ => 0);
    if u8size < 4 {
      assert CheckWriteReply(sent, sent, CtrlSize(length)) == OutOfBounds;
      assert Echoed(sent, sent, size) by { assert sent[4..size] == sent[..size - 4]; }
    } else {
      assert u8size < size;
      var got := sent[size - 1 := 1];
      assert got[4..u8size] == sent[..u8size - 4];
      assert CheckWriteReply(sent, got, CtrlSize(length)) == CtrlOk;
      assert got[4..size][size - 5] == 1 && sent[..size - 4][size - 5] == 0;
    }
  }

  /** Within the range oa_tc6_write_registers accepts, the write check is exact up to 61 registers and for no more:
      beyond, it runs out of bounds, compares nothing, or compares only a part. */
  lemma CheckIsExactIff(length: byte)
    requires ValidCount(length)
    ensures CheckIsExact(length) <==> length <= 61
  {
    if length >= 62 {
      WrappedCheckMisses(length);
    }
  }

  // ------------------------------------------------------------ commands against the register map

  /** The bytes of a command on MOSI: header, values of a write, and whatever the buffer held before. */
  predicate Command(sent: seq<byte>, addr: bv32, length: byte, write: bool, values: seq<bv32>) {
    && |sent| == CtrlSize(length) && |values| == length as int
    && sent[..4] == Be32(CtrlHeader(addr, length, write))
    && (write ==> sent[4..4 + 4 * |values|] == BeAll(values))
  }

  lemma EchoAccepted(length: byte, sent: seq<byte>, got: seq<byte>)
    requires length <= 61 && |sent| == |got| == CtrlSize(length) && Echoed(sent, got, |sent|)
    ensures CheckWriteReply(sent, got, |sent|) == CtrlOk
  {
  }

  lemma CommandHeader(sent: seq<byte>, addr: bv32, length: byte, write: bool, values: seq<bv32>)
    requires ValidCount(length) && Command(sent, addr, length, write, values)
    ensures
      var h := FromBe32(sent[..4]);
      WriteNotRead(h) == write && MemMap(h) == MapOf(addr) && RegAddr(h) == AddrOf(addr) && RegCount(h) == |values|
  {
    hide Be32, FromBe32, BeAll, CtrlHeader;
    Be32RoundTrip(CtrlHeader(addr, length, write));
    CtrlHeaderFields(addr, length, write);
  }

  /** A write command reaches exactly the addressed registers and is echoed, so that the check accepts it. */
  lemma WriteCommandLands(regs: Registers, sent: seq<byte>, ignored: seq<byte>, addr: bv32, length: byte,
                          values: seq<bv32>)
    requires ValidCount(length) && |ignored| == 4 && Command(sent, addr, length, true, values)
    ensures
      var (regs', got) := Respond(regs, sent, ignored);
      && regs' == WriteAll(regs, MapOf(addr), AddrOf(addr), values)
      && |got| == |sent| && Echoed(sent, got, |sent|)
      && (length <= 61 ==> CheckWriteReply(sent, got, |sent|) == CtrlOk)
  {
    hide FromBe32, BeAll, WriteAll, WordsAt, MemMap, RegAddr, RegCount, WriteNotRead, MapOf, AddrOf, CheckWriteReply;
    CommandHeader(sent, addr, length, true, values);
    WordsRoundTrip(sent, 4, values);
    var got := ignored + sent[..|sent| - 4];
    assert got[4..|sent|] == sent[..|sent| - 4];
    if length <= 61 {
      EchoAccepted(length, sent, got);
    }
  }

  /** A read command returns the addressed registers and changes none. */
  lemma ReadCommandReturns(regs: Registers, sent: seq<byte>, ignored: seq<byte>, addr: bv32, length: byte,
                           values: seq<bv32>)
    requires ValidCount(length) && |ignored| == 4 && Command(sent, addr, length, false, values)
    ensures
      var (regs', got) := Respond(regs, sent, ignored);
      && regs' == regs && |got| == |sent| && CheckReadReply(sent, got) == CtrlOk
      && WordsAt(got, 8, length as int) == ReadAll(regs, MapOf(addr), AddrOf(addr), length as int)
  {
    hide FromBe32, BeAll, ReadAll, WordsAt, MemMap, RegAddr, RegCount, WriteNotRead, MapOf, AddrOf;
    CommandHeader(sent, addr, length, false, values);
    var vs := ReadAll(regs, MapOf(addr), AddrOf(addr), length as int);
    var got := ignored + sent[..4] + BeAll(vs);
    assert got[4..8] == sent[..4];
    assert got[8..8 + 4 * |vs|] == BeAll(vs);
    WordsRoundTrip(got, 8, vs);
  }

  /** Writing up to 128 values to implemented registers and reading them back yields the same values at consecutive
      addresses, and no other register changes. */
  lemma WriteThenRead(regs: Registers, mms: nat, a: nat, values: seq<bv32>)
    requires |values| <= CTRL_MAX_REGISTERS
    requires forall i :: 0 <= i < |values| ==> Nth(mms, a, i) in regs
    ensures ReadAll(WriteAll(regs, mms, a, values), mms, a, |values|) == values
    ensures forall r :: r in regs && (forall i :: 0 <= i < |values| ==> r != Nth(mms, a, i)) ==>
              WriteAll(regs, mms, a, values)[r] == regs[r]
  {
    var after := WriteAll(regs, mms, a, values);
    forall i | 0 <= i < |values|
      ensures ReadAll(after, mms, a, |values|)[i] == values[i]
    {
      WrittenAt(regs, mms, a, values, i);
    }
    forall r | r in regs && (forall i :: 0 <= i < |values| ==> r != Nth(mms, a, i))
      ensures after[r] == regs[r]
    {
      OthersKept(regs, mms, a, values, r);
    }
  }

  lemma CommandLength(sent: seq<byte>, addr: bv32, length: byte, write: bool, values: seq<bv32>)
    requires Command(sent, addr, length, write, values)
    ensures |values| == length as int && |sent| == CtrlSize(length)
  {
  }

  /** A write command of up to 61 registers followed by a read command at the same address: both checks succeed, the
      values read are those written, and every register outside the addressed ones keeps its contents. */
  lemma CommandsRefineRegisters(regs: Registers, written: seq<byte>, read: seq<byte>, ignored: seq<byte>,
                                addr: bv32, length: byte, values: seq<bv32>, unused: seq<bv32>)
    requires 1 <= length <= 61 && |ignored| == 4
    requires Command(written, addr, length, true, values) && Command(read, addr, length, false, unused)
    requires forall i :: 0 <= i < |values| ==> Nth(MapOf(addr), AddrOf(addr), i) in regs
    ensures
      var (after, echo) := Respond(regs, written, ignored);
      var (last, got) := Respond(after, read, ignored);
      && |echo| == |written| && CheckWriteReply(written, echo, |written|) == CtrlOk
      && |got| == |read| && CheckReadReply(read, got) == CtrlOk
      && WordsAt(got, 8, length as int) == values
      && last.Keys == regs.Keys
      && forall r :: r in regs && (forall i :: 0 <= i < |values| ==> r != Nth(MapOf(addr), AddrOf(addr), i)) ==>
           last[r] == regs[r]
  {
    hide Command, Respond, CheckWriteReply, CheckReadReply, WordsAt, ReadAll, WriteAll;
    CommandLength(written, addr, length, true, values);
    CommandLength(read, addr, length, false, unused);
    WriteCommandLands(regs, written, ignored, addr, length, values);
    ReadCommandReturns(Respond(regs, written, ignored).0, read, ignored, addr, length, unused);
    WriteThenRead(regs, MapOf(addr), AddrOf(addr), values);
  }

  /** The wire as the driver sees it: the bytes on MISO for the bytes on MOSI, if the transfer works. */
  type Transfer = seq<byte> -> Option<seq<byte>>

  ghost predicate FullDuplex(transfer: Transfer) {
    forall sent {:trigger transfer(sent)} :: transfer(sent).Some? ==> |transfer(sent).value| == |sent|
  }

  lemma SentHeader(sent: seq<byte>, addr: bv32, length: byte, write: bool, values: seq<bv32>)
    requires Command(sent, addr, length, write, values)
    ensures |sent| == CtrlSize(length) && sent[..4] == Be32(CtrlHeader(addr, length, write))
  {
  }

  lemma SameWords(buf: seq<byte>, got: seq<byte>, at: nat, n: nat)
    requires at + 4 * n <= |got| <= |buf| && buf[..|got|] == got
    ensures WordsAt(buf, at, n) == WordsAt(got, at, n)
  {
    forall i | 0 <= i < n
      ensures WordAt(buf, at + 4 * i) == WordAt(got, at + 4 * i)
    {
      var j := at + 4 * i;
      assert buf[j..j + 4] == buf[..|got|][j..j + 4];
    }
  }

  /** The control half of struct oa_tc6. */
  class ControlPort {
    const spiCtrlTxBuf: array<byte>
    const spiCtrlRxBuf: array<byte>

    ghost predicate Valid()
      reads this
    {
      && spiCtrlTxBuf.Length == CTRL_SPI_BUF_SIZE && spiCtrlRxBuf.Length == CTRL_SPI_BUF_SIZE
      && spiCtrlTxBuf != spiCtrlRxBuf
    }

    constructor ()
      ensures Valid() && fresh(spiCtrlTxBuf) && fresh(spiCtrlRxBuf)
    {
      spiCtrlTxBuf := new byte[CTRL_SPI_BUF_SIZE];
      spiCtrlRxBuf := new byte[CTRL_SPI_BUF_SIZE];
    }

    /** A big-endian word stored into the transmit buffer. */
    method PutWord(at: nat, w: bv32)
      requires Valid() && at + 4 <= CTRL_SPI_BUF_SIZE
      modifies spiCtrlTxBuf
      ensures spiCtrlTxBuf[at..at + 4] == Be32(w)
      ensures spiCtrlTxBuf[..at] == old(spiCtrlTxBuf[..at])
    {
      hide Be32;
      var b := Be32(w);
      forall i | at <= i < at + 4 {
        spiCtrlTxBuf[i] := b[i - at];
      }
    }

    /** oa_tc6_update_ctrl_write_data */
    method UpdateCtrlWriteData(value: seq<bv32>)
      requires Valid() && 4 + 4 * |value| <= CTRL_SPI_BUF_SIZE
      modifies spiCtrlTxBuf
      ensures spiCtrlTxBuf[..4] == old(spiCtrlTxBuf[..4])
      ensures spiCtrlTxBuf[4..4 + 4 * |value|] == BeAll(value)
    {
      hide Be32;
      var i := 0;
      while i < |value|
        invariant i <= |value|
        invariant spiCtrlTxBuf[..4] == old(spiCtrlTxBuf[..4])
        invariant spiCtrlTxBuf[4..4 + 4 * i] == BeAll(value[..i])
      {
        ghost var before := spiCtrlTxBuf[..4 + 4 * i];
        PutWord(4 + 4 * i, value[i]);
        assert spiCtrlTxBuf[..4 + 4 * i] == before;
        assert spiCtrlTxBuf[4..4 + 4 * (i + 1)] == before[4..] + spiCtrlTxBuf[4 + 4 * i..4 + 4 * i + 4];
        assert spiCtrlTxBuf[..4] == before[..4];
        assert value[..i + 1][..i] == value[..i];
        i := i + 1;
      }
      assert value[..i] == value;
    }

    /** oa_tc6_prepare_ctrl_spi_buf */
    method PrepareCtrlSpiBuf(address: bv32, value: seq<bv32>, length: byte, write: bool)
      requires Valid() && ValidCount(length) && |value| == length as int
      modifies spiCtrlTxBuf
      ensures Command(spiCtrlTxBuf[..CtrlSize(length)], address, length, write, value)
    {
      hide Be32, BeAll, CtrlHeader;
      PutWord(0, CtrlHeader(address, length, write));
      assert spiCtrlTxBuf[..4] == spiCtrlTxBuf[0..4];
      if write {
        UpdateCtrlWriteData(value);
      }
      ghost var sent := spiCtrlTxBuf[..CtrlSize(length)];
      assert sent == spiCtrlTxBuf[0..CtrlSize(length)] == spiCtrlTxBuf[..][0..CtrlSize(length)];
      SliceOfSlice(spiCtrlTxBuf[..], 0, CtrlSize(length), 0, 4);
      SliceOfSlice(spiCtrlTxBuf[..], 0, CtrlSize(length), 4, 4 + 4 * |value|);
      assert spiCtrlTxBuf[..][4..4 + 4 * |value|] == spiCtrlTxBuf[4..4 + 4 * |value|];
    }

    /** oa_tc6_copy_ctrl_read_data */
    method CopyCtrlReadData(length: byte) returns (value: seq<bv32>)
      requires Valid() && ValidCount(length)
      ensures value == WordsAt(spiCtrlRxBuf[..], 8, length as int)
    {
      hide FromBe32;
      value := [];
      var i := 0;
      while i < length as int
        invariant i <= length as int
        invariant value == WordsAt(spiCtrlRxBuf[..], 8, i)
      {
        var at := 8 + 4 * i;
        assert spiCtrlRxBuf[at..at + 4] == spiCtrlRxBuf[..][at..at + 4];
        value := value + [FromBe32(spiCtrlRxBuf[at..at + 4])];
        i := i + 1;
      }
    }

    /** oa_tc6_perform_ctrl: the result is that of the check on the bytes sent and received, and the values of a
        successful read are those behind the echoed header. */
    method PerformCtrl(address: bv32, value: seq<bv32>, length: byte, write: bool, transfer: Transfer)
      returns (r: CtrlResult, out: seq<bv32>)
      requires Valid() && ValidCount(length) && |value| == length as int && FullDuplex(transfer)
      modifies spiCtrlTxBuf, spiCtrlRxBuf
      ensures
        var sent := spiCtrlTxBuf[..CtrlSize(length)];
        && Command(sent, address, length, write, value)
        && match transfer(sent)
           case None => r == SpiFailed && out == value
           case Some(got) =>
             && |got| == |sent|
             && r == (if write then CheckWriteReply(sent, got, |sent|) else CheckReadReply(sent, got))
             && out == if !write && r == CtrlOk then WordsAt(got, 8, length as int) else value
    {
      hide Command, WordsAt;
      out := value;
      PrepareCtrlSpiBuf(address, value, length, write);
      var size := CtrlSize(length);
      var sent := spiCtrlTxBuf[..size];
      var reply := transfer(sent);
      if reply.None? {
        return SpiFailed, out;
      }
      forall i | 0 <= i < size {
        spiCtrlRxBuf[i] := reply.value[i];
      }
      ghost var got := reply.value;
      assert spiCtrlRxBuf[..size] == got;
      assert spiCtrlTxBuf[..size] == sent;
      if write {
        r := CheckWriteReply(spiCtrlTxBuf[..size], spiCtrlRxBuf[..size], size);
      } else {
        r := CheckReadReply(spiCtrlTxBuf[..size], spiCtrlRxBuf[..size]);
        if r == CtrlOk {
          out := CopyCtrlReadData(length);
          SameWords(spiCtrlRxBuf[..], got, 8, length as int);
        }
      }
    }

    /** oa_tc6_write_registers */
    method WriteRegisters(address: bv32, value: seq<bv32>, length: byte, transfer: Transfer) returns (r: CtrlResult)
      requires Valid() && |value| == length as int && FullDuplex(transfer)
      modifies spiCtrlTxBuf, spiCtrlRxBuf
      ensures r == InvalidLength <==> length == 0 || length > 128
      ensures ValidCount(length) ==>
                var sent := spiCtrlTxBuf[..CtrlSize(length)];
                && Command(sent, address, length, true, value)
                && (match transfer(sent)
                    case None => r == SpiFailed
                    case Some(got) => |got| == |sent| && r == CheckWriteReply(sent, got, |sent|))
                && (length <= 61 ==>
                      (r == CtrlOk <==> transfer(sent).Some? && Echoed(sent, transfer(sent).value, |sent|)))
    {
      hide Command;
      if length == 0 || length > 128 {
        return InvalidLength;
      }
      var out;
      r, out := PerformCtrl(address, value, length, true, transfer);
      if length <= 61 {
        CheckIsExactIff(length);
        ghost var sent := spiCtrlTxBuf[..CtrlSize(length)];
        if transfer(sent).Some? {
          assert CheckWriteReply(sent, transfer(sent).value, CtrlSize(length)) == r;
        }
      }
    }

    /** oa_tc6_read_registers */
    method ReadRegisters(address: bv32, value: seq<bv32>, length: byte, transfer: Transfer)
      returns (r: CtrlResult, out: seq<bv32>)
      requires Valid() && |value| == length as int && FullDuplex(transfer)
      modifies spiCtrlTxBuf, spiCtrlRxBuf
      ensures r == InvalidLength <==> length == 0 || length > 128
      ensures r != CtrlOk ==> out == value
      ensures ValidCount(length) ==>
                var sent := spiCtrlTxBuf[..CtrlSize(length)];
                && Command(sent, address, length, false, value)
                && match transfer(sent)
                   case None => r == SpiFailed
                   case Some(got) =>
                     && |got| == |sent|
                     && r == (if got[4..8] == Be32(CtrlHeader(address, length, false)) then CtrlOk else ProtocolError)
                     && (r == CtrlOk ==> out == WordsAt(got, 8, length as int))
    {
      hide Command, WordsAt, Be32, CtrlHeader;
      if length == 0 || length > 128 {
        return InvalidLength, value;
      }
      r, out := PerformCtrl(address, value, length, false, transfer);
      SentHeader(spiCtrlTxBuf[..CtrlSize(length)], address, length, false, value);
    }
  }
}
