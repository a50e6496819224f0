/** The multicast hash filter: a 64-bit bitmap that stands in for a set of addresses. */
module Multicast {
  import opened Words

  /** A six-byte hardware address. */
  type Address = a: seq<byte> | |a| == 6 witness [0, 0, 0, 0, 0, 0]

  function ByteBit(x: byte, k: nat): bv32
    requires k < 8
  {
    ((x >> k) & 1) as bv32
  }

  /** get_address_bit */
  function AddressBit(addr: Address, bit: nat): bv32
    requires bit < 48
  {
    ByteBit(addr[bit / 8], bit % 8)
  }

  /** The address as a 48-bit number, first byte least significant. */
  function Value(addr: Address): bv64 {
    (addr[0] as bv64) | ((addr[1] as bv64) << 8) | ((addr[2] as bv64) << 16)
    | ((addr[3] as bv64) << 24) | ((addr[4] as bv64) << 32) | ((addr[5] as bv64) << 40)
  }

  /** The XOR of the eight 6-bit digits of a 48-bit number. */
  function DigitXor(v: bv64): bv64 {
    (v ^ (v >> 6) ^ (v >> 12) ^ (v >> 18) ^ (v >> 24) ^ (v >> 30) ^ (v >> 36) ^ (v >> 42)) & 0x3F
  }

  /** hash ^= bit */
  function Xor(a: bv32, b: bv32): bv32 {
    a ^ b
  }

  /** Hash bit `i` after the first `n` turns of the inner loop. */
  function HashBit(addr: Address, i: nat, n: nat): bv32
    requires i < 6 && n <= 8
  {
    if n == 0 then 0 else Xor(HashBit(addr, i, n - 1), AddressBit(addr, (n - 1) * 6 + i))
  }

  /** hash_index |= hash << i */
  function OrShifted(hashIndex: bv32, hash: bv32, i: nat): bv32
    requires i < 6
  {
    hashIndex | (hash << i)
  }

  /** The hash index after the first `n` turns of the outer loop. */
  function HashIndex(addr: Address, n: nat): bv32
    requires n <= 6
  {
    if n == 0 then 0 else OrShifted(HashIndex(addr, n - 1), HashBit(addr, n - 1, 8), n - 1)
  }

  lemma HashBitStep(addr: Address, i: nat, n: nat)
    requires i < 6 && n < 8
    ensures HashBit(addr, i, 0) == 0
    ensures HashBit(addr, i, n + 1) == Xor(HashBit(addr, i, n), AddressBit(addr, n * 6 + i))
  {
  }

  lemma HashIndexStep(addr: Address, n: nat)
    requires n < 6
    ensures HashIndex(addr, 0) == 0
    ensures HashIndex(addr, n + 1) == OrShifted(HashIndex(addr, n), HashBit(addr, n, 8), n)
  {
  }

  /** Bit `i` of a word, as a word. */
  function BitAt(x: bv64, i: bv64): bv32
    requires i < 6
  {
    ((x >> i) & 1) as bv32
  }

  /** The eight address bits behind hash bit `i`. */
  lemma HashBitIs(addr: Address, i: nat)
    requires i < 6
    ensures HashBit(addr, i, 8) ==
      Xor(Xor(Xor(Xor(Xor(Xor(Xor(Xor(0, AddressBit(addr, i)), AddressBit(addr, 6 + i)), AddressBit(addr, 12 + i)),
        AddressBit(addr, 18 + i)), AddressBit(addr, 24 + i)), AddressBit(addr, 30 + i)), AddressBit(addr, 36 + i)),
        AddressBit(addr, 42 + i))
  {
    hide AddressBit, HashBit, Xor;
    HashBitStep(addr, i, 0);
    HashBitStep(addr, i, 1);
    HashBitStep(addr, i, 2);
    HashBitStep(addr, i, 3);
    HashBitStep(addr, i, 4);
    HashBitStep(addr, i, 5);
    HashBitStep(addr, i, 6);
    HashBitStep(addr, i, 7);
  }

  // One lemma per digit position: the XOR of eight address bits is a bit of the XOR of eight digits. Each is stated
  // with the number and the digits spelled out, which is the form the solver normalises.
  lemma DigitBit0(a: byte, b: byte, c: byte, d: byte, e: byte, f: byte)
    ensures
      var v := (a as bv64) | ((b as bv64) << 8) | ((c as bv64) << 16) | ((d as bv64) << 24) | ((e as bv64) << 32)
               | ((f as bv64) << 40);
      var x := (v ^ (v >> 6) ^ (v >> 12) ^ (v >> 18) ^ (v >> 24) ^ (v >> 30) ^ (v >> 36) ^ (v >> 42)) & 0x3F;
      ((x >> 0) & 1) as bv32 ==
        ((a >> 0) & 1) as bv32 ^ ((a >> 6) & 1) as bv32 ^ ((b >> 4) & 1) as bv32 ^ ((c >> 2) & 1) as bv32
        ^ ((d >> 0) & 1) as bv32 ^ ((d >> 6) & 1) as bv32 ^ ((e >> 4) & 1) as bv32 ^ ((f >> 2) & 1) as bv32
  {
  }

  lemma DigitBit1(a: byte, b: byte, c: byte, d: byte, e: byte, f: byte)
    ensures
      var v := (a as bv64) | ((b as bv64) << 8) | ((c as bv64) << 16) | ((d as bv64) << 24) | ((e as bv64) << 32)
               | ((f as bv64) << 40);
      var x := (v ^ (v >> 6) ^ (v >> 12) ^ (v >> 18) ^ (v >> 24) ^ (v >> 30) ^ (v >> 36) ^ (v >> 42)) & 0x3F;
      ((x >> 1) & 1) as bv32 ==
        ((a >> 1) & 1) as bv32 ^ ((a >> 7) & 1) as bv32 ^ ((b >> 5) & 1) as bv32 ^ ((c >> 3) & 1) as bv32
        ^ ((d >> 1) & 1) as bv32 ^ ((d >> 7) & 1) as bv32 ^ ((e >> 5) & 1) as bv32 ^ ((f >> 3) & 1) as bv32
  {
  }

  lemma DigitBit2(a: byte, b: byte, c: byte, d: byte, e: byte, f: byte)
    ensures
      var v := (a as bv64) | ((b as bv64) << 8) | ((c as bv64) << 16) | ((d as bv64) << 24) | ((e as bv64) << 32)
               | ((f as bv64) << 40);
      var x := (v ^ (v >> 6) ^ (v >> 12) ^ (v >> 18) ^ (v >> 24) ^ (v >> 30) ^ (v >> 36) ^ (v >> 42)) & 0x3F;
      ((x >> 2) & 1) as bv32 ==
        ((a >> 2) & 1) as bv32 ^ ((b >> 0) & 1) as bv32 ^ ((b >> 6) & 1) as bv32 ^ ((c >> 4) & 1) as bv32
        ^ ((d >> 2) & 1) as bv32 ^ ((e >> 0) & 1) as bv32 ^ ((e >> 6) & 1) as bv32 ^ ((f >> 4) & 1) as bv32
  {
  }

  lemma DigitBit3(a: byte, b: byte, c: byte, d: byte, e: byte, f: byte)
    ensures
      var v := (a as bv64) | ((b as bv64) << 8) | ((c as bv64) << 16) | ((d as bv64) << 24) | ((e as bv64) << 32)
               | ((f as bv64) << 40);
      var x := (v ^ (v >> 6) ^ (v >> 12) ^ (v >> 18) ^ (v >> 24) ^ (v >> 30) ^ (v >> 36) ^ (v >> 42)) & 0x3F;
      ((x >> 3) & 1) as bv32 ==
        ((a >> 3) & 1) as bv32 ^ ((b >> 1) & 1) as bv32 ^ ((b >> 7) & 1) as bv32 ^ ((c >> 5) & 1) as bv32
        ^ ((d >> 3) & 1) as bv32 ^ ((e >> 1) & 1) as bv32 ^ ((e >> 7) & 1) as bv32 ^ ((f >> 5) & 1) as bv32
  {
  }

  lemma DigitBit4(a: byte, b: byte, c: byte, d: byte, e: byte, f: byte)
    ensures
      var v := (a as bv64) | ((b as bv64) << 8) | ((c as bv64) << 16) | ((d as bv64) << 24) | ((e as bv64) << 32)
               | ((f as bv64) << 40);
      var x := (v ^ (v >> 6) ^ (v >> 12) ^ (v >> 18) ^ (v >> 24) ^ (v >> 30) ^ (v >> 36) ^ (v >> 42)) & 0x3F;
      ((x >> 4) & 1) as bv32 ==
        ((a >> 4) & 1) as bv32 ^ ((b >> 2) & 1) as bv32 ^ ((c >> 0) & 1) as bv32 ^ ((c >> 6) & 1) as bv32
        ^ ((d >> 4) & 1) as bv32 ^ ((e >> 2) & 1) as bv32 ^ ((f >> 0) & 1) as bv32 ^ ((f >> 6) & 1) as bv32
  {
  }

  lemma DigitBit5(a: byte, b: byte, c: byte, d: byte, e: byte, f: byte)
    ensures
      var v := (a as bv64) | ((b as bv64) << 8) | ((c as bv64) << 16) | ((d as bv64) << 24) | ((e as bv64) << 32)
               | ((f as bv64) << 40);
      var x := (v ^ (v >> 6) ^ (v >> 12) ^ (v >> 18) ^ (v >> 24) ^ (v >> 30) ^ (v >> 36) ^ (v >> 42)) & 0x3F;
      ((x >> 5) & 1) as bv32 ==
        ((a >> 5) & 1) as bv32 ^ ((b >> 3) & 1) as bv32 ^ ((c >> 1) & 1) as bv32 ^ ((c >> 7) & 1) as bv32
        ^ ((d >> 5) & 1) as bv32 ^ ((e >> 3) & 1) as bv32 ^ ((f >> 1) & 1) as bv32 ^ ((f >> 7) & 1) as bv32
  {
  }

  lemma HashBit0(addr: Address)
    ensures HashBit(addr, 0, 8) == BitAt(DigitXor(Value(addr)), 0)
  {
    hide HashBit;
    HashBitIs(addr, 0);
    DigitBit0(addr[0], addr[1], addr[2], addr[3], addr[4], addr[5]);
  }

  lemma HashBit1(addr: Address)
    ensures HashBit(addr, 1, 8) == BitAt(DigitXor(Value(addr)), 1)
  {
    hide HashBit;
    HashBitIs(addr, 1);
    DigitBit1(addr[0], addr[1], addr[2], addr[3], addr[4], addr[5]);
  }

  lemma HashBit2(addr: Address)
    ensures HashBit(addr, 2, 8) == BitAt(DigitXor(Value(addr)), 2)
  {
    hide HashBit;
    HashBitIs(addr, 2);
    DigitBit2(addr[0], addr[1], addr[2], addr[3], addr[4], addr[5]);
  }

  lemma HashBit3(addr: Address)
    ensures HashBit(addr, 3, 8) == BitAt(DigitXor(Value(addr)), 3)
  {
    hide HashBit;
    HashBitIs(addr, 3);
    DigitBit3(addr[0], addr[1], addr[2], addr[3], addr[4], addr[5]);
  }

  lemma HashBit4(addr: Address)
    ensures HashBit(addr, 4, 8) == BitAt(DigitXor(Value(addr)), 4)
  {
    hide HashBit;
    HashBitIs(addr, 4);
    DigitBit4(addr[0], addr[1], addr[2], addr[3], addr[4], addr[5]);
  }

  lemma HashBit5(addr: Address)
    ensures HashBit(addr, 5, 8) == BitAt(DigitXor(Value(addr)), 5)
  {
    hide HashBit;
    HashBitIs(addr, 5);
    DigitBit5(addr[0], addr[1], addr[2], addr[3], addr[4], addr[5]);
  }

  /** Six bits put together. */
  function Assembled(b0: bv32, b1: bv32, b2: bv32, b3: bv32, b4: bv32, b5: bv32): bv32 {
    OrShifted(OrShifted(OrShifted(OrShifted(OrShifted(OrShifted(0, b0, 0), b1, 1), b2, 2), b3, 3), b4, 4), b5, 5)
  }

  lemma SixBits(x: bv64)
    requires x & 0x3F == x
    ensures Assembled(BitAt(x, 0), BitAt(x, 1), BitAt(x, 2), BitAt(x, 3), BitAt(x, 4), BitAt(x, 5)) == x as bv32
  {
  }

  lemma DigitsFit(v: bv64)
    ensures DigitXor(v) & 0x3F == DigitXor(v) && DigitXor(v) < 64
  {
  }

  /** The hash is the XOR of the eight 6-bit digits of the address read as a 48-bit number. */
  lemma HashIsDigitXor(addr: Address)
    ensures DigitXor(Value(addr)) < 64 && HashIndex(addr, 6) == DigitXor(Value(addr)) as bv32
  {
    hide HashBit, HashIndex, OrShifted, BitAt, DigitXor, Value;
    var x := DigitXor(Value(addr));
    DigitsFit(Value(addr));
    HashBit0(addr);
    HashIndexStep(addr, 0);
    HashBit1(addr);
    HashIndexStep(addr, 1);
    HashBit2(addr);
    HashIndexStep(addr, 2);
    HashBit3(addr);
    HashIndexStep(addr, 3);
    HashBit4(addr);
    HashIndexStep(addr, 4);
    HashBit5(addr);
    HashIndexStep(addr, 5);
    SixBits(x);
  }

  lemma SmallHash(addr: Address)
    ensures HashIndex(addr, 6) < 64
  {
    hide HashIndex;
    HashIsDigitXor(addr);
  }

  /** lan865x_hash: the XOR of the eight 6-bit digits of the address. */
  method Hash(addr: Address) returns (hashIndex: bv32)
    ensures DigitXor(Value(addr)) < 64 && hashIndex == DigitXor(Value(addr)) as bv32 && hashIndex < 64
    ensures hashIndex == HashIndex(addr, 6)
  {
    hide HashBit, HashIndex, AddressBit, OrShifted, Xor, DigitXor, Value;
    hashIndex := 0;
    HashIndexStep(addr, 0);
    for i := 0 to 6
      invariant hashIndex == HashIndex(addr, i)
    {
      var hash: bv32 := 0;
      HashBitStep(addr, i, 0);
      for j := 0 to 8
        invariant hash == HashBit(addr, i, j)
      {
        HashBitStep(addr, i, j);
        hash := Xor(hash, AddressBit(addr, (j * 6) + i));
      }
      HashIndexStep(addr, i);
      hashIndex := OrShifted(hashIndex, hash, i);
    }
    HashIsDigitXor(addr);
    SmallHash(addr);
  }

  // ------------------------------------------------------------ linearity

  function XorByte(x: byte, y: byte): byte {
    x ^ y
  }

  /** The XOR of two addresses, byte by byte. */
  function XorAddr(a: Address, b: Address): Address {
    [XorByte(a[0], b[0]), XorByte(a[1], b[1]), XorByte(a[2], b[2]), XorByte(a[3], b[3]), XorByte(a[4], b[4]),
     XorByte(a[5], b[5])]
  }

  // One bit at a time.
  lemma ByteBitLinear0(x: byte, y: byte)
    ensures ByteBit(XorByte(x, y), 0) == Xor(ByteBit(x, 0), ByteBit(y, 0))
  {
  }

  lemma ByteBitLinear1(x: byte, y: byte)
    ensures ByteBit(XorByte(x, y), 1) == Xor(ByteBit(x, 1), ByteBit(y, 1))
  {
  }

  lemma ByteBitLinear2(x: byte, y: byte)
    ensures ByteBit(XorByte(x, y), 2) == Xor(ByteBit(x, 2), ByteBit(y, 2))
  {
  }

  lemma ByteBitLinear3(x: byte, y: byte)
    ensures ByteBit(XorByte(x, y), 3) == Xor(ByteBit(x, 3), ByteBit(y, 3))
  {
  }

  lemma ByteBitLinear4(x: byte, y: byte)
    ensures ByteBit(XorByte(x, y), 4) == Xor(ByteBit(x, 4), ByteBit(y, 4))
  {
  }

  lemma ByteBitLinear5(x: byte, y: byte)
    ensures ByteBit(XorByte(x, y), 5) == Xor(ByteBit(x, 5), ByteBit(y, 5))
  {
  }

  lemma ByteBitLinear6(x: byte, y: byte)
    ensures ByteBit(XorByte(x, y), 6) == Xor(ByteBit(x, 6), ByteBit(y, 6))
  {
  }

  lemma ByteBitLinear7(x: byte, y: byte)
    ensures ByteBit(XorByte(x, y), 7) == Xor(ByteBit(x, 7), ByteBit(y, 7))
  {
  }

  lemma ByteBitLinear(x: byte, y: byte, k: nat)
    requires k < 8
    ensures ByteBit(XorByte(x, y), k) == Xor(ByteBit(x, k), ByteBit(y, k))
  {
    hide ByteBit, Xor, XorByte;
    match k
    case 0 => ByteBitLinear0(x, y);
    case 1 => ByteBitLinear1(x, y);
    case 2 => ByteBitLinear2(x, y);
    case 3 => ByteBitLinear3(x, y);
    case 4 => ByteBitLinear4(x, y);
    case 5 => ByteBitLinear5(x, y);
    case 6 => ByteBitLinear6(x, y);
    case _ => ByteBitLinear7(x, y);
  }

  lemma XorAddrAt(a: Address, b: Address, i: nat)
    requires i < 6
    ensures XorAddr(a, b)[i] == XorByte(a[i], b[i])
  {
    hide XorByte;
  }

  lemma AddressBitLinear(a: Address, b: Address, bit: nat)
    requires bit < 48
    ensures AddressBit(XorAddr(a, b), bit) == Xor(AddressBit(a, bit), AddressBit(b, bit))
  {
    hide ByteBit, Xor, XorByte, XorAddr;
    var i, k := bit / 8, bit % 8;
    XorAddrAt(a, b, i);
    ByteBitLinear(a[i], b[i], k);
  }

  lemma XorAssociates(x: bv32, y: bv32, z: bv32)
    ensures Xor(Xor(x, y), z) == Xor(x, Xor(y, z))
  {
  }

  lemma XorCommutes(x: bv32, y: bv32)
    ensures Xor(x, y) == Xor(y, x)
  {
  }

  lemma XorRegroups(x: bv32, y: bv32, u: bv32, v: bv32)
    ensures Xor(Xor(x, y), Xor(u, v)) == Xor(Xor(x, u), Xor(y, v))
  {
    hide Xor;
    XorAssociates(x, y, Xor(u, v));
    XorAssociates(y, u, v);
    XorCommutes(y, u);
    XorAssociates(u, y, v);
    XorAssociates(x, u, Xor(y, v));
  }

  lemma ZeroXor()
    ensures Xor(0, 0) == 0
  {
  }

  lemma {:induction false} HashBitLinear(a: Address, b: Address, i: nat, n: nat)
    requires i < 6 && n <= 8
    ensures HashBit(XorAddr(a, b), i, n) == Xor(HashBit(a, i, n), HashBit(b, i, n))
    decreases n
  {
    hide AddressBit, Xor, XorAddr, HashBit;
    var c := XorAddr(a, b);
    HashBitStep(a, i, if n > 0 then n - 1 else 0);
    HashBitStep(b, i, if n > 0 then n - 1 else 0);
    HashBitStep(c, i, if n > 0 then n - 1 else 0);
    if n == 0 {
      ZeroXor();
    } else {
      var bit := (n - 1) * 6 + i;
      HashBitLinear(a, b, i, n - 1);
      AddressBitLinear(a, b, bit);
      XorRegroups(HashBit(a, i, n - 1), HashBit(b, i, n - 1), AddressBit(a, bit), AddressBit(b, bit));
    }
  }

  lemma HashIsAssembled(addr: Address)
    ensures HashIndex(addr, 6) == Assembled(HashBit(addr, 0, 8), HashBit(addr, 1, 8), HashBit(addr, 2, 8),
                                            HashBit(addr, 3, 8), HashBit(addr, 4, 8), HashBit(addr, 5, 8))
  {
    hide HashBit, HashIndex, OrShifted;
    HashIndexStep(addr, 0);
    HashIndexStep(addr, 1);
    HashIndexStep(addr, 2);
    HashIndexStep(addr, 3);
    HashIndexStep(addr, 4);
    HashIndexStep(addr, 5);
  }

  function XorWide(x: bv64, y: bv64): bv64 {
    x ^ y
  }

  lemma BitAtLinear0(x: bv64, y: bv64)
    ensures BitAt(XorWide(x, y), 0) == Xor(BitAt(x, 0), BitAt(y, 0))
  {
  }

  lemma BitAtLinear1(x: bv64, y: bv64)
    ensures BitAt(XorWide(x, y), 1) == Xor(BitAt(x, 1), BitAt(y, 1))
  {
  }

  lemma BitAtLinear2(x: bv64, y: bv64)
    ensures BitAt(XorWide(x, y), 2) == Xor(BitAt(x, 2), BitAt(y, 2))
  {
  }

  lemma BitAtLinear3(x: bv64, y: bv64)
    ensures BitAt(XorWide(x, y), 3) == Xor(BitAt(x, 3), BitAt(y, 3))
  {
  }

  lemma BitAtLinear4(x: bv64, y: bv64)
    ensures BitAt(XorWide(x, y), 4) == Xor(BitAt(x, 4), BitAt(y, 4))
  {
  }

  lemma BitAtLinear5(x: bv64, y: bv64)
    ensures BitAt(XorWide(x, y), 5) == Xor(BitAt(x, 5), BitAt(y, 5))
  {
  }

  lemma NarrowXor(x: bv64, y: bv64)
    requires x < 64 && y < 64
    ensures XorWide(x, y) & 0x3F == XorWide(x, y) && XorWide(x, y) < 64
    ensures XorWide(x, y) as bv32 == Xor(x as bv32, y as bv32)
  {
  }

  /** The bits of the XOR are those of the hash. */
  lemma BitsOfXor(a: Address, b: Address)
    ensures
      var c := XorAddr(a, b);
      var x := XorWide(DigitXor(Value(a)), DigitXor(Value(b)));
      && HashBit(c, 0, 8) == BitAt(x, 0) && HashBit(c, 1, 8) == BitAt(x, 1) && HashBit(c, 2, 8) == BitAt(x, 2)
      && HashBit(c, 3, 8) == BitAt(x, 3) && HashBit(c, 4, 8) == BitAt(x, 4) && HashBit(c, 5, 8) == BitAt(x, 5)
  {
    hide HashBit, XorAddr, Xor, XorWide, BitAt, DigitXor, Value;
    var x, y := DigitXor(Value(a)), DigitXor(Value(b));
    HashBit0(a);
    HashBit0(b);
    HashBitLinear(a, b, 0, 8);
    BitAtLinear0(x, y);
    HashBit1(a);
    HashBit1(b);
    HashBitLinear(a, b, 1, 8);
    BitAtLinear1(x, y);
    HashBit2(a);
    HashBit2(b);
    HashBitLinear(a, b, 2, 8);
    BitAtLinear2(x, y);
    HashBit3(a);
    HashBit3(b);
    HashBitLinear(a, b, 3, 8);
    BitAtLinear3(x, y);
    HashBit4(a);
    HashBit4(b);
    HashBitLinear(a, b, 4, 8);
    BitAtLinear4(x, y);
    HashBit5(a);
    HashBit5(b);
    HashBitLinear(a, b, 5, 8);
    BitAtLinear5(x, y);
  }

  /** The hash is linear: the hash of the XOR of two addresses is the XOR of their hashes. */
  lemma HashIsLinear(a: Address, b: Address)
    ensures HashIndex(XorAddr(a, b), 6) == Xor(HashIndex(a, 6), HashIndex(b, 6))
  {
    hide HashIndex, HashBit, XorAddr, Xor, XorWide, Assembled, BitAt, DigitXor, Value;
    HashIsDigitXor(a);
    HashIsDigitXor(b);
    HashIsAssembled(XorAddr(a, b));
    BitsOfXor(a, b);
    NarrowXor(DigitXor(Value(a)), DigitXor(Value(b)));
    SixBits(XorWide(DigitXor(Value(a)), DigitXor(Value(b))));
  }

  // ------------------------------------------------------------ the filter

  predicate BitSet(x: bv32, b: bv32)
    requires b < 32
  {
    (x >> b) & 1 == 1
  }

  function WithBit(x: bv32, b: bv32): bv32
    requires b < 32
  {
    x | (1 << b)
  }

  /** The pair of hash registers as a 64-bit bitmap. */
  predicate InFilter(lo: bv32, hi: bv32, b: bv32)
    requires b < 64
  {
    if b < 32 then BitSet(lo, b) else BitSet(hi, b - 32)
  }

  /** The body of the loop over the address list. */
  function AddToFilter(lo: bv32, hi: bv32, b: bv32): (bv32, bv32)
    requires b < 64
  {
    if b >= 32 then (lo, WithBit(hi, b - 32)) else (WithBit(lo, b), hi)
  }

  lemma SetOneBit(x: bv32, b: bv32, c: bv32)
    requires b < 32 && c < 32
    ensures BitSet(WithBit(x, b), c) <==> BitSet(x, c) || c == b
  {
  }

  lemma AddedOne(lo: bv32, hi: bv32, b: bv32, c: bv32)
    requires b < 64 && c < 64
    ensures var (lo', hi') := AddToFilter(lo, hi, b);
      InFilter(lo', hi', c) <==> InFilter(lo, hi, c) || c == b
  {
    hide BitSet, WithBit;
    if b < 32 && c < 32 {
      SetOneBit(lo, b, c);
    } else if b >= 32 && c >= 32 {
      SetOneBit(hi, b - 32, c - 32);
    }
  }

  lemma EmptyFilter(c: bv32)
    requires c < 64
    ensures !InFilter(0, 0, c)
  {
  }

  /** Some listed address hashes to `b`. */
  ghost predicate Listed(addrs: seq<Address>, b: bv32) {
    exists k :: 0 <= k < |addrs| && HashIndex(addrs[k], 6) == b
  }

  lemma ListedOneMore(addrs: seq<Address>, i: nat, b: bv32)
    requires i < |addrs|
    ensures Listed(addrs[..i + 1], b) <==> Listed(addrs[..i], b) || HashIndex(addrs[i], 6) == b
  {
    hide HashIndex;
    var longer := addrs[..i + 1];
    assert longer[i] == addrs[i];
    if Listed(addrs[..i], b) {
      var k :| 0 <= k < i && HashIndex(addrs[..i][k], 6) == b;
      assert longer[k] == addrs[..i][k];
    }
    if Listed(longer, b) {
      var k :| 0 <= k < i + 1 && HashIndex(longer[k], 6) == b;
      assert k < i ==> longer[k] == addrs[..i][k];
    }
  }

  /** The registers hold the bitmap of a list. */
  ghost predicate FilterOf(addrs: seq<Address>, lo: bv32, hi: bv32) {
    forall b: bv32 {:trigger InFilter(lo, hi, b)} :: b < 64 ==> (InFilter(lo, hi, b) <==> Listed(addrs, b))
  }

  /** lan865x_set_specific_multicast_addr, up to the register writes: bit `b` of high:low is set exactly when some
      listed address hashes to `b`. */
  method SetSpecificMulticastAddr(addrs: seq<Address>) returns (hashLo: bv32, hashHi: bv32)
    ensures FilterOf(addrs, hashLo, hashHi)
  {
    hide HashIndex, InFilter, AddToFilter, DigitXor, Value;
    hashLo, hashHi := 0, 0;
    forall b: bv32 | b < 64 ensures !InFilter(0, 0, b) { EmptyFilter(b); }
    for i := 0 to |addrs|
      invariant FilterOf(addrs[..i], hashLo, hashHi)
    {
      var bitNum := Hash(addrs[i]);
      ghost var lo, hi := hashLo, hashHi;
      var added := AddToFilter(hashLo, hashHi, bitNum);
      hashLo, hashHi := added.0, added.1;
      forall b: bv32 | b < 64
        ensures InFilter(hashLo, hashHi, b) <==> Listed(addrs[..i + 1], b)
      {
        AddedOne(lo, hi, bitNum, b);
        ListedOneMore(addrs, i, b);
      }
    }
    assert addrs[..|addrs|] == addrs;
  }

  // Words that differ in a byte differ in one of its bits.
  lemma ByteDiffers0(x: bv32, y: bv32)
    requires x & 0xFF != y & 0xFF
    ensures BitSet(x, 0) != BitSet(y, 0) || BitSet(x, 1) != BitSet(y, 1) || BitSet(x, 2) != BitSet(y, 2)
         || BitSet(x, 3) != BitSet(y, 3) || BitSet(x, 4) != BitSet(y, 4) || BitSet(x, 5) != BitSet(y, 5)
         || BitSet(x, 6) != BitSet(y, 6) || BitSet(x, 7) != BitSet(y, 7)
  {
  }

  lemma ByteDiffers1(x: bv32, y: bv32)
    requires x & 0xFF00 != y & 0xFF00
    ensures BitSet(x, 8) != BitSet(y, 8) || BitSet(x, 9) != BitSet(y, 9) || BitSet(x, 10) != BitSet(y, 10)
         || BitSet(x, 11) != BitSet(y, 11) || BitSet(x, 12) != BitSet(y, 12) || BitSet(x, 13) != BitSet(y, 13)
         || BitSet(x, 14) != BitSet(y, 14) || BitSet(x, 15) != BitSet(y, 15)
  {
  }

  lemma ByteDiffers2(x: bv32, y: bv32)
    requires x & 0xFF0000 != y & 0xFF0000
    ensures BitSet(x, 16) != BitSet(y, 16) || BitSet(x, 17) != BitSet(y, 17) || BitSet(x, 18) != BitSet(y, 18)
         || BitSet(x, 19) != BitSet(y, 19) || BitSet(x, 20) != BitSet(y, 20) || BitSet(x, 21) != BitSet(y, 21)
         || BitSet(x, 22) != BitSet(y, 22) || BitSet(x, 23) != BitSet(y, 23)
  {
  }

  lemma ByteDiffers3(x: bv32, y: bv32)
    requires x & 0xFF000000 != y & 0xFF000000
    ensures BitSet(x, 24) != BitSet(y, 24) || BitSet(x, 25) != BitSet(y, 25) || BitSet(x, 26) != BitSet(y, 26)
         || BitSet(x, 27) != BitSet(y, 27) || BitSet(x, 28) != BitSet(y, 28) || BitSet(x, 29) != BitSet(y, 29)
         || BitSet(x, 30) != BitSet(y, 30) || BitSet(x, 31) != BitSet(y, 31)
  {
  }

  lemma BytesDiffer(x: bv32, y: bv32)
    requires x != y
    ensures x & 0xFF != y & 0xFF || x & 0xFF00 != y & 0xFF00 || x & 0xFF0000 != y & 0xFF0000
         || x & 0xFF000000 != y & 0xFF000000
  {
  }

  lemma BitsDetermine(x: bv32, y: bv32)
    requires forall b: bv32 {:trigger BitSet(x, b)} :: b < 32 ==> (BitSet(x, b) <==> BitSet(y, b))
    ensures x == y
  {
    hide BitSet;
    if x != y {
      BytesDiffer(x, y);
      if x & 0xFF != y & 0xFF {
        ByteDiffers0(x, y);
      } else if x & 0xFF00 != y & 0xFF00 {
        ByteDiffers1(x, y);
      } else if x & 0xFF0000 != y & 0xFF0000 {
        ByteDiffers2(x, y);
      } else {
        ByteDiffers3(x, y);
      }
    }
  }

  lemma UpperHalf(b: bv32)
    requires b < 32
    ensures 32 <= b + 32 < 64 && (b + 32) - 32 == b
  {
  }

  lemma SameListed(addrs: seq<Address>, others: seq<Address>, b: bv32)
    requires forall a :: a in addrs <==> a in others
    ensures Listed(addrs, b) <==> Listed(others, b)
  {
    hide HashIndex;
    if Listed(addrs, b) {
      var k :| 0 <= k < |addrs| && HashIndex(addrs[k], 6) == b;
      assert addrs[k] in others;
    }
    if Listed(others, b) {
      var k :| 0 <= k < |others| && HashIndex(others[k], 6) == b;
      assert others[k] in addrs;
    }
  }

  /** Lists with the same addresses, in whatever order and multiplicity, give the same registers. */
  lemma FilterIgnoresOrder(addrs: seq<Address>, others: seq<Address>, lo: bv32, hi: bv32, lo': bv32, hi': bv32)
    requires forall a :: a in addrs <==> a in others
    requires FilterOf(addrs, lo, hi) && FilterOf(others, lo', hi')
    ensures lo == lo' && hi == hi'
  {
    hide HashIndex, BitSet;
    forall b: bv32 | b < 64
      ensures InFilter(lo, hi, b) <==> InFilter(lo', hi', b)
    {
      SameListed(addrs, others, b);
    }
    forall b: bv32 | b < 32
      ensures BitSet(lo, b) <==> BitSet(lo', b)
    {
      assert InFilter(lo, hi, b) <==> InFilter(lo', hi', b);
    }
    forall b: bv32 | b < 32
      ensures BitSet(hi, b) <==> BitSet(hi', b)
    {
      UpperHalf(b);
      assert InFilter(lo, hi, b + 32) <==> InFilter(lo', hi', b + 32);
    }
    BitsDetermine(lo, lo');
    BitsDetermine(hi, hi');
  }
}
