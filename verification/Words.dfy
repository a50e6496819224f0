/** 32-bit words as the driver handles them: odd parity and big-endian bytes. */
module Words {

  type byte = bv8

  datatype Option<+T> = None | Some(value: T)

  /** oa_tc6_get_parity: the shift-and-multiply parity, one when `p` has an even number of ones. */
  function Parity(p: bv32): bv32 {
    var a := p ^ (p >> 1);
    var b := a ^ (a >> 2);
    var c := (b & 0x11111111) * 0x11111111;
    if (c >> 28) & 1 == 0 then 1 else 0
  }

  function LowBit(w: bv32): nat {
    if w & 1 == 1 then 1 else 0
  }

  /** The number of ones in a word, counted bit by bit. */
  function Weight(w: bv32): nat
    decreases w
  {
    if w == 0 then 0 else LowBit(w) + Weight(w >> 1)
  }

  ghost predicate OddWeight(w: bv32) {
    Weight(w) % 2 == 1
  }

  /** `m` has exactly one bit set. */
  predicate SingleBit(m: bv32) {
    m != 0 && m & (m - 1) == 0
  }

  /** The XOR of the 32 bits of `p`, by halving; it links Parity to Weight. */
  predicate XorOfBits(p: bv32) {
    var a := p ^ (p >> 16);
    var b := a ^ (a >> 8);
    var c := b ^ (b >> 4);
    var d := c ^ (c >> 2);
    (d ^ (d >> 1)) & 1 == 1
  }

  lemma XorStep(w: bv32)
    ensures XorOfBits(w) == ((LowBit(w) == 1) != XorOfBits(w >> 1))
  {
  }

  lemma {:induction false} AnyXorIsWeight(xorOf: bv32 -> bool, w: bv32)
    requires forall v :: xorOf(v) == ((LowBit(v) == 1) != xorOf(v >> 1))
    requires !xorOf(0)
    ensures xorOf(w) == OddWeight(w)
    decreases w
  {
    if w != 0 {
      AnyXorIsWeight(xorOf, w >> 1);
      assert xorOf(w) == ((LowBit(w) == 1) != xorOf(w >> 1));
    }
  }

  lemma XorIsWeight(w: bv32)
    ensures XorOfBits(w) == OddWeight(w)
  {
    forall v ensures XorOfBits(v) == ((LowBit(v) == 1) != XorOfBits(v >> 1)) { XorStep(v); }
    AnyXorIsWeight(XorOfBits, w);
  }

  // The two bit-vector facts below are stated with every intermediate word spelled
  // out, which is the form the solver normalises.
  lemma MultiplyIsXor(p: bv32)
    ensures
      var a := p ^ (p >> 1);
      var b := a ^ (a >> 2);
      var c := (b & 0x11111111) * 0x11111111;
      var a' := p ^ (p >> 16);
      var b' := a' ^ (a' >> 8);
      var c' := b' ^ (b' >> 4);
      var d' := c' ^ (c' >> 2);
      ((c >> 28) & 1 == 0) == !((d' ^ (d' >> 1)) & 1 == 1)
  {
  }

  lemma FlipIsXor(p: bv32, m: bv32)
    requires SingleBit(m)
    ensures
      var a := p ^ (p >> 16);
      var b := a ^ (a >> 8);
      var c := b ^ (b >> 4);
      var d := c ^ (c >> 2);
      var i := (p ^ m) ^ ((p ^ m) >> 16);
      var j := i ^ (i >> 8);
      var k := j ^ (j >> 4);
      var l := k ^ (k >> 2);
      ((l ^ (l >> 1)) & 1 == 1) != ((d ^ (d >> 1)) & 1 == 1)
  {
  }

  lemma ParityXor(p: bv32)
    ensures Parity(p) == 0 <==> XorOfBits(p)
  {
    MultiplyIsXor(p);
  }

  lemma FlipXor(p: bv32, m: bv32)
    requires SingleBit(m)
    ensures XorOfBits(p ^ m) != XorOfBits(p)
  {
    FlipIsXor(p, m);
  }

  /** The fast parity is one minus the XOR of all bits, for every word. */
  lemma ParityCountsOnes(p: bv32)
    ensures Parity(p) == 0 || Parity(p) == 1
    ensures Parity(p) == 0 <==> OddWeight(p)
  {
    ParityXor(p);
    XorIsWeight(p);
  }

  /** Flipping any single bit changes the parity of the number of ones. */
  lemma FlipChangesWeight(p: bv32, m: bv32)
    requires SingleBit(m)
    ensures OddWeight(p ^ m) != OddWeight(p)
  {
    FlipXor(p, m);
    XorIsWeight(p);
    XorIsWeight(p ^ m);
  }

  lemma OrOneIsFlip(h: bv32)
    requires h & 1 == 0
    ensures h | 1 == h ^ 1 && h | 0 == h
  {
  }

  lemma OddWithParityBit(h: bv32, p: bv32)
    requires h & 1 == 0
    requires p == 0 || p == 1
    requires p == 0 <==> OddWeight(h)
    ensures OddWeight(h | p)
  {
    OrOneIsFlip(h);
    if p == 1 {
      FlipChangesWeight(h, 1);
    }
  }

  /** A header whose parity bit is still clear gets odd weight from its parity bit. */
  lemma ParityMakesOdd(h: bv32)
    requires h & 1 == 0
    ensures OddWeight(h | Parity(h))
  {
    ParityCountsOnes(h);
    OddWithParityBit(h, Parity(h));
  }

  // ------------------------------------------------------------ big-endian bytes

  /** cpu_to_be32 followed by a store: most significant byte first. */
  function Be32(w: bv32): (b: seq<byte>)
    ensures |b| == 4
  {
    [(w >> 24) as byte, ((w >> 16) & 0xff) as byte, ((w >> 8) & 0xff) as byte, (w & 0xff) as byte]
  }

  function FromBe32(b: seq<byte>): bv32
    requires |b| == 4
  {
    ((b[0] as bv32) << 24) | ((b[1] as bv32) << 16) | ((b[2] as bv32) << 8) | (b[3] as bv32)
  }

  lemma Be32RoundTrip(w: bv32)
    ensures FromBe32(Be32(w)) == w
  {
  }

  // ------------------------------------------------------------ slices

  lemma SliceOfSlice(buf: seq<byte>, lo: nat, hi: nat, i: nat, j: nat)
    requires lo <= hi <= |buf| && i <= j <= hi - lo
    ensures buf[lo..hi][i..j] == buf[lo + i..lo + j]
  {
    var left, right := buf[lo..hi][i..j], buf[lo + i..lo + j];
    forall k | 0 <= k < j - i
      ensures left[k] == right[k]
    {
      assert left[k] == buf[lo..hi][i + k] == buf[lo + (i + k)];
    }
  }
}
