/** The PTP clock: a fixed-point rate, its register packing, and a nanosecond clock split over three registers. */
module Ptp {
  import opened Words

  const NS_IN_1S: nat := 1_000_000_000
  const U32: nat := 0x1_0000_0000
  const U64: nat := 0x1_0000_0000_0000_0000
  const TICKS_SCALE: nat := 40
  const NOMINAL: nat := 671_088_640 // TICKS_SCALE << 24

  // ------------------------------------------------------------ the split clock

  /** The registers MAC_TN, MAC_TSL and MAC_TSH. */
  datatype ClockRegs = ClockRegs(tn: nat, tsl: nat, tsh: nat)

  /** The timestamps that fit the registers read back. */
  const CLOCK_RANGE: nat := U32 * NS_IN_1S

  /** lan865x_set_sys_clock: a register takes the low 32 bits of what is written to it. */
  function StoredClock(timestamp: nat): ClockRegs {
    var sec := timestamp / NS_IN_1S;
    ClockRegs(timestamp % NS_IN_1S % 0x4000_0000, sec % U32, sec / U32 % 0x1_0000)
  }

  /** lan865x_get_sys_clock: the high seconds are read but not used. */
  function ReadClock(r: ClockRegs): nat {
    (r.tsl * NS_IN_1S + r.tn % 0x4000_0000) % U64
  }

  /** A timestamp survives the registers exactly when its seconds fit 32 bits. */
  lemma ClockRoundTripIff(timestamp: nat)
    requires timestamp < U64
    ensures ReadClock(StoredClock(timestamp)) == timestamp <==> timestamp < 0x1_0000_0000 * 1_000_000_000
  {
    var sec, nsec := timestamp / NS_IN_1S, timestamp % NS_IN_1S;
    assert timestamp == sec * NS_IN_1S + nsec;
    assert nsec % 0x4000_0000 == nsec;
    var low := sec % U32;
    assert low * NS_IN_1S + nsec < U64;
  }

  /** The registers hold a number of nanoseconds: 30 bits of nanoseconds, 32 and 16 bits of seconds. */
  predicate HoldsTime(r: ClockRegs, time: int) {
    && r.tn < 1_000_000_000 && r.tsl < 0x1_0000_0000 && r.tsh < 0x1_0000
    && (r.tsh * 0x1_0000_0000 + r.tsl) * 1_000_000_000 + r.tn == time
  }

  /** Nothing is lost on the way into the registers; only reading drops the upper seconds. */
  lemma RegistersHoldAll(timestamp: nat)
    requires timestamp < 0x1_0000_0000_0000_0000
    ensures HoldsTime(StoredClock(timestamp), timestamp)
  {
    var sec, nsec := timestamp / NS_IN_1S, timestamp % NS_IN_1S;
    assert timestamp == sec * NS_IN_1S + nsec;
    assert nsec % 0x4000_0000 == nsec;
    assert sec == sec / U32 * U32 + sec % U32;
    assert sec / U32 < 0x1_0000;
  }

  /** A normalised time that fits goes into the registers as it is. */
  lemma NormalisedTime(r: ClockRegs, sec: nat, nsec: nat)
    requires sec < 0x1_0000_0000 && nsec < 1_000_000_000 && HoldsTime(r, sec * 1_000_000_000 + nsec)
    ensures r == ClockRegs(nsec, sec, 0)
  {
    var high := r.tsh * 0x1_0000_0000 + r.tsl;
    assert high == sec && r.tn == nsec;
  }

  datatype ClockOp = SetTime(sec: int, nsec: int) | AdjTime(delta: int) | GetTime

  /** The host's view: one integer number of nanoseconds. */
  function Ideal(clock: int, op: ClockOp): int {
    match op
    case SetTime(sec, nsec) => sec * NS_IN_1S + nsec
    case AdjTime(delta) => clock + delta
    case GetTime => clock
  }

  /** The registers, and whether the lock around every operation is held. */
  datatype Clock = Clock(regs: ClockRegs, locked: bool)

  /** The clock after an operation, in 64-bit arithmetic; None if the call never gets the lock. Adjusting by zero
      returns early, with the lock held. */
  function AfterOp(c: Clock, op: ClockOp): Option<Clock> {
    if c.locked then None
    else
      match op
      case SetTime(sec, nsec) => Some(Clock(StoredClock((sec * NS_IN_1S + nsec) % U64), false))
      case AdjTime(delta) =>
        if delta == 0 then Some(c.(locked := true))
        else Some(Clock(StoredClock((ReadClock(c.regs) + delta) % U64), false))
      case GetTime => Some(c)
  }

  function AfterOps(c: Clock, ops: seq<ClockOp>): Option<Clock> {
    if ops == [] then Some(c)
    else
      match AfterOps(c, ops[..|ops| - 1])
      case None => None
      case Some(c') => AfterOp(c', ops[|ops| - 1])
  }

  function IdealAfter(clock: int, ops: seq<ClockOp>): int {
    if ops == [] then clock else Ideal(IdealAfter(clock, ops[..|ops| - 1]), ops[|ops| - 1])
  }

  /** The host's clock stays within the registers' range. */
  predicate InRange(clock: int, ops: seq<ClockOp>) {
    0 <= IdealAfter(clock, ops) < CLOCK_RANGE && (ops == [] || InRange(clock, ops[..|ops| - 1]))
  }

  /** Over any run of operations in range, the three registers behave as one integer clock; all calls return if and
      only if no call adjusts by zero, except possibly the last. */
  lemma {:induction false} ClockRefines(c: Clock, clock: int, ops: seq<ClockOp>)
    requires InRange(clock, ops) && ReadClock(c.regs) == clock && !c.locked
    ensures AfterOps(c, ops).Some? <==> forall k :: 0 <= k < |ops| - 1 ==> ops[k] != AdjTime(0)
    ensures AfterOps(c, ops).Some? ==>
              && ReadClock(AfterOps(c, ops).value.regs) == IdealAfter(clock, ops)
              && (AfterOps(c, ops).value.locked <==> ops != [] && ops[|ops| - 1] == AdjTime(0))
  {
    hide StoredClock, ReadClock;
    if ops != [] {
      var front := ops[..|ops| - 1];
      ClockRefines(c, clock, front);
      var t := IdealAfter(clock, ops);
      assert t % U64 == t;
      ClockRoundTripIff(t);
      if |ops| > 1 {
        assert front[|ops| - 2] == ops[|ops| - 2];
      }
      assert forall k :: 0 <= k < |front| ==> front[k] == ops[k];
    }
  }

  // ------------------------------------------------------------ the rate

  /** mul_u64_u64_div_u64(TICKS_SCALE << 8, |scaled_ppm|, 1000000) */
  function Diff(p: nat): nat {
    TICKS_SCALE * 256 * p / 1_000_000
  }

  /** The increment that lan865x_ptp_adjfine computes for a non-zero scaled_ppm. */
  function Rate(p: int): nat {
    (if p < 0 then NOMINAL - Diff(-p) else NOMINAL + Diff(p)) % U64
  }

  /** |scaled_ppm| up to 10^6 parts per million. */
  const MAX_PPM: int := 65_536_000_000

  /** The increment as 24 fractional bits spread over MAC_TI and MAC_TISUBN (bytes 00123456 stored as 56001234). */
  function PackTi(ticks: nat): nat {
    ticks / 0x100_0000 % U32 % 256
  }

  function PackTisubn(ticks: nat): nat {
    var subnano := ticks % 0x100_0000;
    subnano / 256 + subnano % 256 * 0x100_0000
  }

  function Unpack(ti: nat, tisubn: nat): nat {
    ti * 0x100_0000 + tisubn % 0x1_0000 * 256 + tisubn / 0x100_0000
  }

  lemma SubnanoSplits(subnano: nat)
    requires subnano < 0x100_0000
    ensures
      var t := subnano / 256 + subnano % 256 * 0x100_0000;
      t % 0x1_0000 * 256 + t / 0x100_0000 == subnano && t < U32
  {
    var hi, lo := subnano / 256, subnano % 256;
    var t := hi + lo * 0x100_0000;
    assert t == (lo * 256) * 0x1_0000 + hi && hi < 0x1_0000;
    assert t % 0x1_0000 == hi;
    assert t / 0x100_0000 == lo;
  }

  lemma UnpackPacked(ticks: nat)
    ensures Unpack(PackTi(ticks), PackTisubn(ticks)) == PackTi(ticks) * 0x100_0000 + ticks % 0x100_0000
    ensures PackTisubn(ticks) < U32
  {
    SubnanoSplits(ticks % 0x100_0000);
  }

  lemma LowByte(nano: nat)
    ensures nano % U32 % 256 == nano % 256
  {
    var high, low := nano / U32, nano % U32;
    assert nano == (high * 0x100_0000) * 256 + low;
  }

  lemma LowWord(nano: nat, subnano: nat)
    requires subnano < 0x100_0000
    ensures (nano * 0x100_0000 + subnano) % U32 == nano % 256 * 0x100_0000 + subnano
  {
    var high, low := nano / 256, nano % 256;
    assert nano * 0x100_0000 + subnano == high * U32 + (low * 0x100_0000 + subnano);
    assert low * 0x100_0000 + subnano < U32;
  }

  /** Whatever the increment, the register pair holds its lower 32 bits. */
  lemma PackKeepsLow(ticks: nat)
    ensures Unpack(PackTi(ticks), PackTisubn(ticks)) == ticks % U32
  {
    hide Unpack, PackTisubn;
    UnpackPacked(ticks);
    LowByte(ticks / 0x100_0000);
    LowWord(ticks / 0x100_0000, ticks % 0x100_0000);
  }

  /** The register pair holds the increment exactly when its integer part fits eight bits. */
  lemma PackRoundTripIff(ticks: nat)
    requires ticks < U64
    ensures PackTi(ticks) < 256 && PackTisubn(ticks) < U32
    ensures Unpack(PackTi(ticks), PackTisubn(ticks)) == ticks <==> ticks < U32
  {
    hide Unpack;
    UnpackPacked(ticks);
    var nano := ticks / 0x100_0000;
    assert nano % U32 % 256 == nano <==> nano < 256;
  }

  /** Within the range of a million parts per million, either way: the rate fits its registers, differs from the nominal
      40 * 2^24 by 40 * 2^24 * p / (2^16 * 10^6), rounded towards zero, and opposite adjustments cancel. */
  lemma RateIsAccurate(p: int)
    requires -65_536_000_000 <= p <= 65_536_000_000
    ensures Rate(p) <= 2 * 671_088_640 < 0x1_0000_0000
    ensures p >= 0 ==> 0 <= 10_240 * p - 1_000_000 * (Rate(p) - 671_088_640) < 1_000_000
    ensures p <= 0 ==> 0 <= 10_240 * -p - 1_000_000 * (671_088_640 - Rate(p)) < 1_000_000
    ensures Rate(p) + Rate(-p) == 2 * 671_088_640
  {
    var q := if p < 0 then -p else p;
    assert Diff(q) * 1_000_000 <= TICKS_SCALE * 256 * q < Diff(q) * 1_000_000 + 1_000_000;
    assert Diff(q) <= NOMINAL;
  }

  lemma DiffMonotone(p: nat, q: nat)
    requires p <= q
    ensures Diff(p) <= Diff(q)
  {
    var a, b := TICKS_SCALE * 256 * p, TICKS_SCALE * 256 * q;
    assert a <= b;
    assert Diff(p) * 1_000_000 <= a && b < Diff(q) * 1_000_000 + 1_000_000;
  }

  /** A larger adjustment never gives a smaller increment. */
  lemma RateMonotone(p: int, q: int)
    requires -MAX_PPM <= p <= q <= MAX_PPM
    ensures Rate(p) <= Rate(q)
  {
    RateIsAccurate(p);
    RateIsAccurate(q);
    var a, b := if p < 0 then -p else p, if q < 0 then -q else q;
    assert Diff(a) <= NOMINAL && Diff(b) <= NOMINAL by {
      DiffMonotone(a, MAX_PPM);
      DiffMonotone(b, MAX_PPM);
    }
    if q < 0 {
      DiffMonotone(b, a);
    } else if p >= 0 {
      DiffMonotone(a, b);
    }
  }

  /** The stored increment after one call of lan865x_ptp_adjfine; a zero adjustment returns early. */
  function Adjusted(rate: nat, p: int): nat {
    if p == 0 then rate else Rate(p) % U32
  }

  function AdjustedAll(rate: nat, ps: seq<int>): nat {
    if ps == [] then rate else Adjusted(AdjustedAll(rate, ps[..|ps| - 1]), ps[|ps| - 1])
  }

  /** A call puts the requested rate into force exactly if the request is not zero, or the rate was nominal anyway. */
  lemma RequestedRateIff(rate: nat, p: int)
    requires rate < U32 && -MAX_PPM <= p <= MAX_PPM
    ensures Adjusted(rate, p) == Rate(p) <==> p != 0 || rate == NOMINAL
  {
    RateIsAccurate(p);
  }

  /** Adjustments too small to change the increment. */
  lemma NominalIff(p: int)
    requires -MAX_PPM <= p <= MAX_PPM
    ensures Rate(p) == NOMINAL <==> -98 < p < 98
  {
    RateIsAccurate(p);
    var q := if p < 0 then -p else p;
    assert Diff(q) * 1_000_000 <= TICKS_SCALE * 256 * q < Diff(q) * 1_000_000 + 1_000_000;
  }

  /** Over any run of calls the stored increment is that of the last non-zero adjustment, and nothing before it
      matters. */
  lemma {:induction false} LastAdjustmentCounts(rate: nat, ps: seq<int>, k: nat)
    requires forall p <- ps :: -MAX_PPM <= p <= MAX_PPM
    requires k < |ps| && ps[k] != 0 && forall j :: k < j < |ps| ==> ps[j] == 0
    ensures AdjustedAll(rate, ps) == Rate(ps[k])
  {
    var n := |ps| - 1;
    assert forall p <- ps[..n] :: p in ps;
    if k < n {
      LastAdjustmentCounts(rate, ps[..n], k);
    } else {
      assert ps[n] in ps;
      RateIsAccurate(ps[n]);
    }
  }

  lemma {:induction false} ZeroAdjustmentsKeep(rate: nat, ps: seq<int>)
    requires forall p <- ps :: p == 0
    ensures AdjustedAll(rate, ps) == rate
  {
    if ps != [] {
      var front := ps[..|ps| - 1];
      assert ps[|ps| - 1] in ps;
      assert forall p <- front :: p in ps;
      ZeroAdjustmentsKeep(rate, front);
    }
  }

  /** The last of the non-zero adjustments. */
  predicate LastNonZero(ps: seq<int>, k: nat) {
    k < |ps| && ps[k] != 0 && forall j :: k < j < |ps| ==> ps[j] == 0
  }

  lemma {:induction false} FindLastNonZero(ps: seq<int>) returns (k: nat)
    requires exists p <- ps :: p != 0
    ensures LastNonZero(ps, k)
  {
    var n := |ps| - 1;
    if ps[n] != 0 {
      k := n;
    } else {
      var p :| p in ps && p != 0;
      assert p in ps[..n];
      k := FindLastNonZero(ps[..n]);
    }
  }

  /** Ending a run of calls with a zero adjustment brings back the nominal rate if and only if there was nothing to
      bring back: no other adjustment was made and the run started at the nominal rate, or the last other one was too
      small to change it. */
  lemma ZeroRestoresIff(rate: nat, ps: seq<int>)
    requires forall p <- ps :: -MAX_PPM <= p <= MAX_PPM
    requires ps != [] && ps[|ps| - 1] == 0
    ensures AdjustedAll(rate, ps) == NOMINAL <==>
              ((forall p <- ps :: p == 0) && rate == NOMINAL)
              || exists k: nat :: LastNonZero(ps, k) && -98 < ps[k] < 98
  {
    if forall p <- ps :: p == 0 {
      ZeroAdjustmentsKeep(rate, ps);
      forall k: nat
        ensures !LastNonZero(ps, k)
      {
        if k < |ps| {
          assert ps[k] in ps;
        }
      }
    } else {
      var k := FindLastNonZero(ps);
      LastAdjustmentCounts(rate, ps, k);
      assert ps[k] in ps;
      NominalIff(ps[k]);
      forall k': nat | LastNonZero(ps, k')
        ensures k' == k
      {
      }
    }
  }

  /** A C long, and an s64. */
  type Long = n: int | -0x8000_0000_0000_0000 <= n < 0x8000_0000_0000_0000

  lemma {:induction false} WrapMultiple(q: nat, y: int)
    ensures (q * U64 + y) % U64 == y % U64
  {
    if q > 0 {
      WrapMultiple(q - 1, y);
      assert q * U64 + y == (q - 1) * U64 + y + U64;
    }
  }

  /** Wrapping before and after an addition is wrapping once. */
  lemma WrapTwice(x: nat, d: int)
    ensures (x % U64 + d) % U64 == (x + d) % U64
  {
    var q, r := x / U64, x % U64;
    assert x + d == q * U64 + (r + d);
    WrapMultiple(q, r + d);
  }

  lemma NarrowMod(q: int, b: nat)
    requires b < U32
    ensures (q * U32 + b) % U32 == b
  {
  }

  lemma WrapNarrow(x: int)
    ensures x % U64 % U32 == x % U32
  {
    var q, r := x / U64, x % U64;
    var a, b := r / U32, r % U32;
    assert x == (q * U32 + a) * U32 + b;
    NarrowMod(q * U32 + a, b);
  }

  /** The fields of struct ptp_device and the clock registers of the MAC. */
  class PtpDevice {
    var tiSubnanoB24: nat
    var tn: nat
    var tsl: nat
    var tsh: nat
    var ti: nat
    var tisubn: nat
    var locked: bool

    ghost function Regs(): ClockRegs
      reads this
    {
      ClockRegs(tn, tsl, tsh)
    }

    ghost function Now(): nat
      reads this
    {
      ReadClock(Regs())
    }

    ghost function State(): Clock
      reads this
    {
      Clock(Regs(), locked)
    }

    /** The register pair holds the stored increment. */
    ghost predicate RateValid()
      reads this
    {
      tiSubnanoB24 < U32 && Unpack(ti, tisubn) == tiSubnanoB24
    }

    /** ptp_device_init stores the nominal increment; the registers start with the same value. */
    constructor ()
      ensures tiSubnanoB24 == NOMINAL && RateValid() && Now() == 0 && !locked
    {
      tiSubnanoB24 := NOMINAL;
      locked := false;
      tn, tsl, tsh := 0, 0, 0;
      ti, tisubn := TICKS_SCALE, 0;
    }

    /** lan865x_set_sys_clock */
    method SetSysClock(timestamp: nat)
      requires timestamp < U64
      modifies `tn, `tsl, `tsh
      ensures Regs() == StoredClock(timestamp) && HoldsTime(Regs(), timestamp)
      ensures timestamp < CLOCK_RANGE <==> Now() == timestamp
    {
      var sec := timestamp / NS_IN_1S;
      var secH := sec / U32 % 0x1_0000;
      var nsec := timestamp % NS_IN_1S % 0x4000_0000;
      tn := nsec;
      tsl := sec % U32;
      tsh := secH;
      ClockRoundTripIff(timestamp);
      RegistersHoldAll(timestamp);
    }

    /** lan865x_get_sys_clock */
    method GetSysClock() returns (clock: nat)
      ensures clock == Now() < U64
      ensures clock == (tsl * 1_000_000_000 + tn % 0x4000_0000) % 0x1_0000_0000_0000_0000
    {
      var nsec, sec, secH := tn, tsl, tsh;
      clock := (sec * NS_IN_1S + nsec % 0x4000_0000) % U64;
    }

    /** lan865x_set_sys_clock_ti */
    method SetSysClockTi(subnanoB24: nat)
      requires subnanoB24 < U64
      modifies `ti, `tisubn
      ensures Unpack(ti, tisubn) == subnanoB24 % U32
    {
      var nano := subnanoB24 / 0x100_0000 % U32;
      ti := nano % 256;
      var subnano := subnanoB24 % 0x100_0000;
      tisubn := subnano / 256 + subnano % 256 * 0x100_0000;
      PackKeepsLow(subnanoB24);
    }

    /** lan865x_ptp_adjfine, for every argument: the registers hold the stored increment, if need be without its upper
        bits. */
    method AdjFine(scaledPpm: Long)
      requires RateValid() && !locked
      modifies `tiSubnanoB24, `ti, `tisubn
      ensures RateValid()
      ensures tiSubnanoB24 == Adjusted(old(tiSubnanoB24), scaledPpm)
      ensures
        var p := scaledPpm as int;
        var diff := 10_240 * (if p < 0 then -p else p) / 1_000_000;
        tiSubnanoB24 == if scaledPpm == 0 then old(tiSubnanoB24)
                        else (671_088_640 + if scaledPpm < 0 then -diff else diff) % 0x1_0000_0000
    {
      if scaledPpm == 0 {
        return;
      }
      hide Unpack;
      var isNegative, p := false, scaledPpm as int;
      if scaledPpm < 0 {
        isNegative, p := true, -(scaledPpm as int);
      }
      var diffB24 := TICKS_SCALE * 256 * p / 1_000_000;
      var ticksScale := (NOMINAL + if isNegative then -diffB24 else diffB24) % U64;
      assert ticksScale == Rate(scaledPpm);
      WrapNarrow(NOMINAL + if isNegative then -diffB24 else diffB24);
      hide Rate;
      SetSysClockTi(ticksScale);
      tiSubnanoB24 := ticksScale % U32;
    }

    /** lan865x_ptp_adjtime: an offset of zero returns early, without giving back the lock. */
    method AdjTime(deltaNs: Long)
      requires !locked
      modifies `tn, `tsl, `tsh, `locked
      ensures Some(State()) == AfterOp(old(State()), ClockOp.AdjTime(deltaNs))
      ensures locked <==> deltaNs == 0
      ensures deltaNs == 0 ==> Regs() == old(Regs())
      ensures deltaNs != 0 ==>
                var before := old(tsl) * 1_000_000_000 + old(tn) % 0x4000_0000;
                HoldsTime(Regs(), (before + deltaNs) % 0x1_0000_0000_0000_0000)
      ensures 0 <= old(Now()) + deltaNs < CLOCK_RANGE ==> Now() == old(Now()) + deltaNs
    {
      hide StoredClock, ReadClock, HoldsTime;
      locked := true;
      if deltaNs == 0 {
        return;
      }
      var hwTimestamp := GetSysClock();
      var isNegative, delta := false, deltaNs as int;
      if deltaNs < 0 {
        isNegative, delta := true, -(deltaNs as int);
      }
      var adjusted := (hwTimestamp + if isNegative then -delta else delta) % U64;
      WrapTwice(tsl * NS_IN_1S + tn % 0x4000_0000, deltaNs);
      SetSysClock(adjusted);
      locked := false;
    }

    /** lan865x_ptp_gettimex64 */
    method GetTime() returns (sec: nat, nsec: nat)
      requires !locked
      ensures sec * 1_000_000_000 + nsec == Now() && nsec < 1_000_000_000
      ensures tn < 1_000_000_000 && tsl < 0x1_0000_0000 ==> sec == tsl && nsec == tn
    {
      var timestamp := GetSysClock();
      sec, nsec := timestamp / NS_IN_1S, timestamp % NS_IN_1S;
    }

    /** lan865x_ptp_settime64: a normalised time that fits the registers is what GetTime then returns. */
    method SetTime(sec: int, nsec: int)
      requires !locked
      modifies `tn, `tsl, `tsh
      ensures Some(State()) == AfterOp(old(State()), ClockOp.SetTime(sec, nsec))
      ensures HoldsTime(Regs(), (sec * 1_000_000_000 + nsec) % 0x1_0000_0000_0000_0000)
      ensures 0 <= sec < 0x1_0000_0000 && 0 <= nsec < 1_000_000_000 ==>
                tn == nsec && tsl == sec && tsh == 0 && Now() == sec * 1_000_000_000 + nsec
    {
      hide StoredClock, ReadClock, HoldsTime;
      var hostTimestamp := (sec * NS_IN_1S + nsec) % U64;
      SetSysClock(hostTimestamp);
      if 0 <= sec < 0x1_0000_0000 && 0 <= nsec < 1_000_000_000 {
        NormalisedTime(Regs(), sec, nsec);
      }
    }
  }
}
