/** The sequential transfer loop is one of the schedules of the interleaved engine. */
module Schedule {
  import opened Words
  import opened Wire
  import opened Transmit
  import opened Receive
  import opened Engine
  import opened EngineProofs
  import opened Quiescence

  /** The SPI thread alone for `k` steps. */
  function Alone(s: Sys, k: nat, spiOk: bool, ins: seq<RxIn>): (r: Sys)
    requires Safe(s)
    ensures Safe(r)
    decreases k
  {
    if k == 0 then s else Alone(ThreadStep(s, spiOk, ins), k - 1, spiOk, ins)
  }

  function Repeat(a: Action, k: nat): seq<Action> {
    seq(k, _ => a)
  }

  /** Running alone is running a schedule without the other actors. */
  lemma {:induction false} AloneIsRun(s: Sys, k: nat, spiOk: bool, ins: seq<RxIn>)
    requires Safe(s)
    ensures Alone(s, k, spiOk, ins) == Run(s, Repeat(Thread(spiOk, ins), k))
    decreases k
  {
    hide ThreadStep;
    if k > 0 {
      var a := Thread(spiOk, ins);
      AloneIsRun(ThreadStep(s, spiOk, ins), k - 1, spiOk, ins);
      assert Repeat(a, k) == [a] + Repeat(a, k - 1);
      RunConcat(s, [a], Repeat(a, k - 1));
      assert [a][..0] == [];
      assert Run(s, [a]) == Step(Run(s, []), a);
    }
  }

  lemma {:induction false} AloneMore(s: Sys, j: nat, k: nat, spiOk: bool, ins: seq<RxIn>)
    requires Safe(s)
    ensures Alone(s, j + k, spiOk, ins) == Alone(Alone(s, j, spiOk, ins), k, spiOk, ins)
    decreases j
  {
    if j > 0 {
      AloneMore(ThreadStep(s, spiOk, ins), j - 1, k, spiOk, ins);
    }
  }

  /** `s` with chunks emitted and the transmit state and program counter moved on; completed frames aside. */
  predicate Advanced(s: Sys, s': Sys, t: TxState, cs: seq<TxChunk>) {
    && s'.tx == t && s'.round == s.round + cs && s'.log == s.log + cs
    && s'.bufOffset == s.bufOffset + CHUNK_SIZE * |cs|
    && s'.link == s.link && s'.intFlag == s.intFlag && s'.caller == s.caller && s'.accepted == s.accepted
    && s'.rounds == s.rounds
  }

  /** One fill step that still finds credit and a frame. */
  lemma FillStepFacts(s: Sys, used: nat, spiOk: bool, ins: seq<RxIn>)
    requires s.pc == Fill(used) && InBounds(s.tx) && used < s.link.credits && TakeWaiting(s.tx).ongoing.Some?
    ensures
      var (t', c) := AddChunk(TakeWaiting(s.tx));
      var s1 := ThreadStep(s, spiOk, ins);
      s1.pc == Fill(used + 1) && Advanced(s, s1, t', [c])
  {
  }

  /** The fill step that finds no credit or no frame. */
  lemma FillEndFacts(s: Sys, used: nat, spiOk: bool, ins: seq<RxIn>)
    requires s.pc == Fill(used) && InBounds(s.tx) && used <= s.link.credits
    requires used == s.link.credits || TakeWaiting(s.tx).ongoing.None?
    ensures
      var s1 := ThreadStep(s, spiOk, ins);
      && s1.pc == ForRx(CHUNK_SIZE * used)
      && Advanced(s, s1, if used == s.link.credits then s.tx else TakeWaiting(s.tx), [])
  {
    assert s.round + [] == s.round && s.log + [] == s.log;
  }

  lemma AdvancedTwice(a: Sys, b: Sys, c: Sys, t: TxState, t': TxState, x: seq<TxChunk>, y: seq<TxChunk>)
    requires Advanced(a, b, t, x) && Advanced(b, c, t', y)
    ensures Advanced(a, c, t', x + y)
  {
    assert a.round + x + y == a.round + (x + y);
    assert a.log + x + y == a.log + (x + y);
  }

  lemma AloneStep(s: Sys, k: nat, spiOk: bool, ins: seq<RxIn>)
    requires Safe(s)
    ensures Alone(s, k + 1, spiOk, ins) == Alone(ThreadStep(s, spiOk, ins), k, spiOk, ins)
    ensures Alone(s, 0, spiOk, ins) == s
  {
  }

  lemma SameLink(s: Sys, s1: Sys, t: TxState, cs: seq<TxChunk>)
    requires Advanced(s, s1, t, cs)
    ensures s1.link == s.link && s1.tx == t && s1.intFlag == s.intFlag && s1.rounds == s.rounds
    ensures s1.round == s.round + cs && s1.log == s.log + cs && s1.bufOffset == s.bufOffset + CHUNK_SIZE * |cs|
  {
  }

  lemma {:induction false} FillAlone(s: Sys, used: nat, spiOk: bool, ins: seq<RxIn>) returns (k: nat)
    requires s.pc == Fill(used) && InBounds(s.tx) && used <= s.link.credits
    ensures
      var (t, cs) := FillTx(s.tx, s.link.credits - used);
      var s' := Alone(s, k, spiOk, ins);
      s'.pc == ForRx(CHUNK_SIZE * (used + |cs|)) && Advanced(s, s', t, cs)
    decreases s.link.credits - used
  {
    hide ThreadStep, Advanced, Alone, AddChunk;
    var s1 := ThreadStep(s, spiOk, ins);
    if used == s.link.credits || TakeWaiting(s.tx).ongoing.None? {
      FillEndFacts(s, used, spiOk, ins);
      AloneStep(s, 0, spiOk, ins);
      AloneStep(s1, 0, spiOk, ins);
      k := 1;
    } else {
      FillStepFacts(s, used, spiOk, ins);
      var (t', c) := AddChunk(TakeWaiting(s.tx));
      SameLink(s, s1, t', [c]);
      var k1 := FillAlone(s1, used + 1, spiOk, ins);
      k := k1 + 1;
      AloneStep(s, k1, spiOk, ins);
      var (t, cs1) := FillTx(t', s.link.credits - used - 1);
      AdvancedTwice(s, s1, Alone(s1, k1, spiOk, ins), t', t, [c], cs1);
    }
  }

  /** The padding step. */
  lemma ForRxFacts(s: Sys, spiOk: bool, ins: seq<RxIn>)
    requires s.pc == ForRx(CHUNK_SIZE * |s.round|) && InBounds(s.tx)
    ensures
      var pad := Empties(if |s.round| >= s.link.rca then 0 else s.link.rca - |s.round|);
      var s1 := ThreadStep(s, spiOk, ins);
      Advanced(s, s1, s.tx, pad) && s1.pc == TestInt(CHUNK_SIZE * |s.round + pad|)
  {
    assert s.round + [] == s.round && s.log + [] == s.log;
  }

  lemma TestIntStep(s: Sys, spiOk: bool, ins: seq<RxIn>)
    requires s.pc.TestInt? && InBounds(s.tx)
    ensures ThreadStep(s, spiOk, ins) == s.(pc := if s.intFlag then ClearInt(s.pc.len) else Decide(s.pc.len))
  {
  }

  lemma ClearIntStep(s: Sys, spiOk: bool, ins: seq<RxIn>)
    requires s.pc == ClearInt(CHUNK_SIZE * |s.round|) && InBounds(s.tx)
    ensures
      var more := if s.round == [] then Empties(1) else [];
      ThreadStep(s, spiOk, ins)
      == Emit(s, more).(intFlag := false, pc := Decide(CHUNK_SIZE * |s.round + more|))
  {
    assert s.round + [] == s.round && s.log + [] == s.log;
  }

  lemma DecideStep(s: Sys, spiOk: bool, ins: seq<RxIn>)
    requires s.pc.Decide? && InBounds(s.tx)
    ensures ThreadStep(s, spiOk, ins) == s.(pc := if s.pc.len == 0 then Waiting else Exchange(s.pc.len))
  {
  }

  /** From the interrupt test to the end of the preparation. */
  lemma TestIntFacts(s: Sys, spiOk: bool, ins: seq<RxIn>) returns (k: nat)
    requires s.pc == TestInt(CHUNK_SIZE * |s.round|) && InBounds(s.tx)
    ensures
      var more := if s.intFlag && s.round == [] then Empties(1) else [];
      var s' := Alone(s, k, spiOk, ins);
      && s'.tx == s.tx && s'.round == s.round + more && s'.log == s.log + more && s'.link == s.link && !s'.intFlag
      && s'.rounds == s.rounds
      && s'.bufOffset == s.bufOffset + CHUNK_SIZE * |more|
      && s'.pc == if s.round + more == [] then Waiting else Exchange(CHUNK_SIZE * |s.round + more|)
  {
    hide ThreadStep, Alone, Empties;
    assert s.round + [] == s.round && s.log + [] == s.log;
    var s1 := ThreadStep(s, spiOk, ins);
    TestIntStep(s, spiOk, ins);
    AloneStep(s, 0, spiOk, ins);
    AloneStep(s, 1, spiOk, ins);
    AloneStep(s1, 0, spiOk, ins);
    var s2 := ThreadStep(s1, spiOk, ins);
    AloneStep(s2, 0, spiOk, ins);
    if s.intFlag {
      ClearIntStep(s1, spiOk, ins);
      DecideStep(s2, spiOk, ins);
      AloneStep(s, 2, spiOk, ins);
      AloneStep(s1, 1, spiOk, ins);
      AloneStep(ThreadStep(s2, spiOk, ins), 0, spiOk, ins);
      k := 3;
    } else {
      DecideStep(s1, spiOk, ins);
      k := 2;
    }
  }

  lemma RoundStartFacts(s: Sys, spiOk: bool, ins: seq<RxIn>)
    requires s.pc.RoundStart? && InBounds(s.tx)
    ensures
      var s0 := ThreadStep(s, spiOk, ins);
      && s0.tx == s.tx && s0.log == s.log && s0.link == s.link && s0.intFlag == s.intFlag && s0.round == []
      && s0.bufOffset == 0 && s0.rounds == s.rounds
      && s0.pc == if Pending(s.tx) then Fill(0) else ForRx(0)
  {
  }

  lemma AfterFill(s: Sys, s1: Sys, t: TxState, data: seq<TxChunk>, spiOk: bool, ins: seq<RxIn>) returns (k: nat)
    requires Advanced(s, s1, t, data) && s.round == [] && s.bufOffset == 0
    requires s1.pc == ForRx(CHUNK_SIZE * |data|) && InBounds(t)
    ensures
      var chunks := data + Empties(if |data| >= s.link.rca then 0 else s.link.rca - |data|);
      var cs := if s.intFlag && chunks == [] then Empties(1) else chunks;
      var s' := Alone(s1, k, spiOk, ins);
      && s'.tx == t && s'.round == cs && s'.log == s.log + cs && !s'.intFlag && s'.link == s.link
      && s'.bufOffset == CHUNK_SIZE * |cs| && s'.rounds == s.rounds
      && s'.pc == if cs == [] then Waiting else Exchange(CHUNK_SIZE * |cs|)
  {
    hide ThreadStep, Alone, Empties;
    SameLink(s, s1, t, data);
    assert [] + data == data;
    var s2 := ThreadStep(s1, spiOk, ins);
    ForRxFacts(s1, spiOk, ins);
    var pad := Empties(if |data| >= s.link.rca then 0 else s.link.rca - |data|);
    SameLink(s1, s2, t, pad);
    var k2 := TestIntFacts(s2, spiOk, ins);
    k := k2 + 1;
    AloneStep(s1, k2, spiOk, ins);
    var chunks := data + pad;
    assert s2.round == chunks;
    assert s.log + data + pad == s.log + chunks;
    if s.intFlag && chunks == [] {
      assert chunks + Empties(1) == Empties(1);
      assert s.log + chunks == s.log;
    } else {
      assert chunks + [] == chunks && s.log + chunks + [] == s.log + chunks;
    }
  }

  /** A round of the SPI thread alone prepares exactly what the sequential round prepares, and goes on to the
      transfer, or back to waiting if there is nothing to send. */
  lemma RoundAlone(s: Sys, spiOk: bool, ins: seq<RxIn>) returns (k: nat)
    requires s.pc.RoundStart? && InBounds(s.tx)
    ensures
      var (t, cs) := Prepare(Driver(s.tx, s.link, s.intFlag));
      var s' := Alone(s, k, spiOk, ins);
      && s'.tx == t && s'.round == cs && s'.log == s.log + cs && !s'.intFlag && s'.link == s.link
      && s'.bufOffset == CHUNK_SIZE * |cs| && s'.rounds == s.rounds
      && s'.pc == if cs == [] then Waiting else Exchange(CHUNK_SIZE * |cs|)
  {
    hide ThreadStep, Alone, FillTx;
    var s0 := ThreadStep(s, spiOk, ins);
    RoundStartFacts(s, spiOk, ins);
    var (t, data) := if Pending(s.tx) then FillTx(s.tx, s.link.credits) else (s.tx, []);
    var k0 := 0;
    if Pending(s.tx) {
      k0 := FillAlone(s0, 0, spiOk, ins);
    } else {
      AloneStep(s0, 0, spiOk, ins);
      assert s0.round + [] == s0.round && s0.log + [] == s0.log;
    }
    var s1 := Alone(s0, k0, spiOk, ins);
    assert Advanced(s0, s1, t, data) && s1.pc == ForRx(CHUNK_SIZE * |data|);
    var k1 := AfterFill(s0, s1, t, data, spiOk, ins);
    AloneStep(s, k0, spiOk, ins);
    AloneMore(s, k0 + 1, k1, spiOk, ins);
    k := k0 + 1 + k1;
  }

  /** The engine's processing step and the end of the sequential turn do the same. */
  lemma ProcessAgrees(s: Sys, len: nat, ins: seq<RxIn>)
    requires s.pc == Process(len) && InBounds(s.tx) && |ins| == len / CHUNK_SIZE && forall x <- ins :: ValidIn(x)
    ensures
      var s' := ThreadStep(s, true, ins);
      var turn := AfterTransfer(s.tx, s.link, Some(ins));
      && s'.tx == turn.driver.tx && s'.link == turn.driver.link
      && (s'.pc.RoundStart? <==> turn.next.None?) && (s'.pc.Dead? <==> turn.next.Some?)
  {
    hide ProcessFrom;
  }

  // ------------------------------------------------------------ when the buffer suffices

  /** The chunks put into the SPI buffer fit it. */
  predicate FitsBuffer(s: Sys) {
    s.pc.Fill? || s.pc.ForRx? || s.pc.TestInt? || s.pc.ClearInt? || s.pc.Decide? || s.pc.Exchange? || s.pc.Process?
    ==> s.bufOffset <= 48 * 68
  }

  /** The frame handed over, if any, is at most this long. */
  predicate NoLonger(a: Action, longest: nat) {
    a.Xmit? ==> |a.skb.data| <= longest
  }

  /** In every run of the engine from these boot values with frames up to `longest` bytes. */
  ghost predicate BufferSuffices(credits: nat, rca: nat, room: nat, longest: nat) {
    forall actions: seq<Action> | (forall a <- actions :: ValidAction(a) && NoLonger(a, longest)) ::
      FitsBuffer(Run(Boot(credits, rca, room), actions))
  }

  lemma ShapedFits(s: Sys)
    requires Shaped(s.pc, s.link.credits, s.link.rca, s.bufOffset, s.round)
    ensures FitsBuffer(s)
  {
  }

  lemma RunSnoc(s: Sys, actions: seq<Action>, a: Action)
    requires Safe(s)
    ensures Run(s, actions + [a]) == Step(Run(s, actions), a)
  {
    hide Step, Safe;
    assert (actions + [a])[..|actions|] == actions;
  }

  lemma RunNothing(s: Sys)
    requires Safe(s)
    ensures Run(s, []) == s
  {
  }

  lemma ThreeSteps(s: Sys, x: Action, y: Action, z: Action)
    requires Safe(s)
    ensures Run(s, [x, y, z]) == Step(Step(Step(s, x), y), z)
  {
    hide Step, Safe, Run;
    RunNothing(s);
    RunSnoc(s, [], x);
    RunSnoc(s, [x], y);
    RunSnoc(s, [x, y], z);
    assert [] + [x] == [x] && [x] + [y] == [x, y] && [x, y] + [z] == [x, y, z];
  }

  lemma AfterThree(credits: nat, rca: nat, room: nat, skb: Skb)
    requires ValidLength(skb.data)
    ensures
      var s := Run(Boot(credits, rca, room), [Xmit(skb), Store, Thread(true, [])]);
      && s.pc.RoundStart? && s.link.credits == credits && s.link.rca == rca && s.caller.Idle?
      && s.tx == EMPTY_TX.(waiting := Some(skb.data), waitingMode := skb.mode)
      && s.log == [] && s.sent == [] && s.rounds == []
  {
    ThreeSteps(Boot(credits, rca, room), Xmit(skb), Store, Thread(true, []));
  }

  // Too many credits: the caller hands over another short frame after every chunk.

  /** The thread has filled `used` chunks with whole frames, and the next one waits. */
  predicate Refilled(s: Sys, used: nat, skb: Skb) {
    && s.pc == Fill(used) && s.bufOffset == CHUNK_SIZE * used && s.caller.Idle?
    && s.tx.ongoing.None? && s.tx.offset == 0 && s.tx.waiting == Some(skb.data)
  }

  /** One chunk is filled, and the next frame arrives. */
  function Refill(skb: Skb): seq<Action> {
    [Thread(true, []), Xmit(skb), Store]
  }

  function Refills(skb: Skb, n: nat): seq<Action> {
    if n == 0 then [] else Refills(skb, n - 1) + Refill(skb)
  }

  lemma FillFacts(s: Sys, used: nat, skb: Skb)
    requires Refilled(s, used, skb) && used < s.link.credits && 1 <= |skb.data| <= CHUNK_PAYLOAD_SIZE
    ensures Safe(s)
    ensures
      var s' := ThreadStep(s, true, []);
      && s'.pc == Fill(used + 1) && s'.bufOffset == CHUNK_SIZE * (used + 1) && s'.caller.Idle? && s'.link == s.link
      && s'.tx.ongoing.None? && s'.tx.offset == 0 && s'.tx.waiting.None?
  {
    hide AddChunk;
    AddChunkState(TakeWaiting(s.tx));
  }

  lemma StoreFacts(s: Sys, used: nat, skb: Skb)
    requires Safe(s) && s.pc == Fill(used) && s.caller.Idle? && s.tx.waiting.None?
    ensures
      Step(Step(s, Xmit(skb)), Store)
      == s.(accepted := s.accepted + [skb], tx := s.tx.(waiting := Some(skb.data), waitingMode := skb.mode))
  {
  }

  lemma IsThreadStep(s: Sys)
    requires Safe(s)
    ensures Step(s, Thread(true, [])) == ThreadStep(s, true, [])
  {
  }

  lemma RefillFacts(s: Sys, used: nat, skb: Skb)
    requires Refilled(s, used, skb) && used < s.link.credits && 1 <= |skb.data| <= CHUNK_PAYLOAD_SIZE
    ensures Safe(s)
    ensures
      var s' := Run(s, Refill(skb));
      Refilled(s', used + 1, skb) && s'.link == s.link
  {
    hide ThreadStep, Step, Safe;
    FillFacts(s, used, skb);
    var s1 := ThreadStep(s, true, []);
    StoreFacts(s1, used + 1, skb);
    ThreeSteps(s, Thread(true, []), Xmit(skb), Store);
    IsThreadStep(s);
  }

  lemma SafeRefilled(s: Sys, used: nat, skb: Skb)
    requires Refilled(s, used, skb)
    ensures Safe(s)
  {
  }

  lemma {:induction false} RefillsFacts(s: Sys, skb: Skb, n: nat)
    requires Refilled(s, 0, skb) && n <= s.link.credits && 1 <= |skb.data| <= CHUNK_PAYLOAD_SIZE
    ensures Safe(s)
    ensures
      var s' := Run(s, Refills(skb, n));
      Refilled(s', n, skb) && s'.link == s.link
    decreases n
  {
    hide Refilled, Refill;
    SafeRefilled(s, 0, skb);
    if n == 0 {
      assert Run(s, []) == s;
    } else {
      RefillsFacts(s, skb, n - 1);
      RefillFacts(Run(s, Refills(skb, n - 1)), n - 1, skb);
      RunConcat(s, Refills(skb, n - 1), Refill(skb));
    }
  }

  lemma {:induction false} RefillsValid(skb: Skb, n: nat, longest: nat)
    requires ValidLength(skb.data) && |skb.data| <= longest
    ensures forall a <- Refills(skb, n) :: ValidAction(a) && NoLonger(a, longest)
    decreases n
  {
    if n > 0 {
      RefillsValid(skb, n - 1, longest);
    }
  }

  lemma OneStep(s: Sys)
    requires Safe(s)
    ensures Run(s, [Thread(true, [])]) == ThreadStep(s, true, [])
  {
    hide Run, ThreadStep;
    RunNothing(s);
    RunSnoc(s, [], Thread(true, []));
    assert [] + [Thread(true, [])] == [Thread(true, [])];
  }

  /** With more than 48 credits, frames of a single byte overrun the buffer. */
  lemma CreditsOverrun(credits: nat, rca: nat, room: nat, longest: nat) returns (actions: seq<Action>)
    requires credits > MAX_TX_CHUNKS && longest >= 1
    ensures forall a <- actions :: ValidAction(a) && NoLonger(a, longest)
    ensures !FitsBuffer(Run(Boot(credits, rca, room), actions))
  {
    hide Run;
    var skb := Skb([0], 0);
    var first := [Xmit(skb), Store, Thread(true, [])];
    var last := [Thread(true, [])];
    var b := Boot(credits, rca, room);
    AfterThree(credits, rca, room, skb);
    OneStep(Run(b, first));
    RunConcat(b, first, last);
    var n := MAX_TX_CHUNKS + 1;
    RefillsFacts(Run(b, first + last), skb, n);
    RunConcat(b, first + last, Refills(skb, n));
    RefillsValid(skb, n, longest);
    actions := first + last + Refills(skb, n);
  }

  /** With more than 48 receive chunks announced, the first round overruns it, with no frame at all. */
  lemma ChunksOverrun(credits: nat, rca: nat, room: nat) returns (actions: seq<Action>)
    requires rca > MAX_TX_CHUNKS
    ensures forall a <- actions :: a.Thread?
    ensures !FitsBuffer(Run(Boot(credits, rca, room), actions))
  {
    hide Alone;
    var b := Boot(credits, rca, room);
    OneStep(b);
    var s := ThreadStep(b, true, []);
    PrepareCounts(Driver(s.tx, s.link, s.intFlag));
    var k := RoundAlone(s, true, []);
    AloneIsRun(s, k, true, []);
    var first := [Thread(true, [])];
    actions := first + Repeat(Thread(true, []), k);
    RunConcat(b, first, Repeat(Thread(true, []), k));
  }

  /** With frames up to any length, every run stays inside the SPI buffer exactly when the boot values are both at most
      48. */
  lemma BufferSufficesIff(credits: nat, rca: nat, room: nat, longest: nat)
    requires longest >= 1
    ensures BufferSuffices(credits, rca, room, longest) <==> credits <= 48 && rca <= 48
  {
    if credits <= MAX_TX_CHUNKS && rca <= MAX_TX_CHUNKS {
      forall actions: seq<Action> | (forall a <- actions :: ValidAction(a) && NoLonger(a, longest))
        ensures FitsBuffer(Run(Boot(credits, rca, room), actions))
      {
        RunKeeps(credits, rca, room, actions);
        ShapedFits(Run(Boot(credits, rca, room), actions));
      }
    } else if credits > MAX_TX_CHUNKS {
      var actions := CreditsOverrun(credits, rca, room, longest);
    } else {
      var actions := ChunksOverrun(credits, rca, room);
      assert forall a <- actions :: ValidAction(a) && NoLonger(a, longest);
    }
  }
}
