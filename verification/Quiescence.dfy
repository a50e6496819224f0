/** The transfer loop run to its end against an attached MAC-PHY, with no arrivals meanwhile. */
module Quiescence {
  import opened Words
  import opened Wire
  import opened Transmit
  import opened Receive
  import opened Engine
  import opened EngineProofs

  /** The fields the transfer loop works on. */
  datatype Driver = Driver(tx: TxState, link: Link, intFlag: bool)

  predicate Pending(t: TxState) {
    t.ongoing.Some? || t.waiting.Some?
  }

  /** The data chunks of a round and the empty ones for what is announced (oa_tc6.c:1127-1130). */
  function Composed(t: TxState, l: Link): (r: (TxState, seq<TxChunk>))
    requires InBounds(t)
    ensures InBounds(r.0)
  {
    var (t', data) := if Pending(t) then FillTx(t, l.credits) else (t, []);
    (t', data + Empties(if |data| >= l.rca then 0 else l.rca - |data|))
  }

  /** What a round puts into the SPI buffer, and the transmit state after it (oa_tc6.c:1127-1138). */
  function Prepare(d: Driver): (r: (TxState, seq<TxChunk>))
    requires InBounds(d.tx)
    ensures InBounds(r.0)
  {
    var (t, chunks) := Composed(d.tx, d.link);
    (t, if d.intFlag && chunks == [] then Empties(1) else chunks)
  }

  /** How the loop ends. */
  datatype Result = Returned | SpiError | DeviceError | Crashed

  datatype Turn = Turn(driver: Driver, next: Option<Result>)

  /** One turn of the loop, given what the transfer brought back; None for a failed transfer. */
  function AfterTransfer(t: TxState, l: Link, received: Option<seq<RxIn>>): Turn
    requires received.Some? ==> forall x <- received.value :: ValidIn(x)
  {
    match received
    case None => Turn(Driver(t, l, false), Some(SpiError))
    case Some(ins) =>
      var p := ProcessFrom(l, ins, 0);
      match p.outcome
      case Done => Turn(Driver(t, p.link, false), None)
      case Again => Turn(Driver(t, p.link, false), None)
      case Fault => Turn(Driver(t, p.link, false), Some(Crashed))
      case Fatal(_) => Turn(Driver(CleanupTx(t), p.link.(rx := Cleanup(p.link.rx)), false), Some(DeviceError))
  }

  /** How a turn ends: with a device error exactly at a footer that is neither clean nor to be retried, or for want of
      memory, and then both open frames are dropped, the offset of the one to send left as it is; else the loop goes on,
      unless the kernel stopped the thread. */
  lemma TurnEnds(t: TxState, l: Link, ins: seq<RxIn>)
    requires ins != [] && forall x <- ins :: ValidIn(x)
    ensures
      var turn := AfterTransfer(t, l, Some(ins));
      var p := ProcessFrom(l, ins, 0);
      var d := turn.driver;
      && !d.intFlag && d.link.credits == p.link.credits && d.link.rca == p.link.rca
      && (turn.next == Some(DeviceError) <==>
            p.outcome == Fatal(NoMemory)
            || (p.examined > 0 && !Clean(ins[p.examined - 1]) && !Retries(ins[p.examined - 1])))
      && (turn.next == Some(DeviceError) ==>
            && d.tx.ongoing.None? && d.tx.offset == t.offset && d.tx.waiting == t.waiting && d.link.rx.skb.None?
            && d.tx.dropped == t.dropped + if t.ongoing.Some? then 1 else 0)
      && (turn.next.None? <==> p.outcome == Done || p.outcome == Again)
      && (turn.next != Some(DeviceError) ==> d.tx == t && d.link == p.link)
  {
    hide ProcessFrom, Clean, Retries;
    PassOutcome(l, ins, 0);
  }

  // ------------------------------------------------------------ the MAC-PHY's receive backlog

  /** Saturating subtraction. */
  function Less(a: nat, b: nat): nat {
    if a < b then 0 else a - b
  }

  function Footers(ins: seq<RxIn>): (fts: seq<Footer>)
    ensures |fts| == |ins|
  {
    seq(|ins|, k requires 0 <= k < |ins| => ins[k].ft)
  }

  /** A MAC-PHY with `backlog` chunks to hand over answers a round: every footer announces at most the chunks left
      after its own, and at least one while any is left. */
  predicate HandsOver(backlog: nat, fts: seq<Footer>) {
    forall k :: 0 <= k < |fts| ==>
      ValidFooter(fts[k]) && fts[k].rca <= Less(backlog, k + 1) && (fts[k].rca == 0 ==> backlog <= k + 1)
  }

  /** Work left: chunks to cut, chunks to fetch and a pending interrupt, counted twice, and once more while the
      driver still believes in chunks that a round cut short has already passed over. */
  function Work(d: Driver, backlog: nat): nat
    requires InBounds(d.tx)
  {
    2 * (Remaining(d.tx) + backlog + if d.intFlag then 1 else 0) + if d.link.rca > backlog then 1 else 0
  }

  lemma PrepareCounts(d: Driver)
    requires Live(d.tx)
    ensures Live(Prepare(d).0)
    ensures
      var data := Min(d.link.credits, Remaining(d.tx));
      var n := Max(data, d.link.rca);
      && |Prepare(d).1| == (if n == 0 && d.intFlag then 1 else n)
      && Remaining(Prepare(d).0) == Remaining(d.tx) - data
  {
    FillTxCounts(d.tx, d.link.credits);
  }

  /** What a round sends moves frames from the slots to the MAC-PHY, in order, none lost and none added. */
  lemma PrepareRefines(phy: MacPhy, d: Driver)
    requires Live(d.tx) && Attuned(phy, d.tx)
    ensures
      var (t, cs) := Prepare(d);
      var phy' := AcceptChunks(phy, cs);
      Attuned(phy', t) && phy'.frames + Queued(t) == phy.frames + Queued(d.tx) && phy'.paired == phy.paired
      && t.packets - d.tx.packets == |phy'.frames| - |phy.frames| && t.dropped == d.tx.dropped
    ensures forall c <- Prepare(d).1 :: Fits(c)
  {
    hide FillTx, AcceptChunk, Queued, Progress;
    FillTxCounts(d.tx, d.link.credits);
    FillTxRefines(phy, d.tx, d.link.credits);
    var data := if Pending(d.tx) then FillTx(d.tx, d.link.credits).1 else [];
    var pad := Empties(if |data| >= d.link.rca then 0 else d.link.rca - |data|);
    AcceptConcat(phy, data, pad);
    EmptiesIgnored(AcceptChunks(phy, data), |pad|);
    EmptiesIgnored(phy, 1);
  }

  /** The arithmetic of a round that sends `data` of `remaining` chunks in `n` and examines `e` footers. */
  lemma WorkShrinks(remaining: nat, credits: nat, rca: nat, flag: nat, backlog: nat, n: nat, e: nat, rca': nat,
                    left: nat)
    requires flag <= 1 && 1 <= e <= n
    requires n == if Max(Min(credits, remaining), rca) == 0 then flag else Max(Min(credits, remaining), rca)
    requires rca' <= Less(backlog, e) && left <= Less(backlog, n)
    ensures 2 * (remaining - Min(credits, remaining) + left) + (if rca' > left then 1 else 0)
          < 2 * (remaining + backlog + flag) + (if rca > backlog then 1 else 0)
  {
  }

  lemma LiveIsInBounds(t: TxState)
    requires Live(t)
    ensures InBounds(t)
  {
  }

  /** Every round, also one cut short by an overflow, leaves less work. */
  lemma RoundLeavesLess(d: Driver, backlog: nat, ins: seq<RxIn>, left: nat)
    requires Live(d.tx) && Owned(d.link.rx)
    requires Prepare(d).1 != [] && |ins| == |Prepare(d).1| && forall x <- ins :: ValidIn(x)
    requires HandsOver(backlog, Footers(ins)) && left <= Less(backlog, |ins|)
    ensures
      var turn := AfterTransfer(Prepare(d).0, d.link, Some(ins));
      turn.next.None? ==>
        && Live(turn.driver.tx) && Owned(turn.driver.link.rx)
        && (turn.driver.link.rca == 0 ==> left == 0)
        && Work(turn.driver, left) < Work(d, backlog)
  {
    hide FillTx, Remaining, ProcessFrom, Owned, Prepare, InBounds, Live;
    LiveIsInBounds(d.tx);
    PrepareCounts(d);
    ProcessKeepsOwned(d.link, ins, 0);
    var p := ProcessFrom(d.link, ins, 0);
    var e := p.examined;
    assert Footers(ins)[e - 1] == ins[e - 1].ft;
    assert ins[e - 1].ft.rca <= Less(backlog, e);
    WorkShrinks(Remaining(d.tx), d.link.credits, d.link.rca, if d.intFlag then 1 else 0, backlog, |ins|, e,
                p.link.rca, left);
  }

  /** A round that starts with no chunk to send ends the loop; nothing is pending then but frames without credits. */
  lemma EmptyRoundIsQuiet(d: Driver, backlog: nat)
    requires Live(d.tx)
    requires d.link.rca == 0 ==> backlog == 0 || d.intFlag
    ensures Prepare(d).1 == [] <==>
              d.link.rca == 0 && !d.intFlag && (d.link.credits == 0 || (d.tx.ongoing.None? && d.tx.waiting.None?))
    ensures Prepare(d).1 == [] ==> backlog == 0
  {
    PrepareCounts(d);
  }

  /** `rounds` are successive rounds of the loop that all continue, against a MAC-PHY handing over its backlog. */
  predicate Continues(d: Driver, backlog: nat, rounds: seq<seq<RxIn>>)
    requires Live(d.tx)
    decreases |rounds|
  {
    rounds == [] ||
    (&& Prepare(d).1 != [] && |rounds[0]| == |Prepare(d).1| && HandsOver(backlog, Footers(rounds[0]))
     && (forall x <- rounds[0] :: ValidIn(x))
     && var turn := AfterTransfer(Prepare(d).0, d.link, Some(rounds[0]));
        turn.next.None? && Live(turn.driver.tx) && Continues(turn.driver, Less(backlog, |rounds[0]|), rounds[1..]))
  }

  /** The loop ends: no run of it, overflow rounds included, has more rounds than work. */
  lemma {:induction false} LoopEnds(d: Driver, backlog: nat, rounds: seq<seq<RxIn>>)
    requires Live(d.tx) && Owned(d.link.rx) && Continues(d, backlog, rounds)
    ensures |rounds| <= Work(d, backlog)
    decreases |rounds|
  {
    if rounds != [] {
      var left := Less(backlog, |rounds[0]|);
      RoundLeavesLess(d, backlog, rounds[0], left);
      LoopEnds(AfterTransfer(Prepare(d).0, d.link, Some(rounds[0])).driver, left, rounds[1..]);
    }
  }

  // ------------------------------------------------------------ the plain measure

  /** Chunks to cut, chunks to fetch and a pending interrupt. */
  function Plain(d: Driver, backlog: nat): nat
    requires InBounds(d.tx)
  {
    Remaining(d.tx) + backlog + if d.intFlag then 1 else 0
  }

  /** A round that goes on decreases the plain measure exactly if there is something to do: data with credits for it,
      a backlog or an interrupt. Else it is driven only by chunks announced that are no longer there. */
  lemma PlainShrinksIff(d: Driver, backlog: nat, ins: seq<RxIn>, left: nat)
    requires Live(d.tx) && Prepare(d).1 != [] && |ins| == |Prepare(d).1| && forall x <- ins :: ValidIn(x)
    requires left <= Less(backlog, |ins|)
    ensures
      var turn := AfterTransfer(Prepare(d).0, d.link, Some(ins));
      turn.next.None? ==>
        (&& InBounds(turn.driver.tx)
         && (Plain(turn.driver, left) < Plain(d, backlog) <==>
               Min(d.link.credits, Remaining(d.tx)) > 0 || backlog > 0 || d.intFlag))
  {
    hide FillTx, Remaining, ProcessFrom, Prepare, Live, InBounds;
    LiveIsInBounds(d.tx);
    PrepareCounts(d);
    LiveIsInBounds(Prepare(d).0);
  }

  /** Chunk `k` of a round of `n` empty chunks whose footers announce one more chunk while any is left. */
  function Announcing(k: nat, n: nat, overflow: bool): (x: RxIn)
    ensures ValidIn(x)
  {
    RxIn(Zeros(CHUNK_PAYLOAD_SIZE), Zeros(MEMORY_BEHIND),
         Footer(overflow, false, true, if k + 1 < n then 1 else 0, false, false, 0, false, 0, 0), Bits(0x8), true)
  }

  /** The MAC-PHY's answer to a round of `n` chunks; an overflow is reported with the first one or not at all. */
  function Answer(n: nat, overflow: bool): (ins: seq<RxIn>)
    ensures |ins| == n && forall x <- ins :: ValidIn(x)
  {
    var ins := seq(n, k requires 0 <= k < n => Announcing(k, n, overflow && k == 0));
    assert forall k | 0 <= k < n :: ins[k] == Announcing(k, n, overflow && k == 0);
    ins
  }

  lemma AnswerHandsOver(n: nat, overflow: bool)
    ensures HandsOver(n, Footers(Answer(n, overflow)))
    ensures n == 1 ==> HandsOver(0, Footers(Answer(n, overflow)))
  {
    var fts := Footers(Answer(n, overflow));
    forall k | 0 <= k < n
      ensures fts[k] == Announcing(k, n, overflow && k == 0).ft
    {
      assert Answer(n, overflow)[k] == Announcing(k, n, overflow && k == 0);
    }
  }

  lemma OverflowFirst(l: Link, n: nat)
    requires n >= 2
    ensures
      var p := ProcessFrom(l, Answer(n, true), 0);
      p.outcome == Again && p.link.rca == 1
  {
    var x := Announcing(0, n, true);
    assert Answer(n, true)[0] == x;
    assert RxBufferOverflow(0x8);
    assert ProcessChunk(l, x).1 == Again && ProcessChunk(l, x).0.rca == 1;
  }

  lemma NothingFirst(l: Link)
    ensures ProcessFrom(l, Answer(1, false), 0).outcome == Done
  {
    var x := Announcing(0, 1, false);
    assert Answer(1, false)[0] == x;
    assert ProcessChunk(l, x).1 == Done;
    assert ProcessFrom(ProcessChunk(l, x).0, Answer(1, false), 1).outcome == Done;
  }

  /** An idle transmitter prepares as many chunks as are announced. */
  lemma IdlePrepares(d: Driver)
    requires d.tx == EMPTY_TX && d.link.rca > 0
    ensures |Prepare(d).1| == d.link.rca && Prepare(d).0 == EMPTY_TX
  {
  }

  /** The plain measure does stall: right after boot, with any backlog of two chunks or more, an overflow reported with
      the first chunk leaves the driver believing in a chunk already passed over, and its next round only finds that
      out. */
  lemma StaleRoundReached(credits: nat, room: nat, n: nat)
    requires 2 <= n <= MAX_TX_CHUNKS
    ensures
      var d := Driver(EMPTY_TX, Link(EmptyRx(room), credits, n), true);
      && Continues(d, n, [Answer(n, true), Answer(1, false)])
      && var d1 := AfterTransfer(EMPTY_TX, d.link, Some(Answer(n, true))).driver;
         var d2 := AfterTransfer(EMPTY_TX, d1.link, Some(Answer(1, false))).driver;
         d1.tx == EMPTY_TX == d2.tx && Plain(d2, 0) == Plain(d1, Less(n, n))
  {
    hide ProcessFrom, Answer, HandsOver, Prepare;
    var d := Driver(EMPTY_TX, Link(EmptyRx(room), credits, n), true);
    AnswerHandsOver(n, true);
    AnswerHandsOver(1, false);
    IdlePrepares(d);
    OverflowFirst(d.link, n);
    var d1 := AfterTransfer(EMPTY_TX, d.link, Some(Answer(n, true))).driver;
    IdlePrepares(d1);
    NothingFirst(d1.link);
    var two := [Answer(n, true), Answer(1, false)];
    assert two[1..] == [Answer(1, false)] && two[1..][1..] == [];
    assert Continues(d1, 0, two[1..]);
  }
}
