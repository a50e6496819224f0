/** What has reached the MAC-PHY: a round goes over the wire only once its transfer has worked. */
module Arrival {
  import opened Words
  import opened Wire
  import opened Transmit
  import opened Receive
  import opened Engine
  import opened EngineProofs
  import opened Quiescence
  import opened Schedule

  /** Chunks composed that no transfer has carried. */
  function Unsent(s: Sys): seq<TxChunk>
    requires s.sent <= s.log
  {
    s.log[|s.sent|..]
  }

  /** Between rounds everything composed has been sent; from the start of a round to its transfer, and for good once
      that has failed, the round has not. */
  predicate Flown(s: Sys) {
    && s.sent <= s.log
    && match s.pc
       case Waiting => Unsent(s) == []
       case RoundStart => Unsent(s) == []
       case Process(_) => Unsent(s) == []
       case Dead => Unsent(s) == [] || Unsent(s) == s.round
       case _ => Unsent(s) == s.round
  }

  lemma EmitFlies(s: Sys, cs: seq<TxChunk>)
    requires s.sent <= s.log
    ensures var s' := Emit(s, cs); s'.sent <= s'.log && Unsent(s') == Unsent(s) + cs
  {
    assert (s.log + cs)[|s.sent|..] == s.log[|s.sent|..] + cs;
  }

  lemma FillFlies(s: Sys, used: nat)
    requires InBounds(s.tx) && Flown(s) && s.pc == Fill(used)
    ensures Flown(FillStep(s, used))
  {
    hide AddChunk;
    if used < s.link.credits && TakeWaiting(s.tx).ongoing.Some? {
      EmitFlies(s, [AddChunk(TakeWaiting(s.tx)).1]);
    }
  }

  lemma ComposingFlies(s: Sys, spiOk: bool, ins: seq<RxIn>)
    requires Safe(s) && Flown(s) && (s.pc.ForRx? || s.pc.ClearInt?)
    ensures Flown(ThreadStep(s, spiOk, ins))
  {
    hide Empties;
    match s.pc
    case ForRx(len) => EmitFlies(s, Empties(Less(s.link.rca, len / CHUNK_SIZE)));
    case ClearInt(_) => EmitFlies(s, Empties(1));
  }

  lemma ExchangeFlies(s: Sys, spiOk: bool, ins: seq<RxIn>)
    requires Safe(s) && Flown(s) && s.pc.Exchange?
    ensures Flown(ThreadStep(s, spiOk, ins))
  {
    assert s.sent + s.round == s.log;
    assert s.log[|s.log|..] == [];
  }

  lemma ThreadFlies(s: Sys, spiOk: bool, ins: seq<RxIn>)
    requires Safe(s) && Flown(s)
    requires s.pc.Decide? && s.pc.len == 0 ==> s.round == []
    ensures Flown(ThreadStep(s, spiOk, ins))
  {
    hide FillStep, ForRxStep, ProcessFrom;
    match s.pc
    case Fill(used) => FillFlies(s, used);
    case ForRx(_) => ComposingFlies(s, spiOk, ins);
    case ClearInt(_) => ComposingFlies(s, spiOk, ins);
    case Exchange(_) => ExchangeFlies(s, spiOk, ins);
    case _ =>
  }

  /** The other actors compose and send nothing. */
  lemma CallerFlies(s: Sys, a: Action)
    requires Safe(s) && Flown(s) && !a.Thread?
    ensures Flown(Step(s, a))
  {
  }

  lemma ShapedDecide(boot: nat, s: Sys)
    requires LinkInv(boot, s) && s.pc.Decide? && s.pc.len == 0
    ensures s.round == []
  {
  }

  lemma LinkOf(boot: nat, s: Sys)
    requires Inv(boot, s)
    ensures LinkInv(boot, s)
  {
  }

  lemma StepFlies(boot: nat, s: Sys, a: Action)
    requires Safe(s) && Inv(boot, s) && Flown(s)
    ensures Flown(Step(s, a))
  {
    hide ThreadStep, Inv, TxInv, LinkInv, Flown;
    match a
    case Thread(spiOk, ins) =>
      LinkOf(boot, s);
      if s.pc.Decide? && s.pc.len == 0 {
        ShapedDecide(boot, s);
      }
      ThreadFlies(s, spiOk, ins);
    case _ => CallerFlies(s, a);
  }

  lemma {:induction false} RunFlies(credits: nat, rca: nat, room: nat, actions: seq<Action>)
    requires credits <= MAX_TX_CHUNKS && rca <= MAX_TX_CHUNKS
    requires forall a <- actions :: ValidAction(a)
    ensures Flown(Run(Boot(credits, rca, room), actions))
  {
    if actions != [] {
      hide Step, Inv, Flown;
      var n := |actions| - 1;
      RunFlies(credits, rca, room, actions[..n]);
      RunKeeps(credits, rca, room, actions[..n]);
      StepFlies(credits, Run(Boot(credits, rca, room), actions[..n]), actions[n]);
    }
  }

  // ------------------------------------------------------------ frames in the chunks sent

  /** How many frames end in the chunks. */
  function EndCount(cs: seq<TxChunk>): nat {
    if cs == [] then 0
    else
      var c := cs[|cs| - 1];
      EndCount(cs[..|cs| - 1]) + if c.dv && c.ev then 1 else 0
  }

  lemma {:induction false} EndsAreFrames(d: MacPhy, cs: seq<TxChunk>)
    ensures |AcceptChunks(d, cs).frames| == |d.frames| + EndCount(cs)
  {
    if cs != [] {
      EndsAreFrames(d, cs[..|cs| - 1]);
    }
  }

  lemma StreamOf(boot: nat, s: Sys)
    requires Inv(boot, s)
    ensures (forall c <- s.log :: Fits(c)) && AcceptChunks(FRESH_MACPHY, s.log).frames == AllTagged(s.completed)
    ensures s.accepted == s.completed + s.abandoned + Slot(s.tx.ongoing, s.tx.ongoingMode)
                          + Slot(s.tx.waiting, s.tx.waitingMode)
  {
    hide AcceptChunks;
  }

  /** End to end, for every schedule: what the MAC-PHY has is a prefix of the accepted frames with their tags, and
      misses, of those the driver counts as sent, exactly the ones that end in a round not yet carried or whose
      transfer failed. It has all accepted frames if and only if both slots are empty, none was abandoned, and none
      ends in such a round. */
  lemma FramesArriveIff(credits: nat, rca: nat, room: nat, actions: seq<Action>, ws: seq<seq<byte>>)
    requires credits <= MAX_TX_CHUNKS && rca <= MAX_TX_CHUNKS
    requires forall a <- actions :: ValidAction(a)
    requires Rendering(Run(Boot(credits, rca, room), actions).sent, ws)
    ensures
      var s := Run(Boot(credits, rca, room), actions);
      var frames := AcceptAll(FRESH_MACPHY, ws).frames;
      && s.sent <= s.log && (Unsent(s) == [] || Unsent(s) == s.round)
      && frames <= AllTagged(s.accepted)
      && |frames| + EndCount(Unsent(s)) == s.tx.packets
      && (frames == AllTagged(s.accepted) <==>
            s.tx.ongoing.None? && s.tx.waiting.None? && s.abandoned == [] && EndCount(Unsent(s)) == 0)
  {
    hide Run, AcceptAll, AcceptChunks, Inv, EndCount, Fits;
    RunKeeps(credits, rca, room, actions);
    RunFlies(credits, rca, room, actions);
    Conservation(credits, rca, room, actions);
    var s := Run(Boot(credits, rca, room), actions);
    StreamOf(credits, s);
    assert s.log == s.sent + Unsent(s);
    RenderedChunks(FRESH_MACPHY, s.sent, ws);
    var d := AcceptChunks(FRESH_MACPHY, s.sent);
    AcceptConcat(FRESH_MACPHY, s.sent, Unsent(s));
    EndsAreFrames(d, Unsent(s));
    FramesOnlyGrow(d, Unsent(s));
    assert s.accepted[..|s.completed|] == s.completed;
    assert AllTagged(s.accepted)[..|s.completed|] == AllTagged(s.completed);
  }

  /** The round that takes a first frame for which there are credits. */
  lemma FirstRound(d: Driver, skb: Skb)
    requires ValidLength(skb.data) && ChunkCount(|skb.data|) <= d.link.credits
    requires d.tx == EMPTY_TX.(waiting := Some(skb.data), waitingMode := skb.mode)
    ensures
      var (t, cs) := Prepare(d);
      t.ongoing.None? && t.waiting.None? && cs != [] && |AcceptChunks(FRESH_MACPHY, cs).frames| == 1
  {
    hide Prepare, AcceptChunks;
    PrepareCounts(d);
    PrepareRefines(FRESH_MACPHY, d);
    var (t, cs) := Prepare(d);
    assert Remaining(t) == 0;
    assert t.ongoing.None? && t.waiting.None?;
    assert |Queued(t)| == 0 && |Queued(d.tx)| == 1;
  }

  lemma NothingSent(s: Sys)
    requires Flown(s) && s.pc.Exchange? && s.log == s.round
    ensures s.sent == []
  {
    assert |s.log| == |s.sent| + |s.round|;
  }

  lemma FailedStep(credits: nat, rca: nat, room: nat, before: seq<Action>)
    requires Run(Boot(credits, rca, room), before).pc.Exchange?
    ensures
      var s := Run(Boot(credits, rca, room), before);
      var s' := Run(Boot(credits, rca, room), before + [Thread(false, [])]);
      s' == s.(unserved := false, pc := Dead)
  {
    assert (before + [Thread(false, [])])[..|before|] == before;
  }

  /** A frame can be counted as sent, with both slots empty, and never reach the wire: any frame whose chunks the first
      credits buy, if the first transfer fails. */
  lemma CountedButNeverSent(credits: nat, rca: nat, room: nat, skb: Skb) returns (actions: seq<Action>)
    requires credits <= MAX_TX_CHUNKS && rca <= MAX_TX_CHUNKS
    requires ValidLength(skb.data) && ChunkCount(|skb.data|) <= credits
    ensures forall a <- actions :: ValidAction(a)
    ensures
      var s := Run(Boot(credits, rca, room), actions);
      && s.tx.packets == 1 && s.tx.ongoing.None? && s.tx.waiting.None? && s.abandoned == []
      && s.sent == [] && s.pc.Dead?
  {
    hide Alone, ThreadStep, Run, Flown, Inv, AcceptChunks, Prepare;
    var first := [Xmit(skb), Store, Thread(true, [])];
    var s := Run(Boot(credits, rca, room), first);
    AfterThree(credits, rca, room, skb);
    var d := Driver(s.tx, s.link, s.intFlag);
    FirstRound(d, skb);
    var k := RoundAlone(s, false, []);
    AloneIsRun(s, k, false, []);
    var before := first + Repeat(Thread(false, []), k);
    RunConcat(Boot(credits, rca, room), first, Repeat(Thread(false, []), k));
    actions := before + [Thread(false, [])];
    var s' := Run(Boot(credits, rca, room), before);
    RunFlies(credits, rca, room, before);
    RunKeeps(credits, rca, room, before);
    Conservation(credits, rca, room, before);
    StreamOf(credits, s');
    NothingSent(s');
    FailedStep(credits, rca, room, before);
  }
}
