/** What every interleaving of the transfer engine keeps. */
module EngineProofs {
  import opened Words
  import opened Wire
  import opened Transmit
  import opened Receive
  import opened Engine

  /** Frames handed over have a length that fits the u16 offset. */
  predicate ValidAction(a: Action) {
    a.Xmit? ==> 1 <= |a.skb.data| <= 65535
  }

  // ------------------------------------------------------------ handoff and conservation

  /** A checked caller still faces an empty slot, and every accepted frame is completed, abandoned by the fatal
      error that ended the thread, ongoing or waiting, in that order. */
  predicate HandedOver(caller: Caller, tx: TxState, accepted: seq<Skb>, completed: seq<Skb>, abandoned: seq<Skb>) {
    && (caller.Checked? ==> tx.waiting.None? && ValidLength(caller.skb.data))
    && accepted == completed + abandoned + Slot(tx.ongoing, tx.ongoingMode) + Slot(tx.waiting, tx.waitingMode)
    && |abandoned| <= 1
  }

  function TotalLength(frames: seq<Skb>): nat {
    if frames == [] then 0 else TotalLength(frames[..|frames| - 1]) + |frames[|frames| - 1].data|
  }

  /** The network device's transmit counters. */
  predicate Counted(tx: TxState, completed: seq<Skb>, abandoned: seq<Skb>, refused: nat) {
    && tx.packets == |completed|
    && tx.bytes == TotalLength(completed)
    && tx.dropped == refused + |abandoned|
  }

  // ------------------------------------------------------------ the chunk stream

  function AllTagged(frames: seq<Skb>): (ts: seq<Tagged>)
    ensures |ts| == |frames|
  {
    seq(|frames|, k requires 0 <= k < |frames| => Tagged(frames[k].data, Tag(frames[k].mode)))
  }

  function ChunkTotal(frames: seq<Skb>): nat {
    if frames == [] then 0 else ChunkTotal(frames[..|frames| - 1]) + ChunkCount(|frames[|frames| - 1].data|)
  }

  /** Every chunk composed so far is regular, and a MAC-PHY fed all of them has exactly the completed frames, each
      with its own tag, and the first `offset` bytes of the ongoing one. */
  predicate Streamed(tx: TxState, log: seq<TxChunk>, completed: seq<Skb>, abandoned: seq<Skb>) {
    && (forall c <- log :: Regular(c))
    && var d := AcceptChunks(FRESH_MACPHY, log);
       && d.paired
       && d.frames == AllTagged(completed)
       && (abandoned == [] ==>
             && InBounds(tx) && d.partial == Progress(tx)
             && tx.offset % CHUNK_PAYLOAD_SIZE == 0
             && DataCount(log) == ChunkTotal(completed) + tx.offset / CHUNK_PAYLOAD_SIZE)
  }

  // ------------------------------------------------------------ rounds

  function Max(a: nat, b: nat): nat {
    if a < b then b else a
  }

  /** Data chunks precede empty ones. */
  predicate DataFirst(cs: seq<TxChunk>) {
    forall k :: 0 <= k < |cs| ==> (cs[k].dv <==> k < DataCount(cs))
  }

  /** The chunks in the buffer are just enough for the data chunks that the credits bought and the chunks that the
      MAC-PHY announced. */
  predicate Sized(credits: nat, rca: nat, round: seq<TxChunk>) {
    && DataFirst(round)
    && DataCount(round) <= credits
    && |round| == Max(DataCount(round), rca)
  }

  /** Nothing to send or fetch, but an interrupt to answer: one empty chunk. */
  predicate BareInterrupt(rca: nat, round: seq<TxChunk>) {
    round == [EMPTY_CHUNK] && rca == 0
  }

  /** What a round's buffer holds at each point; `len` is the length passed to the SPI transfer. */
  predicate Shaped(pc: Pc, credits: nat, rca: nat, bufOffset: nat, round: seq<TxChunk>) {
    && credits <= MAX_TX_CHUNKS && rca <= MAX_TX_CHUNKS
    && match pc
       case Fill(used) =>
         bufOffset == CHUNK_SIZE * used && |round| == used == DataCount(round) && used <= credits && DataFirst(round)
       case ForRx(len) =>
         len == bufOffset == CHUNK_SIZE * |round| && |round| == DataCount(round) <= credits && DataFirst(round)
       case TestInt(len) => len == bufOffset == CHUNK_SIZE * |round| && Sized(credits, rca, round)
       case ClearInt(len) => len == bufOffset == CHUNK_SIZE * |round| && Sized(credits, rca, round)
       case Decide(len) =>
         len == bufOffset == CHUNK_SIZE * |round| && (Sized(credits, rca, round) || BareInterrupt(rca, round))
       case Exchange(len) =>
         len == bufOffset == CHUNK_SIZE * |round| > 0 && (Sized(credits, rca, round) || BareInterrupt(rca, round))
       case Process(len) =>
         len == bufOffset == CHUNK_SIZE * |round| > 0 && (Sized(credits, rca, round) || BareInterrupt(rca, round))
       case _ => true
  }

  // ------------------------------------------------------------ interrupts and credits

  /** An interrupt since the last transfer attempt is still flagged, or the attempt is already certain. */
  predicate Answered(unserved: bool, intFlag: bool, pc: Pc) {
    unserved ==> intFlag || pc.Exchange? || (pc.Decide? && pc.len > 0)
  }

  predicate Examined(r: Round) {
    1 <= r.examined <= |r.ins| && r.data <= |r.ins|
  }

  /** The credits known after the given rounds: those of the boot register, then of the last footer examined. */
  function CreditsAfter(boot: nat, rounds: seq<Round>): nat {
    if rounds == [] || !Examined(rounds[|rounds| - 1]) then boot
    else var r := rounds[|rounds| - 1]; r.ins[r.examined - 1].ft.txc
  }

  /** Every round examined a footer and carried no more data chunks than credits known before it. */
  predicate WithinCredits(boot: nat, rounds: seq<Round>) {
    rounds == [] ||
    (var n := |rounds| - 1;
     Examined(rounds[n]) && rounds[n].data <= CreditsAfter(boot, rounds[..n]) && WithinCredits(boot, rounds[..n]))
  }

  /** The transmit side of the invariant. */
  predicate TxInv(s: Sys) {
    && (!s.pc.Dead? ==> s.abandoned == [] && Live(s.tx))
    && HandedOver(s.caller, s.tx, s.accepted, s.completed, s.abandoned)
    && Counted(s.tx, s.completed, s.abandoned, s.refused)
    && Streamed(s.tx, s.log, s.completed, s.abandoned)
  }

  /** Rounds, interrupts, credits and the receive buffer. */
  predicate LinkInv(boot: nat, s: Sys) {
    && Shaped(s.pc, s.link.credits, s.link.rca, s.bufOffset, s.round)
    && Answered(s.unserved, s.intFlag, s.pc)
    && WithinCredits(boot, s.rounds) && s.link.credits == CreditsAfter(boot, s.rounds)
    && Owned(s.link.rx)
  }

  predicate Inv(boot: nat, s: Sys) {
    TxInv(s) && LinkInv(boot, s)
  }

  // ------------------------------------------------------------ proofs, action by action

  lemma {:induction false} DataCountAppend(a: seq<TxChunk>, b: seq<TxChunk>)
    ensures DataCount(a + b) == DataCount(a) + DataCount(b)
  {
    if b == [] {
      assert a + b == a;
    } else {
      var n := |b| - 1;
      assert (a + b)[..|a + b| - 1] == a + b[..n];
      DataCountAppend(a, b[..n]);
    }
  }

  lemma {:induction false} DataCountEmpties(n: nat)
    ensures DataCount(Empties(n)) == 0
  {
    if n > 0 {
      assert Empties(n)[..n - 1] == Empties(n - 1);
      DataCountEmpties(n - 1);
    }
  }

  lemma {:induction false} EmptiesIgnored(d: MacPhy, n: nat)
    ensures AcceptChunks(d, Empties(n)) == d
  {
    if n > 0 {
      assert Empties(n)[..n - 1] == Empties(n - 1);
      EmptiesIgnored(d, n - 1);
    }
  }

  lemma EmptyIsRegular()
    ensures Regular(EMPTY_CHUNK)
  {
  }

  /** The waiting slot is no concern of the stream. */
  lemma StreamIgnoresSlot(tx: TxState, tx': TxState, log: seq<TxChunk>, completed: seq<Skb>, abandoned: seq<Skb>)
    requires Streamed(tx, log, completed, abandoned)
    requires tx'.ongoing == tx.ongoing && tx'.offset == tx.offset
    ensures Streamed(tx', log, completed, abandoned)
  {
  }

  lemma SafeFromInv(s: Sys)
    requires TxInv(s)
    ensures Safe(s)
  {
  }

  /** The caller's and the interrupt handler's steps. */
  lemma CallerKeeps(boot: nat, s: Sys, a: Action)
    requires Inv(boot, s) && ValidAction(a) && !a.Thread?
    ensures Safe(s) && Inv(boot, Step(s, a))
  {
    hide Streamed, Shaped, WithinCredits, CreditsAfter, Owned, Sized, BareInterrupt;
    SafeFromInv(s);
    StreamIgnoresSlot(s.tx, Step(s, a).tx, s.log, s.completed, s.abandoned);
    if a.Store? && s.caller.Checked? {
      var ongoing := Slot(s.tx.ongoing, s.tx.ongoingMode);
      assert s.accepted + [s.caller.skb] == s.completed + s.abandoned + ongoing + [s.caller.skb];
    }
  }

  /** Appending empty chunks changes nothing for the MAC-PHY. */
  lemma EmptiesStream(tx: TxState, log: seq<TxChunk>, completed: seq<Skb>, abandoned: seq<Skb>, n: nat)
    requires Streamed(tx, log, completed, abandoned)
    ensures Streamed(tx, log + Empties(n), completed, abandoned)
  {
    EmptyIsRegular();
    AcceptConcat(FRESH_MACPHY, log, Empties(n));
    EmptiesIgnored(AcceptChunks(FRESH_MACPHY, log), n);
    DataCountAppend(log, Empties(n));
    DataCountEmpties(n);
  }

  lemma EmptiesSize(credits: nat, rca: nat, round: seq<TxChunk>)
    requires DataFirst(round) && DataCount(round) == |round| <= credits && |round| <= rca
    ensures Sized(credits, rca, round + Empties(rca - |round|))
  {
    hide DataCount;
    var pad := Empties(rca - |round|);
    var all := round + pad;
    DataCountAppend(round, pad);
    DataCountEmpties(|pad|);
    forall k | 0 <= k < |all|
      ensures all[k].dv <==> k < DataCount(all)
    {
      assert all[k] == if k < |round| then round[k] else EMPTY_CHUNK;
    }
  }

  lemma ForRxTx(s: Sys, len: nat)
    requires TxInv(s) && s.pc == ForRx(len)
    ensures TxInv(ForRxStep(s, len))
  {
    hide Streamed, HandedOver, Counted, Live;
    var tx := len / CHUNK_SIZE;
    if tx < s.link.rca {
      EmptiesStream(s.tx, s.log, s.completed, s.abandoned, s.link.rca - tx);
    }
  }

  lemma ForRxLink(boot: nat, s: Sys, len: nat)
    requires LinkInv(boot, s) && s.pc == ForRx(len)
    ensures LinkInv(boot, ForRxStep(s, len))
  {
    hide WithinCredits, CreditsAfter, Owned, Empties;
    var tx := len / CHUNK_SIZE;
    assert tx == |s.round|;
    if tx < s.link.rca {
      EmptiesSize(s.link.credits, s.link.rca, s.round);
    }
  }

  lemma ClearIntTx(s: Sys, len: nat, spiOk: bool, ins: seq<RxIn>)
    requires TxInv(s) && s.pc == ClearInt(len)
    ensures Safe(s) && TxInv(ThreadStep(s, spiOk, ins))
  {
    hide Streamed, HandedOver, Counted, Live;
    SafeFromInv(s);
    EmptiesStream(s.tx, s.log, s.completed, s.abandoned, 1);
  }

  lemma ClearIntLink(boot: nat, s: Sys, len: nat, spiOk: bool, ins: seq<RxIn>)
    requires LinkInv(boot, s) && Safe(s) && s.pc == ClearInt(len)
    ensures LinkInv(boot, ThreadStep(s, spiOk, ins))
  {
    hide WithinCredits, CreditsAfter, Owned, DataFirst, DataCount;
    if len == 0 {
      assert s.round + Empties(1) == [EMPTY_CHUNK];
    }
  }

  lemma ClearIntKeeps(boot: nat, s: Sys, len: nat, spiOk: bool, ins: seq<RxIn>)
    requires Inv(boot, s) && s.pc == ClearInt(len)
    ensures Safe(s) && Inv(boot, ThreadStep(s, spiOk, ins))
  {
    ClearIntTx(s, len, spiOk, ins);
    ClearIntLink(boot, s, len, spiOk, ins);
  }

  lemma AllTaggedAppend(completed: seq<Skb>, f: Skb)
    ensures AllTagged(completed + [f]) == AllTagged(completed) + [Tagged(f.data, Tag(f.mode))]
    ensures TotalLength(completed + [f]) == TotalLength(completed) + |f.data|
    ensures ChunkTotal(completed + [f]) == ChunkTotal(completed) + ChunkCount(|f.data|)
  {
    assert (completed + [f])[..|completed|] == completed;
  }

  lemma AcceptOneMore(d: MacPhy, log: seq<TxChunk>, c: TxChunk)
    ensures AcceptChunks(d, log + [c]) == AcceptChunk(AcceptChunks(d, log), c)
    ensures DataCount(log + [c]) == DataCount(log) + if c.dv then 1 else 0
  {
    assert (log + [c])[..|log|] == log;
  }

  /** What a fill step completes. */
  function Finished(t: TxState): seq<Skb>
    requires t.ongoing.Some? && InBounds(t)
  {
    if AddChunk(t).1.ev then [Skb(t.ongoing.value, t.ongoingMode)] else []
  }

  /** The data chunk of one fill step, for the MAC-PHY. */
  lemma ChunkStreams(t: TxState, log: seq<TxChunk>, completed: seq<Skb>)
    requires Live(t) && t.ongoing.Some? && Streamed(t, log, completed, [])
    ensures Streamed(AddChunk(t).0, log + [AddChunk(t).1], completed + Finished(t), [])
  {
    AddChunkState(t);
    AddChunkRegular(t);
    var (t', c) := AddChunk(t);
    AddChunkRefines(AcceptChunks(FRESH_MACPHY, log), t);
    AcceptOneMore(FRESH_MACPHY, log, c);
    if c.ev {
      AllTaggedAppend(completed, Skb(t.ongoing.value, t.ongoingMode));
      assert ChunkCount(|t.ongoing.value|) == t.offset / CHUNK_PAYLOAD_SIZE + 1;
    } else {
      assert completed + [] == completed;
    }
  }

  lemma ChunkHandsOver(caller: Caller, t: TxState, accepted: seq<Skb>, completed: seq<Skb>, refused: nat)
    requires Live(t) && t.ongoing.Some?
    requires HandedOver(caller, t, accepted, completed, []) && Counted(t, completed, [], refused)
    ensures HandedOver(caller, AddChunk(t).0, accepted, completed + Finished(t), [])
    ensures Counted(AddChunk(t).0, completed + Finished(t), [], refused)
  {
    AddChunkState(t);
    if AddChunk(t).1.ev {
      var f := Skb(t.ongoing.value, t.ongoingMode);
      AllTaggedAppend(completed, f);
      assert completed + [] + [f] + Slot(t.waiting, t.waitingMode)
          == completed + [f] + [] + [] + Slot(t.waiting, t.waitingMode);
    } else {
      assert completed + [] == completed;
    }
  }

  lemma TakeHandsOver(caller: Caller, t: TxState, accepted: seq<Skb>, completed: seq<Skb>, log: seq<TxChunk>,
                      refused: nat)
    requires Live(t) && HandedOver(caller, t, accepted, completed, []) && Counted(t, completed, [], refused)
    requires Streamed(t, log, completed, [])
    ensures HandedOver(caller, TakeWaiting(t), accepted, completed, [])
    ensures Counted(TakeWaiting(t), completed, [], refused)
    ensures Streamed(TakeWaiting(t), log, completed, [])
  {
    TakeKeeps(t);
    var w := Slot(t.waiting, t.waitingMode);
    if t.ongoing.None? {
      assert completed + [] + [] + w == completed + [] + w + [];
    }
  }

  lemma ChunkShapes(credits: nat, round: seq<TxChunk>, c: TxChunk)
    requires c.dv && DataFirst(round) && DataCount(round) == |round|
    ensures DataFirst(round + [c]) && DataCount(round + [c]) == |round| + 1
  {
    AcceptOneMore(FRESH_MACPHY, round, c);
  }

  lemma FillTxKeeps(s: Sys, used: nat)
    requires TxInv(s) && s.pc == Fill(used)
    ensures InBounds(s.tx) && TxInv(FillStep(s, used))
  {
    hide Streamed, HandedOver, Counted;
    TakeKeeps(s.tx);
    TakeHandsOver(s.caller, s.tx, s.accepted, s.completed, s.log, s.refused);
    var t := TakeWaiting(s.tx);
    if used < s.link.credits && t.ongoing.Some? {
      AddChunkState(t);
      ChunkStreams(t, s.log, s.completed);
      ChunkHandsOver(s.caller, t, s.accepted, s.completed, s.refused);
    }
  }

  lemma FillLinkKeeps(boot: nat, s: Sys, used: nat)
    requires LinkInv(boot, s) && Live(s.tx) && s.pc == Fill(used)
    ensures InBounds(s.tx) && LinkInv(boot, FillStep(s, used))
  {
    hide Owned, WithinCredits, CreditsAfter, DataFirst, DataCount, AddChunk;
    TakeKeeps(s.tx);
    var t := TakeWaiting(s.tx);
    if used < s.link.credits && t.ongoing.Some? {
      AddChunkState(t);
      ChunkShapes(s.link.credits, s.round, AddChunk(t).1);
    }
  }

  lemma FillKeeps(boot: nat, s: Sys, used: nat)
    requires Inv(boot, s) && s.pc == Fill(used)
    ensures InBounds(s.tx) && Inv(boot, FillStep(s, used))
  {
    FillTxKeeps(s, used);
    FillLinkKeeps(boot, s, used);
  }

  lemma RoundWithinCredits(boot: nat, rounds: seq<Round>, r: Round)
    requires WithinCredits(boot, rounds) && Examined(r) && r.data <= CreditsAfter(boot, rounds)
    ensures WithinCredits(boot, rounds + [r])
    ensures CreditsAfter(boot, rounds + [r]) == r.ins[r.examined - 1].ft.txc
  {
    assert (rounds + [r])[..|rounds|] == rounds;
  }

  lemma BareInterruptCount(rca: nat, round: seq<TxChunk>)
    requires BareInterrupt(rca, round)
    ensures DataCount(round) == 0
  {
    assert round[..0] == [];
  }

  /** A fatal error abandons at most the ongoing frame. */
  lemma CleanupKeeps(caller: Caller, tx: TxState, accepted: seq<Skb>, completed: seq<Skb>, log: seq<TxChunk>,
                     refused: nat)
    requires HandedOver(caller, tx, accepted, completed, []) && Counted(tx, completed, [], refused)
    requires Streamed(tx, log, completed, [])
    ensures
      var left := Slot(tx.ongoing, tx.ongoingMode);
      && HandedOver(caller, CleanupTx(tx), accepted, completed, left)
      && Counted(CleanupTx(tx), completed, left, refused)
      && Streamed(CleanupTx(tx), log, completed, left)
  {
    var left := Slot(tx.ongoing, tx.ongoingMode);
    assert completed + [] + left == completed + left + [];
  }

  lemma RoundDataWithinCredits(s: Sys)
    requires s.pc.Process? && Shaped(s.pc, s.link.credits, s.link.rca, s.bufOffset, s.round)
    ensures DataCount(s.round) <= s.link.credits && DataCount(s.round) <= |s.round|
  {
    if BareInterrupt(s.link.rca, s.round) {
      BareInterruptCount(s.link.rca, s.round);
    }
  }

  lemma AfterPassTx(s: Sys, ins: seq<RxIn>, p: Pass)
    requires TxInv(s) && s.pc.Process?
    ensures TxInv(AfterPass(s, ins, p))
  {
    hide Streamed, HandedOver, Counted, Live, Slot;
    CleanupKeeps(s.caller, s.tx, s.accepted, s.completed, s.log, s.refused);
  }

  lemma CleanupOwned(r: RxState)
    requires Owned(r)
    ensures Owned(Cleanup(r))
  {
  }

  lemma AfterPassLink(boot: nat, s: Sys, ins: seq<RxIn>, p: Pass)
    requires LinkInv(boot, s) && s.pc == Process(CHUNK_SIZE * |ins|)
    requires 1 <= p.examined <= |ins| && Owned(p.link.rx)
    requires p.link.credits == ins[p.examined - 1].ft.txc < 32 && p.link.rca < 32
    ensures LinkInv(boot, AfterPass(s, ins, p))
  {
    hide WithinCredits, CreditsAfter, DataFirst, DataCount, Sized, BareInterrupt, Owned;
    CleanupOwned(p.link.rx);
    RoundDataWithinCredits(s);
    RoundWithinCredits(boot, s.rounds, Round(DataCount(s.round), ins, p.examined));
  }

  lemma ProcessLength(s: Sys, n: nat)
    requires s.pc.Process? && Shaped(s.pc, s.link.credits, s.link.rca, s.bufOffset, s.round)
    requires n == s.pc.len / CHUNK_SIZE
    ensures n > 0 && s.pc.len == CHUNK_SIZE * n
  {
  }

  lemma PassFacts(l: Link, ins: seq<RxIn>)
    requires (forall x <- ins :: ValidIn(x)) && |ins| > 0 && Owned(l.rx)
    ensures
      var p := ProcessFrom(l, ins, 0);
      && 1 <= p.examined <= |ins| && Owned(p.link.rx)
      && p.link.credits == ins[p.examined - 1].ft.txc < 32 && p.link.rca < 32
  {
    ProcessKeepsOwned(l, ins, 0);
    var p := ProcessFrom(l, ins, 0);
    assert ins[p.examined - 1] in ins;
  }

  lemma FromInv(boot: nat, s: Sys)
    requires Inv(boot, s)
    ensures Shaped(s.pc, s.link.credits, s.link.rca, s.bufOffset, s.round) && Owned(s.link.rx)
  {
  }

  lemma ProcessKeeps(boot: nat, s: Sys, len: nat, ins: seq<RxIn>)
    requires Inv(boot, s) && s.pc == Process(len)
    requires |ins| == len / CHUNK_SIZE && forall x <- ins :: ValidIn(x)
    ensures Inv(boot, ProcessStep(s, ins))
  {
    hide TxInv, LinkInv, ProcessFrom, Owned, AfterPass;
    FromInv(boot, s);
    ProcessLength(s, |ins|);
    PassFacts(s.link, ins);
    var p := ProcessFrom(s.link, ins, 0);
    AfterPassTx(s, ins, p);
    AfterPassLink(boot, s, ins, p);
  }

  lemma EmptyRound()
    ensures DataFirst([]) && DataCount([]) == 0
  {
  }

  lemma SimpleShapes(s: Sys, spiOk: bool, ins: seq<RxIn>)
    requires Safe(s) && Shaped(s.pc, s.link.credits, s.link.rca, s.bufOffset, s.round)
    requires s.pc.RoundStart? || s.pc.Waiting? || s.pc.TestInt? || s.pc.Decide? || s.pc.Exchange? || s.pc.Dead?
    ensures
      var s' := ThreadStep(s, spiOk, ins);
      Shaped(s'.pc, s'.link.credits, s'.link.rca, s'.bufOffset, s'.round)
  {
    hide Sized, BareInterrupt;
    EmptyRound();
  }

  lemma SimpleStepKeeps(boot: nat, s: Sys, spiOk: bool, ins: seq<RxIn>)
    requires Inv(boot, s)
    requires s.pc.RoundStart? || s.pc.Waiting? || s.pc.TestInt? || s.pc.Decide? || s.pc.Exchange? || s.pc.Dead?
    ensures Safe(s) && Inv(boot, ThreadStep(s, spiOk, ins))
  {
    hide Streamed, HandedOver, Counted, Live, WithinCredits, CreditsAfter, Owned, Sized, BareInterrupt;
    SafeFromInv(s);
    SimpleShapes(s, spiOk, ins);
  }

  lemma ThreadKeeps(boot: nat, s: Sys, spiOk: bool, ins: seq<RxIn>)
    requires Inv(boot, s)
    ensures Safe(s) && Inv(boot, ThreadStep(s, spiOk, ins))
  {
    hide TxInv, LinkInv, FillStep, ForRxStep, ProcessStep;
    SafeFromInv(s);
    match s.pc
    case Fill(used) => FillKeeps(boot, s, used);
    case ForRx(len) =>
      ForRxTx(s, len);
      ForRxLink(boot, s, len);
    case ClearInt(len) => ClearIntKeeps(boot, s, len, spiOk, ins);
    case Process(len) =>
      if |ins| == len / CHUNK_SIZE && forall x <- ins :: ValidIn(x) {
        ProcessKeeps(boot, s, len, ins);
      }
    case _ => SimpleStepKeeps(boot, s, spiOk, ins);
  }

  lemma BootInv(credits: nat, rca: nat, room: nat)
    requires credits <= MAX_TX_CHUNKS && rca <= MAX_TX_CHUNKS
    ensures Inv(credits, Boot(credits, rca, room))
  {
  }

  lemma StepKeeps(boot: nat, s: Sys, a: Action)
    requires Inv(boot, s) && ValidAction(a)
    ensures Safe(s) && Inv(boot, Step(s, a))
  {
    match a
    case Thread(spiOk, ins) => ThreadKeeps(boot, s, spiOk, ins);
    case _ => CallerKeeps(boot, s, a);
  }

  lemma {:induction false} RunKeeps(credits: nat, rca: nat, room: nat, actions: seq<Action>)
    requires credits <= MAX_TX_CHUNKS && rca <= MAX_TX_CHUNKS
    requires forall a <- actions :: ValidAction(a)
    ensures Inv(credits, Run(Boot(credits, rca, room), actions))
  {
    if actions == [] {
      BootInv(credits, rca, room);
    } else {
      var n := |actions| - 1;
      RunKeeps(credits, rca, room, actions[..n]);
      assert actions[n] in actions;
      StepKeeps(credits, Run(Boot(credits, rca, room), actions[..n]), actions[n]);
    }
  }

  // ------------------------------------------------------------ what it means, for every run

  /** Transmit refinement, for every schedule, credit grant and stale byte: what the chunks composed so far decode to is
      exactly the completed frames in order, each with its own timestamp tag, and,
      while no frame was abandoned, the first `offset` bytes of the ongoing frame; start and end flags pair up, every
      header meets the wire format, and the chunk count is that of the bytes sent. */
  lemma TransmitRefinement(credits: nat, rca: nat, room: nat, actions: seq<Action>, ws: seq<seq<byte>>)
    requires credits <= MAX_TX_CHUNKS && rca <= MAX_TX_CHUNKS
    requires forall a <- actions :: ValidAction(a)
    requires Rendering(Run(Boot(credits, rca, room), actions).log, ws)
    ensures
      var s := Run(Boot(credits, rca, room), actions);
      var d := AcceptAll(FRESH_MACPHY, ws);
      && d.frames == AllTagged(s.completed) && d.paired
      && (s.abandoned == [] ==>
            && InBounds(s.tx) && d.partial == Progress(s.tx)
            && s.tx.offset % 64 == 0
            && DataCount(s.log) == ChunkTotal(s.completed) + s.tx.offset / 64)
      && (!s.pc.Dead? && s.tx.ongoing.Some? ==> s.tx.offset < |s.tx.ongoing.value|)
      && forall k :: 0 <= k < |ws| ==> WellFormedHeader(FromBe32(ws[k][..4]))
  {
    hide HandedOver, Counted, Shaped, WithinCredits, Owned, Run, DataCount, HeaderOf, Be32, WellFormedHeader;
    RunKeeps(credits, rca, room, actions);
    var s := Run(Boot(credits, rca, room), actions);
    RenderedChunks(FRESH_MACPHY, s.log, ws);
    forall k | 0 <= k < |ws|
      ensures WellFormedHeader(FromBe32(ws[k][..4]))
    {
      var c := s.log[k];
      assert c in s.log;
      assert ws[k][..4] == Be32(HeaderOf(c));
      Be32RoundTrip(HeaderOf(c));
      RegularIsWellFormed(c);
    }
  }

  /** Conservation, for every schedule: no waiting frame is overwritten, lost or sent twice, and the counters of the
      network device account for every frame handed over. */
  lemma Conservation(credits: nat, rca: nat, room: nat, actions: seq<Action>)
    requires credits <= MAX_TX_CHUNKS && rca <= MAX_TX_CHUNKS
    requires forall a <- actions :: ValidAction(a)
    ensures
      var s := Run(Boot(credits, rca, room), actions);
      var inside := Slot(s.tx.ongoing, s.tx.ongoingMode) + Slot(s.tx.waiting, s.tx.waitingMode);
      && s.accepted == s.completed + s.abandoned + inside && |inside| <= 2
      && (!s.pc.Dead? ==> s.abandoned == []) && |s.abandoned| <= 1
      && s.tx.packets == |s.completed| && s.tx.bytes == TotalLength(s.completed)
      && |s.accepted| + s.refused == s.tx.packets + s.tx.dropped + |inside|
  {
    hide Streamed, Shaped, WithinCredits, Owned, Run, Live;
    RunKeeps(credits, rca, room, actions);
    var s := Run(Boot(credits, rca, room), actions);
    var a, b := Slot(s.tx.ongoing, s.tx.ongoingMode), Slot(s.tx.waiting, s.tx.waitingMode);
    assert s.completed + s.abandoned + a + b == s.completed + s.abandoned + (a + b);
  }

  /** Some thread step of the schedule attempts an SPI transfer. */
  ghost predicate Attempted(s: Sys, actions: seq<Action>)
    requires Safe(s)
  {
    exists k :: 0 <= k < |actions| && actions[k].Thread? && Run(s, actions[..k]).pc.Exchange?
  }

  lemma StepUnserved(s: Sys, a: Action)
    requires Safe(s) && s.unserved && (a.Thread? ==> !s.pc.Exchange?)
    ensures Step(s, a).unserved
  {
  }

  lemma {:induction false} UnservedUntilAttempt(s: Sys, actions: seq<Action>)
    requires Safe(s) && s.unserved && !Attempted(s, actions)
    ensures Run(s, actions).unserved
  {
    hide Step, Safe;
    if actions != [] {
      var n := |actions| - 1;
      forall k | 0 <= k < n && actions[..n][k].Thread?
        ensures !Run(s, actions[..n][..k]).pc.Exchange?
      {
        assert actions[..n][..k] == actions[..k];
      }
      UnservedUntilAttempt(s, actions[..n]);
      StepUnserved(Run(s, actions[..n]), actions[n]);
    }
  }

  lemma {:induction false} RunConcat(s: Sys, a: seq<Action>, b: seq<Action>)
    requires Safe(s)
    ensures Run(s, a + b) == Run(Run(s, a), b)
  {
    if b == [] {
      assert a + b == a;
    } else {
      var n := |b| - 1;
      assert (a + b)[..|a + b| - 1] == a + b[..n];
      RunConcat(s, a, b[..n]);
    }
  }

  /** No lost interrupt, for every schedule: after any interrupt, unless a transfer has been attempted since, the
      flag is still set or the SPI thread is about to attempt a transfer of at least one chunk. */
  lemma NoLostInterrupt(credits: nat, rca: nat, room: nat, before: seq<Action>, since: seq<Action>)
    requires credits <= MAX_TX_CHUNKS && rca <= MAX_TX_CHUNKS
    requires forall a <- before + [Interrupt] + since :: ValidAction(a)
    requires !Attempted(Run(Boot(credits, rca, room), before + [Interrupt]), since)
    ensures
      var s := Run(Boot(credits, rca, room), before + [Interrupt] + since);
      s.intFlag || (s.pc.Exchange? && s.pc.len >= CHUNK_SIZE) || (s.pc.Decide? && s.pc.len >= CHUNK_SIZE)
  {
    hide Streamed, HandedOver, Counted, WithinCredits, Owned, Live, DataFirst, DataCount;
    var s := Run(Boot(credits, rca, room), before + [Interrupt]);
    assert (before + [Interrupt])[..|before|] == before;
    UnservedUntilAttempt(s, since);
    RunConcat(Boot(credits, rca, room), before + [Interrupt], since);
    RunKeeps(credits, rca, room, before + [Interrupt] + since);
  }

  lemma OnlyClearIntClears(s: Sys, spiOk: bool, ins: seq<RxIn>)
    requires Safe(s) && s.intFlag && !ThreadStep(s, spiOk, ins).intFlag
    ensures s.pc.ClearInt?
  {
    hide ProcessFrom, AddChunk;
  }

  /** The step that clears the flag commits its round to a transfer. */
  lemma ClearedMeansAttempt(s: Sys, spiOk: bool, ins: seq<RxIn>)
    requires Safe(s) && s.intFlag && !ThreadStep(s, spiOk, ins).intFlag
    ensures ThreadStep(ThreadStep(s, spiOk, ins), spiOk, ins).pc.Exchange?
  {
    hide FillStep, ForRxStep, ProcessStep;
    OnlyClearIntClears(s, spiOk, ins);
  }

  /** On the way to sleep nothing is left that could be sent or fetched. */
  predicate Resting(s: Sys) {
    var stuck := s.tx.ongoing.None? || s.link.credits == 0;
    match s.pc
    case Waiting => stuck && (s.link.rca == 0 || s.rounds == [])
    case ForRx(len) => len == 0 ==> stuck
    case TestInt(len) => len == 0 ==> stuck && s.link.rca == 0
    case Decide(len) => len == 0 ==> stuck && s.link.rca == 0
    case _ => true
  }

  lemma FillRests(s: Sys, used: nat)
    requires InBounds(s.tx) && s.pc == Fill(used)
    ensures Resting(FillStep(s, used))
  {
    hide AddChunk;
  }

  lemma ForRxRests(s: Sys, len: nat)
    requires s.pc == ForRx(len) && Resting(s)
    ensures Resting(ForRxStep(s, len))
  {
    hide Empties;
  }

  lemma ProcessRests(s: Sys, ins: seq<RxIn>)
    requires forall x <- ins :: ValidIn(x)
    ensures Resting(ProcessStep(s, ins))
  {
    hide ProcessFrom;
  }

  lemma ThreadRests(s: Sys, spiOk: bool, ins: seq<RxIn>)
    requires Safe(s) && Resting(s)
    ensures Resting(ThreadStep(s, spiOk, ins))
  {
    hide ProcessStep, FillStep, ForRxStep, Empties;
    match s.pc
    case Fill(used) => FillRests(s, used);
    case ForRx(len) => ForRxRests(s, len);
    case Process(_) =>
      if forall x <- ins :: ValidIn(x) {
        ProcessRests(s, ins);
      }
    case _ =>
  }

  lemma StepRests(s: Sys, a: Action)
    requires Safe(s) && Resting(s)
    ensures Resting(Step(s, a))
  {
    hide ThreadStep;
    if a.Thread? {
      ThreadRests(s, a.spiOk, a.ins);
    }
  }

  lemma {:induction false} RunRests(s: Sys, actions: seq<Action>)
    requires Safe(s) && Resting(s)
    ensures Resting(Run(s, actions))
  {
    if actions != [] {
      hide Step, Safe, Resting;
      var n := |actions| - 1;
      RunRests(s, actions[..n]);
      StepRests(Run(s, actions[..n]), actions[n]);
    }
  }

  /** For every schedule and all boot values: the thread sleeps only with no frame half sent, unless credits are
      missing, and with no chunk announced, unless none was ever exchanged; and it sleeps on only if no interrupt is
      flagged and credits or frames are missing. */
  lemma AsleepMeansDone(credits: nat, rca: nat, room: nat, actions: seq<Action>, spiOk: bool, ins: seq<RxIn>)
    requires Run(Boot(credits, rca, room), actions).pc.Waiting?
    ensures
      var s := Run(Boot(credits, rca, room), actions);
      && (s.tx.ongoing.None? || s.link.credits == 0) && (s.link.rca == 0 || s.rounds == [])
      && (ThreadStep(s, spiOk, ins).pc.Waiting? <==>
            !s.intFlag && (s.link.credits == 0 || (s.tx.ongoing.None? && s.tx.waiting.None?)))
  {
    hide Run;
    RunRests(Boot(credits, rca, room), actions);
  }

  /** No capture mode without a frame. */
  predicate ModesIdle(s: Sys) {
    && (s.tx.waiting.None? ==> s.tx.waitingMode == 0)
    && (s.tx.ongoing.None? && !s.pc.Dead? ==> s.tx.ongoingMode == 0)
  }

  lemma FillModes(s: Sys, used: nat)
    requires InBounds(s.tx) && s.pc == Fill(used) && ModesIdle(s)
    ensures ModesIdle(FillStep(s, used))
  {
    hide CopyLength, ToU8;
  }

  lemma ThreadModes(s: Sys, spiOk: bool, ins: seq<RxIn>)
    requires Safe(s) && ModesIdle(s)
    ensures ModesIdle(ThreadStep(s, spiOk, ins))
  {
    hide ProcessFrom, FillStep, Empties;
    if s.pc.Fill? {
      FillModes(s, s.pc.used);
    }
  }

  lemma StepModes(s: Sys, a: Action)
    requires Safe(s) && ModesIdle(s)
    ensures ModesIdle(Step(s, a))
  {
    hide ThreadStep;
    if a.Thread? {
      ThreadModes(s, a.spiOk, a.ins);
    }
  }

  /** In every run a slot that is emptied takes its frame's capture mode along, so that no later frame inherits it. */
  lemma {:induction false} EmptySlotsHaveNoMode(credits: nat, rca: nat, room: nat, actions: seq<Action>)
    ensures ModesIdle(Run(Boot(credits, rca, room), actions))
  {
    if actions != [] {
      hide Step, Safe, ModesIdle;
      var n := |actions| - 1;
      EmptySlotsHaveNoMode(credits, rca, room, actions[..n]);
      StepModes(Run(Boot(credits, rca, room), actions[..n]), actions[n]);
    }
  }

  /** Length accounting, for every schedule: what is exchanged is the filled part of the buffer, which never
      overflows; data chunks come first, as many as the credits allow at most, and there are as many chunks as the
      larger of the data chunks and the chunks announced, or one for a bare interrupt. */
  lemma RoundLengths(credits: nat, rca: nat, room: nat, actions: seq<Action>)
    requires credits <= MAX_TX_CHUNKS && rca <= MAX_TX_CHUNKS
    requires forall a <- actions :: ValidAction(a)
    ensures
      var s := Run(Boot(credits, rca, room), actions);
      && (s.pc.Exchange? || s.pc.Process? ==>
            var n, d := |s.round|, DataCount(s.round);
            && s.pc.len == s.bufOffset == 68 * n
            && DataFirst(s.round) && d <= s.link.credits
            && (n == Max(d, s.link.rca) || (n == 1 && d == 0 && s.link.rca == 0))
            && 68 <= s.pc.len <= 48 * 68)
      && (s.pc.Fill? ==> s.bufOffset <= 48 * 68)
  {
    hide Streamed, HandedOver, Counted, WithinCredits, Owned, Run, Live, Step;
    RunKeeps(credits, rca, room, actions);
    var s := Run(Boot(credits, rca, room), actions);
    if BareInterrupt(s.link.rca, s.round) {
      BareInterruptCount(s.link.rca, s.round);
    }
  }
}
