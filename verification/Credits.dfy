/** Transmit credits against a MAC-PHY with finitely many free buffers. */
module Credits {
  import opened Words
  import opened Wire
  import opened Transmit
  import opened Receive
  import opened Engine
  import opened EngineProofs
  import opened Quiescence
  import opened Schedule

  function Sum(ns: seq<nat>): nat {
    if ns == [] then 0 else Sum(ns[..|ns| - 1]) + ns[|ns| - 1]
  }

  /** Free transmit buffers after `k` chunks of a round: each of the first `data` chunks takes one, and the MAC-PHY
      frees `freed[j]` after chunk `j`. A negative count is a transmit buffer overflow. */
  function FreeAfter(free: int, data: nat, freed: seq<nat>, k: nat): int
    requires k <= |freed|
  {
    free + Sum(freed[..k]) - if k < data then k else data
  }

  /** Every data chunk of the round finds a free buffer. */
  predicate NoTxOverflow(free: int, data: nat, freed: seq<nat>)
    requires data <= |freed|
  {
    forall k :: 0 <= k < data ==> FreeAfter(free, data, freed, k) >= 1
  }

  /** No footer promises more credits than there are free buffers. */
  predicate Honest(free: int, data: nat, freed: seq<nat>, txcs: seq<nat>)
    requires |txcs| == |freed|
  {
    forall k :: 0 <= k < |txcs| ==> txcs[k] <= FreeAfter(free, data, freed, k + 1) || txcs[k] == 0
  }

  function Txcs(ins: seq<RxIn>): (cs: seq<nat>)
    ensures |cs| == |ins|
  {
    seq(|ins|, k requires 0 <= k < |ins| => ins[k].ft.txc)
  }

  lemma {:induction false} SumGrows(ns: seq<nat>, i: nat, j: nat)
    requires i <= j <= |ns|
    ensures Sum(ns[..i]) <= Sum(ns[..j])
    decreases j
  {
    if i < j {
      assert ns[..j][..j - 1] == ns[..j - 1];
      SumGrows(ns, i, j - 1);
    }
  }

  lemma GrantedDataFits(free: int, data: nat, freed: seq<nat>)
    requires data <= |freed| && data <= free
    ensures NoTxOverflow(free, data, freed)
    ensures FreeAfter(free, data, freed, |freed|) >= 0
  {
    forall k | 0 <= k < data
      ensures FreeAfter(free, data, freed, k) >= 1
    {
      SumGrows(freed, 0, k);
    }
    SumGrows(freed, 0, |freed|);
  }

  // ------------------------------------------------------------ when a footer's credits can be trusted

  /** Whatever an honest MAC-PHY does, the credits of footer `examined - 1` are good at the end of the round. */
  ghost predicate Trustworthy(data: nat, chunks: nat, examined: nat)
    requires 1 <= examined <= chunks && data <= chunks
  {
    forall free: int, freed: seq<nat>, txcs: seq<nat> |
      |freed| == chunks && |txcs| == chunks && data <= free && Honest(free, data, freed, txcs) ::
      txcs[examined - 1] <= FreeAfter(free, data, freed, chunks)
  }

  lemma LateFooterTrusted(free: int, data: nat, freed: seq<nat>, txcs: seq<nat>, examined: nat)
    requires 1 <= examined <= |freed| == |txcs| && data <= |freed| && data <= free
    requires Honest(free, data, freed, txcs) && data <= examined
    ensures txcs[examined - 1] <= FreeAfter(free, data, freed, |freed|)
  {
    GrantedDataFits(free, data, freed);
    SumGrows(freed, examined, |freed|);
    assert txcs[examined - 1] <= FreeAfter(free, data, freed, examined - 1 + 1) || txcs[examined - 1] == 0;
  }

  lemma {:induction false} SumZeros(n: nat)
    ensures Sum(seq(n, _ => 0)) == 0
  {
    if n > 0 {
      assert seq(n, _ => 0 as nat)[..n - 1] == seq(n - 1, _ => 0 as nat);
      SumZeros(n - 1);
    }
  }

  /** A MAC-PHY with exactly `data` buffers that frees none and reports one credit early. */
  lemma EarlyFooterMisleads(data: nat, chunks: nat, examined: nat)
    requires 1 <= examined < data <= chunks
    ensures !Trustworthy(data, chunks, examined)
  {
    var freed: seq<nat> := seq(chunks, _ => 0);
    var txcs: seq<nat> := seq(chunks, k => if k == examined - 1 then 1 else 0);
    forall k | 0 <= k <= chunks
      ensures Sum(freed[..k]) == 0
    {
      assert freed[..k] == seq(k, _ => 0 as nat);
      SumZeros(k);
    }
    assert FreeAfter(data, data, freed, chunks) == 0;
    assert Honest(data, data, freed, txcs);
  }

  /** The credits left by a round cut short are safe for every honest MAC-PHY exactly when the overflow was reported
      at or after the round's last data chunk. */
  lemma TrustworthyIff(data: nat, chunks: nat, examined: nat)
    requires 1 <= examined <= chunks && data <= chunks
    ensures Trustworthy(data, chunks, examined) <==> data <= examined
  {
    if data <= examined {
      forall free: int, freed: seq<nat>, txcs: seq<nat> |
        |freed| == chunks && |txcs| == chunks && data <= free && Honest(free, data, freed, txcs)
        ensures txcs[examined - 1] <= FreeAfter(free, data, freed, chunks)
      {
        LateFooterTrusted(free, data, freed, txcs, examined);
      }
    } else {
      EarlyFooterMisleads(data, chunks, examined);
    }
  }

  // ------------------------------------------------------------ over whole runs

  predicate Matching(rounds: seq<Round>, freed: seq<seq<nat>>) {
    |freed| == |rounds| && forall k :: 0 <= k < |rounds| ==> |freed[k]| == |rounds[k].ins|
  }

  /** Free buffers after the given rounds. */
  function FreeAfterRounds(free: int, rounds: seq<Round>, freed: seq<seq<nat>>): int
    requires Matching(rounds, freed)
  {
    if rounds == [] then free
    else
      var n := |rounds| - 1;
      FreeAfter(FreeAfterRounds(free, rounds[..n], freed[..n]), rounds[n].data, freed[n], |freed[n]|)
  }

  /** The MAC-PHY is honest in every round. */
  predicate AllHonest(free: int, rounds: seq<Round>, freed: seq<seq<nat>>)
    requires Matching(rounds, freed)
  {
    rounds == [] ||
    (var n := |rounds| - 1;
     && Honest(FreeAfterRounds(free, rounds[..n], freed[..n]), rounds[n].data, freed[n], Txcs(rounds[n].ins))
     && AllHonest(free, rounds[..n], freed[..n]))
  }

  /** It reports an overflow no earlier than with the last data chunk. */
  predicate AllLate(rounds: seq<Round>) {
    forall r <- rounds :: r.data <= r.examined
  }

  /** No round overflowed the MAC-PHY's transmit buffers. */
  predicate NeverOverflowed(free: int, rounds: seq<Round>, freed: seq<seq<nat>>)
    requires Matching(rounds, freed)
  {
    rounds == [] ||
    (var n := |rounds| - 1;
     && rounds[n].data <= |freed[n]|
     && NoTxOverflow(FreeAfterRounds(free, rounds[..n], freed[..n]), rounds[n].data, freed[n])
     && NeverOverflowed(free, rounds[..n], freed[..n]))
  }

  lemma {:induction false} RoundsStayWithinFree(boot: nat, free: int, rounds: seq<Round>, freed: seq<seq<nat>>)
    requires Matching(rounds, freed) && WithinCredits(boot, rounds)
    requires boot <= free && AllHonest(free, rounds, freed) && AllLate(rounds)
    ensures NeverOverflowed(free, rounds, freed)
    ensures CreditsAfter(boot, rounds) <= FreeAfterRounds(free, rounds, freed)
  {
    if rounds != [] {
      var n := |rounds| - 1;
      assert rounds[n] in rounds;
      RoundsStayWithinFree(boot, free, rounds[..n], freed[..n]);
      var before := FreeAfterRounds(free, rounds[..n], freed[..n]);
      GrantedDataFits(before, rounds[n].data, freed[n]);
      LateFooterTrusted(before, rounds[n].data, freed[n], Txcs(rounds[n].ins), rounds[n].examined);
    }
  }

  lemma InFlightWithinCredits(s: Sys)
    requires s.pc.Exchange? || s.pc.Process?
    requires Shaped(s.pc, s.link.credits, s.link.rca, s.bufOffset, s.round)
    ensures DataCount(s.round) <= s.link.credits
  {
    if BareInterrupt(s.link.rca, s.round) {
      BareInterruptCount(s.link.rca, s.round);
    }
  }

  /** Credit safety, for every schedule: against a MAC-PHY whose footers never promise more than is free, no transmit
      buffer ever overflows, the credits the driver holds between rounds never exceed the free buffers, and so the
      data chunks of the round in flight fit as well. */
  lemma CreditSafety(credits: nat, rca: nat, room: nat, actions: seq<Action>, free: int, freed: seq<seq<nat>>)
    requires credits <= MAX_TX_CHUNKS && rca <= MAX_TX_CHUNKS && credits <= free
    requires forall a <- actions :: ValidAction(a)
    requires Matching(Run(Boot(credits, rca, room), actions).rounds, freed)
    requires AllHonest(free, Run(Boot(credits, rca, room), actions).rounds, freed)
    requires AllLate(Run(Boot(credits, rca, room), actions).rounds)
    ensures
      var s := Run(Boot(credits, rca, room), actions);
      && NeverOverflowed(free, s.rounds, freed)
      && s.link.credits <= FreeAfterRounds(free, s.rounds, freed)
      && (s.pc.Exchange? || s.pc.Process? ==> DataCount(s.round) <= FreeAfterRounds(free, s.rounds, freed))
  {
    RunKeeps(credits, rca, room, actions);
    var s := Run(Boot(credits, rca, room), actions);
    RoundsStayWithinFree(credits, free, s.rounds, freed);
    if s.pc.Exchange? || s.pc.Process? {
      InFlightWithinCredits(s);
    }
  }

  // ------------------------------------------------------------ what an early report leads to

  /** An empty chunk whose footer reports `txc` credits, and possibly an overflow. */
  function Reporting(overflow: bool, txc: nat): (x: RxIn)
    requires txc < 32
    ensures ValidIn(x)
  {
    RxIn(Zeros(CHUNK_PAYLOAD_SIZE), Zeros(MEMORY_BEHIND),
         Footer(overflow, false, true, 0, false, false, 0, false, 0, txc), Bits(0x8), true)
  }

  lemma ReportedPass(l: Link, overflow: bool, txc: nat, rest: seq<RxIn>)
    requires txc < 32 && (overflow || rest == []) && forall x <- rest :: ValidIn(x)
    ensures
      var ins := [Reporting(overflow, txc)] + rest;
      && (forall x <- ins :: ValidIn(x))
      && var p := ProcessFrom(l, ins, 0);
         p.outcome == (if overflow then Again else Done) && p.examined == 1 && p.link.credits == txc && p.link.rca == 0
  {
    var x := Reporting(overflow, txc);
    var ins := [x] + rest;
    assert ins[0] == x && RxBufferOverflow(0x8);
    assert ProcessChunk(l, x).1 == if overflow then Again else Done;
  }

  lemma {:induction false} AllData(cs: seq<TxChunk>)
    requires forall c <- cs :: c.dv
    ensures DataCount(cs) == |cs|
  {
    if cs != [] {
      assert cs[|cs| - 1] in cs;
      AllData(cs[..|cs| - 1]);
    }
  }

  /** With no chunk announced, a round is the data chunks that the credits buy. */
  lemma PreparedData(d: Driver)
    requires Live(d.tx) && d.link.rca == 0 && Min(d.link.credits, Remaining(d.tx)) > 0
    ensures
      var (t, cs) := Prepare(d);
      var n := Min(d.link.credits, Remaining(d.tx));
      |cs| == DataCount(cs) == n && Live(t) && Remaining(t) == Remaining(d.tx) - n
  {
    hide FillTx, Regular, DataCount;
    FillTxCounts(d.tx, d.link.credits);
    PrepareCounts(d);
    var data := FillTx(d.tx, d.link.credits).1;
    assert Empties(0) == [] && data + [] == data;
    AllData(data);
  }

  lemma FinishRound(s: Sys, ins: seq<RxIn>)
    requires s.pc == Exchange(CHUNK_SIZE * |ins|) && InBounds(s.tx) && forall x <- ins :: ValidIn(x)
    requires var o := ProcessFrom(s.link, ins, 0).outcome; o == Done || o == Again
    ensures
      var p := ProcessFrom(s.link, ins, 0);
      var s' := Run(s, [Thread(true, ins), Thread(true, ins)]);
      && s'.pc.RoundStart? && s'.tx == s.tx && s'.link == p.link
      && s'.rounds == s.rounds + [Round(DataCount(s.round), ins, p.examined)]
  {
    hide ProcessFrom;
    var a := Thread(true, ins);
    assert [a, a][..1] == [a] && [a][..0] == [];
    assert Run(s, []) == s;
    assert Run(s, [a]) == Step(s, a);
    assert Run(s, [a, a]) == Step(Run(s, [a]), a);
  }

  /** A whole round from its start: the data that the credits buy goes out, `ins` comes back. */
  lemma DataRound(s: Sys, ins: seq<RxIn>) returns (actions: seq<Action>)
    requires s.pc.RoundStart? && Live(s.tx) && s.link.rca == 0
    requires |ins| == Min(s.link.credits, Remaining(s.tx)) > 0 && forall x <- ins :: ValidIn(x)
    requires forall l: Link :: ProcessFrom(l, ins, 0).outcome == Done || ProcessFrom(l, ins, 0).outcome == Again
    ensures Safe(s) && forall a <- actions :: a.Thread?
    ensures
      var p := ProcessFrom(s.link, ins, 0);
      var s' := Run(s, actions);
      && s'.pc.RoundStart? && Live(s'.tx) && Remaining(s'.tx) == Remaining(s.tx) - |ins| && s'.link == p.link
      && s'.rounds == s.rounds + [Round(|ins|, ins, p.examined)]
  {
    hide ProcessFrom, Prepare, Alone, Run, Live, Remaining;
    LiveIsInBounds(s.tx);
    PreparedData(Driver(s.tx, s.link, s.intFlag));
    var k := RoundAlone(s, true, ins);
    AloneIsRun(s, k, true, ins);
    LiveIsInBounds(Prepare(Driver(s.tx, s.link, s.intFlag)).0);
    FinishRound(Alone(s, k, true, ins), ins);
    var last := [Thread(true, ins), Thread(true, ins)];
    RunConcat(s, Repeat(Thread(true, ins), k), last);
    actions := Repeat(Thread(true, ins), k) + last;
  }

  lemma FreshData(skb: Skb)
    requires ValidLength(skb.data) && |skb.data| > 2 * CHUNK_PAYLOAD_SIZE
    ensures
      var t := EMPTY_TX.(waiting := Some(skb.data), waitingMode := skb.mode);
      Live(t) && Remaining(t) >= 3
  {
  }

  lemma ZeroSums()
    ensures Sum([]) == 0 && Sum([0]) == 0 && Sum([0, 0]) == 0
    ensures [0, 0][..0] == [] && [0, 0][..1] == [0] && [0, 0][..2] == [0, 0] && [0][..0] == [] && [0][..1] == [0]
  {
    assert [0, 0][..1] == [0] && [0][..0] == [];
  }

  /** The accounts of two rounds: of two buffers both are taken by the first, whose first footer still reports one; the
      second round then sends into none. */
  lemma TwoRoundsOverflow(x: RxIn, y: RxIn, z: RxIn)
    requires x.ft.txc == 1 && y.ft.txc == 0 && z.ft.txc == 0
    ensures
      var rounds, freed := [Round(2, [x, y], 1), Round(1, [z], 1)], [[0, 0], [0]];
      && Matching(rounds, freed) && AllHonest(2, rounds, freed) && !NeverOverflowed(2, rounds, freed)
  {
    var r0, r1 := Round(2, [x, y], 1), Round(1, [z], 1);
    var rounds, freed: seq<seq<nat>> := [r0, r1], [[0, 0], [0]];
    assert rounds[..1] == [r0] && freed[..1] == [[0, 0]] && [r0][..0] == [] && freed[..1][..0] == [];
    ZeroSums();
    assert FreeAfterRounds(2, [], []) == 2;
    assert FreeAfterRounds(2, [r0], [[0, 0]]) == FreeAfter(2, 2, [0, 0], 2) == 0;
    assert Honest(2, 2, [0, 0], Txcs([x, y]));
    assert AllHonest(2, [r0], [[0, 0]]);
    assert Honest(0, 1, [0], Txcs([z]));
    assert FreeAfter(0, 1, [0], 0) == 0;
    assert !NoTxOverflow(0, 1, [0]);
  }

  /** An early report does overflow the MAC-PHY, honest as it is in every round: of any frame of three chunks or more,
      two are sent into its two buffers, the first footer reports one free buffer and an overflow, and the third chunk
      finds none. */
  lemma EarlyReportOverflows(room: nat, skb: Skb) returns (actions: seq<Action>)
    requires ValidLength(skb.data) && |skb.data| > 2 * CHUNK_PAYLOAD_SIZE
    ensures forall a <- actions :: ValidAction(a)
    ensures
      var rounds := Run(Boot(2, 0, room), actions).rounds;
      var freed: seq<seq<nat>> := [[0, 0], [0]];
      Matching(rounds, freed) && AllHonest(2, rounds, freed) && !NeverOverflowed(2, rounds, freed)
  {
    hide Run, ProcessFrom, Matching, AllHonest, NeverOverflowed, Remaining, Live;
    var x, y, z := Reporting(true, 1), Reporting(false, 0), Reporting(false, 0);
    forall l: Link
      ensures ProcessFrom(l, [x, y], 0).outcome == Again && ProcessFrom(l, [x, y], 0).examined == 1
      ensures ProcessFrom(l, [x, y], 0).link.credits == 1 && ProcessFrom(l, [x, y], 0).link.rca == 0
      ensures ProcessFrom(l, [z], 0).outcome == Done && ProcessFrom(l, [z], 0).examined == 1
    {
      ReportedPass(l, true, 1, [y]);
      ReportedPass(l, false, 0, []);
      assert [x] + [y] == [x, y] && [z] + [] == [z];
    }
    var b := Boot(2, 0, room);
    var first := [Xmit(skb), Store, Thread(true, [])];
    AfterThree(2, 0, room, skb);
    FreshData(skb);
    var second := DataRound(Run(b, first), [x, y]);
    RunConcat(b, first, second);
    var third := DataRound(Run(b, first + second), [z]);
    RunConcat(b, first + second, third);
    TwoRoundsOverflow(x, y, z);
    actions := first + second + third;
    assert Run(b, actions).rounds == [Round(2, [x, y], 1), Round(1, [z], 1)];
  }
}
