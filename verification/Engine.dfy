/** The transfer engine as three interleaved actors: a transmit caller, the SPI thread and the interrupt handler. */
module Engine {
  import opened Words
  import opened Wire
  import opened Transmit
  import opened Receive

  /** A frame handed to oa_tc6_start_xmit with its capture mode. */
  datatype Skb = Skb(data: seq<byte>, mode: byte)

  /** The transmit caller, between its check of the waiting slot and its store into it. */
  datatype Caller = Idle | Checked(skb: Skb)

  /** Where the SPI thread stands in oa_tc6_spi_thread_handler and oa_tc6_try_spi_transfer. */
  datatype Pc =
    | Waiting
    | RoundStart
    | Fill(used: nat)
    | ForRx(len: nat)
    | TestInt(len: nat)
    | ClearInt(len: nat)
    | Decide(len: nat)
    | Exchange(len: nat)
    | Process(len: nat)
    | Dead

  /** A completed exchange: how many data chunks it carried and what came back. */
  datatype Round = Round(data: nat, ins: seq<RxIn>, examined: nat)

  /** The fields shared by the actors, the private ones of each, and the history of the run: `log` is all chunks
      composed so far, `sent` those of transfers that worked, `round` those of the current round. */
  datatype Sys = Sys(
    tx: TxState, link: Link, intFlag: bool, bufOffset: nat,
    caller: Caller, pc: Pc,
    accepted: seq<Skb>, completed: seq<Skb>, abandoned: seq<Skb>, refused: nat,
    log: seq<TxChunk>, sent: seq<TxChunk>, round: seq<TxChunk>, rounds: seq<Round>, unserved: bool)

  datatype Action =
    | Xmit(skb: Skb)
    | LinearizeFails
    | Store
    | Interrupt
    | Thread(spiOk: bool, ins: seq<RxIn>)

  /** oa_tc6_init leaves the credits read from the buffer status register and the interrupt flag set; receive buffers
      hold `room` bytes. */
  function Boot(credits: nat, rca: nat, room: nat): Sys {
    Sys(EMPTY_TX, Link(EmptyRx(room), credits, rca), true, 0, Idle, Waiting, [], [], [], 0, [], [], [], [], true)
  }

  /** The SPI thread only ever reads the ongoing frame inside its bounds. */
  predicate Safe(s: Sys) {
    s.pc.Dead? || InBounds(s.tx)
  }

  function Empties(n: nat): (cs: seq<TxChunk>)
    ensures |cs| == n
  {
    seq(n, _ => EMPTY_CHUNK)
  }

  /** Chunks appended to the SPI buffer. */
  function Emit(s: Sys, cs: seq<TxChunk>): Sys {
    s.(log := s.log + cs, round := s.round + cs, bufOffset := s.bufOffset + CHUNK_SIZE * |cs|)
  }

  /** One turn of the loop of oa_tc6_prepare_spi_tx_buf_for_tx_skbs; taking the slot is atomic under the lock. */
  function FillStep(s: Sys, used: nat): Sys
    requires InBounds(s.tx)
  {
    if used < s.link.credits then
      var t := TakeWaiting(s.tx);
      if t.ongoing.None? then
        s.(tx := t, pc := ForRx(used * CHUNK_SIZE))
      else
        var (t', c) := AddChunk(t);
        var done := if c.ev then [Skb(t.ongoing.value, t.ongoingMode)] else [];
        Emit(s.(tx := t', pc := Fill(used + 1), completed := s.completed + done), [c])
    else
      s.(pc := ForRx(used * CHUNK_SIZE))
  }

  /** oa_tc6_prepare_spi_tx_buf_for_rx_chunks */
  function ForRxStep(s: Sys, len: nat): Sys {
    var txChunks := len / CHUNK_SIZE;
    if txChunks >= s.link.rca then s.(pc := TestInt(len))
    else
      var needed := s.link.rca - txChunks;
      Emit(s.(pc := TestInt(needed * CHUNK_SIZE + len)), Empties(needed))
  }

  /** oa_tc6_cleanup_ongoing_tx_skb: the offset is not reset. */
  function CleanupTx(t: TxState): TxState {
    if t.ongoing.Some? then t.(ongoing := None, dropped := t.dropped + 1) else t
  }

  function DataCount(cs: seq<TxChunk>): nat {
    if cs == [] then 0 else DataCount(cs[..|cs| - 1]) + if cs[|cs| - 1].dv then 1 else 0
  }

  function Slot(frame: Option<seq<byte>>, mode: byte): seq<Skb> {
    match frame
    case None => []
    case Some(f) => [Skb(f, mode)]
  }

  /** What the transfer loop does with the result of a round's receive pass. */
  function AfterPass(s: Sys, ins: seq<RxIn>, p: Pass): Sys {
    var s' := s.(link := p.link, rounds := s.rounds + [Round(DataCount(s.round), ins, p.examined)]);
    match p.outcome
    case Done => s'.(pc := RoundStart)
    case Again => s'.(pc := RoundStart)
    case Fault => s'.(pc := Dead)
    case Fatal(_) =>
      s'.(pc := Dead, tx := CleanupTx(s.tx), link := p.link.(rx := Cleanup(p.link.rx)),
          abandoned := Slot(s.tx.ongoing, s.tx.ongoingMode))
  }

  /** oa_tc6_process_spi_data_rx_buf and the end of the round. */
  function ProcessStep(s: Sys, ins: seq<RxIn>): Sys
    requires forall x <- ins :: ValidIn(x)
  {
    AfterPass(s, ins, ProcessFrom(s.link, ins, 0))
  }

  /** One atomic step of the SPI thread. */
  function ThreadStep(s: Sys, spiOk: bool, ins: seq<RxIn>): (s': Sys)
    requires Safe(s)
    ensures Safe(s')
  {
    match s.pc
    case Dead => s
    case Waiting => if s.intFlag || (s.tx.waiting.Some? && s.link.credits > 0) then s.(pc := RoundStart) else s
    case RoundStart =>
      s.(bufOffset := 0, round := [], pc := if s.tx.ongoing.Some? || s.tx.waiting.Some? then Fill(0) else ForRx(0))
    case Fill(used) => FillStep(s, used)
    case ForRx(len) => ForRxStep(s, len)
    case TestInt(len) => s.(pc := if s.intFlag then ClearInt(len) else Decide(len))
    case ClearInt(len) =>
      if len == 0 then Emit(s.(intFlag := false, pc := Decide(CHUNK_SIZE)), Empties(1))
      else s.(intFlag := false, pc := Decide(len))
    case Decide(len) => s.(pc := if len == 0 then Waiting else Exchange(len))
    case Exchange(len) =>
      if spiOk then s.(unserved := false, sent := s.sent + s.round, pc := Process(len))
      else s.(unserved := false, pc := Dead)
    case Process(len) =>
      if |ins| == len / CHUNK_SIZE && (forall x <- ins :: ValidIn(x)) then ProcessStep(s, ins) else s
  }

  /** One step of any actor; an action that is not enabled changes nothing. */
  function Step(s: Sys, a: Action): (s': Sys)
    requires Safe(s)
    ensures Safe(s')
  {
    match a
    case Xmit(skb) => if s.caller.Idle? && s.tx.waiting.None? then s.(caller := Checked(skb)) else s
    case LinearizeFails =>
      if s.caller.Checked? then
        s.(caller := Idle, tx := s.tx.(dropped := s.tx.dropped + 1), refused := s.refused + 1)
      else s
    case Store =>
      if s.caller.Checked? then
        s.(caller := Idle, accepted := s.accepted + [s.caller.skb],
           tx := s.tx.(waiting := Some(s.caller.skb.data), waitingMode := s.caller.skb.mode))
      else s
    case Interrupt => s.(intFlag := true, unserved := true)
    case Thread(spiOk, ins) => ThreadStep(s, spiOk, ins)
  }

  /** The state after a schedule of actions, in any interleaving. */
  function Run(s: Sys, actions: seq<Action>): (r: Sys)
    requires Safe(s)
    ensures Safe(r)
  {
    if actions == [] then s else Step(Run(s, actions[..|actions| - 1]), actions[|actions| - 1])
  }
}
