/** The receive side of whole runs: the rounds of the interleaved engine as one session of the stream. */
module Sessions {
  import opened Words
  import opened Transmit
  import opened Receive
  import opened Engine
  import opened EngineProofs
  import Stream

  /** The rounds of a run, with the chunks that the MAC-PHY dropped before each. */
  function SessionOf(missed: seq<seq<Stream.Event>>, rounds: seq<Round>): (xs: seq<Stream.Exchange>)
    requires |missed| == |rounds|
    ensures |xs| == |rounds|
  {
    seq(|rounds|, k requires 0 <= k < |rounds| => Stream.Exchange.Exchange(missed[k], rounds[k].ins))
  }

  /** All rounds so far were benign: nothing was wrong but overflows and register accesses to be retried. */
  predicate Benign(missed: seq<seq<Stream.Event>>, rounds: seq<Round>) {
    |missed| == |rounds| && forall x <- SessionOf(missed, rounds) :: Stream.ValidExchange(x)
  }

  lemma BenignFront(missed: seq<seq<Stream.Event>>, rounds: seq<Round>)
    requires Benign(missed, rounds) && rounds != []
    ensures
      var n := |rounds| - 1;
      && Benign(missed[..n], rounds[..n])
      && SessionOf(missed, rounds)
         == SessionOf(missed[..n], rounds[..n]) + [Stream.Exchange.Exchange(missed[n], rounds[n].ins)]
      && Stream.ValidExchange(Stream.Exchange.Exchange(missed[n], rounds[n].ins))
  {
    hide Stream.ValidExchange;
    var n := |rounds| - 1;
    var all, front := SessionOf(missed, rounds), SessionOf(missed[..n], rounds[..n]);
    assert all[n] in all;
    assert all == front + [all[n]];
  }

  /** A session with one more round. */
  lemma {:induction false} SessionGrows(l: Link, xs: seq<Stream.Exchange>, x: Stream.Exchange)
    requires (forall y <- xs :: Stream.ValidExchange(y)) && Stream.ValidExchange(x)
    ensures forall y <- xs + [x] :: Stream.ValidExchange(y)
    ensures
      Stream.RunSession(l, xs + [x]) ==
        match Stream.RunSession(l, xs)
        case None => None
        case Some(l') =>
          var p := ProcessFrom(l', x.ins, 0);
          if p.outcome == Done || p.outcome == Again then Some(p.link) else None
    decreases |xs|
  {
    hide ProcessFrom;
    if xs == [] {
      assert [] + [x] == [x] && [x][1..] == [];
    } else {
      assert xs[0] in xs;
      assert (xs + [x])[0] == xs[0] && (xs + [x])[1..] == xs[1..] + [x];
      var p := ProcessFrom(l, xs[0].ins, 0);
      if p.outcome == Done || p.outcome == Again {
        SessionGrows(p.link, xs[1..], x);
      }
    }
  }

  /** The session got through, and the engine stands where it ended; or a round of it failed, and the thread is dead. */
  predicate Follows(s: Sys, end: Option<Link>) {
    match end
    case None => s.pc.Dead?
    case Some(l) => s.link == l
  }

  lemma FillAloof(s: Sys, used: nat)
    requires InBounds(s.tx)
    ensures FillStep(s, used).rounds == s.rounds && FillStep(s, used).link == s.link
  {
    hide AddChunk, TakeWaiting;
  }

  /** A step either completes a round or leaves the link and the rounds alone. */
  lemma StepFollows(s: Sys, a: Action)
    requires Safe(s)
    ensures
      var s' := Step(s, a);
      || (s'.rounds == s.rounds && s'.link == s.link && (s.pc.Dead? ==> s'.pc.Dead?))
      || (&& a.Thread? && s.pc.Process? && (forall x <- a.ins :: ValidIn(x))
          && s' == AfterPass(s, a.ins, ProcessFrom(s.link, a.ins, 0)))
  {
    hide ProcessFrom, FillStep;
    if s.pc.Fill? {
      FillAloof(s, s.pc.used);
    }
  }

  lemma AfterBenignPass(s: Sys, ins: seq<RxIn>)
    requires forall x <- ins :: ValidIn(x) && Stream.Benign(x)
    ensures
      var p := ProcessFrom(s.link, ins, 0);
      Follows(AfterPass(s, ins, p), if p.outcome == Done || p.outcome == Again then Some(p.link) else None)
  {
    hide ProcessFrom, Stream.Benign;
    Stream.RoundDrives(s.link, ins, 0);
  }

  lemma EmptySession(l: Link)
    ensures Stream.RunSession(l, SessionOf([], [])) == Some(l)
  {
  }

  lemma GrownRounds(s: Sys, ins: seq<RxIn>)
    requires forall x <- ins :: ValidIn(x)
    ensures
      var p := ProcessFrom(s.link, ins, 0);
      AfterPass(s, ins, p).rounds == s.rounds + [Round(DataCount(s.round), ins, p.examined)]
  {
    hide ProcessFrom;
  }

  lemma BenignIns(x: Stream.Exchange)
    requires Stream.ValidExchange(x)
    ensures forall y <- x.ins :: ValidIn(y) && Stream.Benign(y)
  {
  }

  lemma OneMoreRound(l0: Link, s: Sys, ins: seq<RxIn>, missed: seq<seq<Stream.Event>>)
    requires (forall x <- ins :: ValidIn(x)) && s.pc.Process?
    requires Benign(missed, AfterPass(s, ins, ProcessFrom(s.link, ins, 0)).rounds)
    requires |missed| == |s.rounds| + 1 && Benign(missed[..|s.rounds|], s.rounds)
    requires Follows(s, Stream.RunSession(l0, SessionOf(missed[..|s.rounds|], s.rounds)))
    ensures
      var s' := AfterPass(s, ins, ProcessFrom(s.link, ins, 0));
      Follows(s', Stream.RunSession(l0, SessionOf(missed, s'.rounds)))
  {
    hide ProcessFrom, Stream.ValidExchange, Stream.RunSession, AfterPass;
    var n := |s.rounds|;
    var s' := AfterPass(s, ins, ProcessFrom(s.link, ins, 0));
    GrownRounds(s, ins);
    BenignFront(missed, s'.rounds);
    assert s'.rounds[..n] == s.rounds;
    var x := Stream.Exchange.Exchange(missed[n], ins);
    SessionGrows(l0, SessionOf(missed[..n], s.rounds), x);
    BenignIns(x);
    AfterBenignPass(s, ins);
  }

  /** The receive state, credits and chunk count of a run are those of the session of its rounds. */
  lemma {:induction false} RunIsSession(s0: Sys, actions: seq<Action>, missed: seq<seq<Stream.Event>>)
    requires Safe(s0) && s0.rounds == [] && Benign(missed, Run(s0, actions).rounds)
    ensures
      var s := Run(s0, actions);
      Follows(s, Stream.RunSession(s0.link, SessionOf(missed, s.rounds)))
    decreases |actions|
  {
    hide Step, Safe, Stream.ValidExchange, Stream.RunSession, AfterPass;
    if actions == [] {
      EmptySession(s0.link);
    } else {
      var a := actions[|actions| - 1];
      var s := Run(s0, actions[..|actions| - 1]);
      var s' := Step(s, a);
      StepFollows(s, a);
      if s'.rounds == s.rounds && s'.link == s.link && (s.pc.Dead? ==> s'.pc.Dead?) {
        RunIsSession(s0, actions[..|actions| - 1], missed);
      } else {
        GrownRounds(s, a.ins);
        BenignFront(missed, s'.rounds);
        var n := |s.rounds|;
        RunIsSession(s0, actions[..|actions| - 1], missed[..n]);
        OneMoreRound(s0.link, s, a.ins, missed);
      }
    }
  }

  /** Delivery for every schedule whose rounds are benign, whatever the caller, the interrupts and the SPI transfers do:
      if nothing spoils the MAC-PHY's stream, the driver has delivered exactly its intact frames; if something does, the
      thread has died or something else was delivered. */
  lemma RunDeliversIff(credits: nat, rca: nat, room: nat, actions: seq<Action>, missed: seq<seq<Stream.Event>>)
    requires Benign(missed, Run(Boot(credits, rca, room), actions).rounds)
    requires Stream.AllLegal(Stream.NOTHING,
                             Stream.SessionEvents(SessionOf(missed, Run(Boot(credits, rca, room), actions).rounds)))
    ensures
      var s := Run(Boot(credits, rca, room), actions);
      var es := Stream.SessionEvents(SessionOf(missed, s.rounds));
      var intact := Stream.MeaningOf(Stream.NOTHING, es).intact;
      && (Stream.Unspoilt(room, Stream.NOTHING, es) ==> s.link.rx.delivered == intact)
      && (!s.pc.Dead? && s.link.rx.delivered == intact ==> Stream.Unspoilt(room, Stream.NOTHING, es))
  {
    hide Run;
    RunIsSession(Boot(credits, rca, room), actions, missed);
    Stream.SessionDeliversIff(room, credits, rca, SessionOf(missed, Run(Boot(credits, rca, room), actions).rounds));
  }
}
