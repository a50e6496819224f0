/** Loss on the receive side: which frames of the MAC-PHY's chunk stream the driver delivers. */
module Stream {
  import opened Words
  import opened Wire
  import opened Receive

  /** What happens to the chunks of the MAC-PHY's stream, in order: a data chunk is processed or never
      processed, and an overflow status may be seen between two chunks. */
  datatype Event =
    | Seen(data: seq<byte>, behind: seq<byte>, ft: Footer)
    | Lost(data: seq<byte>, behind: seq<byte>, ft: Footer)
    | OverflowStatus

  predicate ValidEvent(e: Event) {
    e.OverflowStatus? || (ValidPayload(e.data, e.behind) && ValidFooter(e.ft))
  }

  function EventCut(e: Event): Cut
    requires ValidEvent(e) && !e.OverflowStatus?
  {
    CutOf(e.ft.sv, e.ft.swo, e.ft.ev, e.ft.ebo, e.data)
  }

  /** The stream as the MAC-PHY means it. `cur` is the frame in transit, `broken` if one of its chunks was lost, an
      overflow status was seen since it started, or its first chunk has no room for the timestamp; `quiet` while no
      frame start was seen since the last overflow status; `kept` is the number of bytes in the buffer of a seen start
      that awaits its end; `intact` collects the frames that are not broken and have room for what is stripped, without
      timestamp and, beyond one chunk, without check sequence; `overrun` counts starts seen while a buffer was kept. */
  datatype Meaning = Meaning(cur: Option<seq<byte>>, broken: bool, quiet: bool, kept: Option<nat>,
                             intact: seq<seq<byte>>, overrun: nat)

  const NOTHING := Meaning(None, false, false, None, [], 0)

  /** A frame without its eight bytes of timestamp. */
  function StripHead(f: seq<byte>): seq<byte>
    requires |f| >= 8
  {
    f[8..]
  }

  /** A frame without timestamp and four bytes of check sequence. */
  function StripBoth(f: seq<byte>): seq<byte>
    requires |f| >= 12
  {
    f[8..|f| - 4]
  }

  /** The chunk continues, ends or starts frames as the stream's grammar allows. */
  predicate Legal(m: Meaning, e: Event) {
    && ValidEvent(e)
    && (m.cur.Some? && !m.broken ==> |m.cur.value| >= TIMESTAMP_SIZE)
    && (!e.OverflowStatus? ==>
          match EventCut(e)
          case Middle(_) => m.cur.Some?
          case Starts(_) => m.cur.None?
          case Ends(_) => m.cur.Some?
          case Whole(_) => m.cur.None?
          case EndsAndStarts(_, _) => m.cur.Some?)
  }

  /** How many bytes go into a fresh buffer when `size` bytes of its frame's first chunk arrive, as a u8. */
  function FirstBytes(size: nat): nat {
    (size - TIMESTAMP_SIZE) % 256
  }

  /** A frame of one byte in a chunk of its own is not recognised: the chunk counts as one in the middle of a frame. */
  predicate Unrecognised(f: seq<byte>) {
    |f| == 1
  }

  /** The frame that a tail completes, if it is whole and has room for the check sequence. */
  function Ended(m: Meaning, p: seq<byte>): seq<seq<byte>>
    requires m.cur.Some? && (!m.broken ==> |m.cur.value| >= TIMESTAMP_SIZE)
  {
    if m.broken || |p| < FCS_SIZE then [] else [StripBoth(m.cur.value + p)]
  }

  function NextMeaning(m: Meaning, e: Event): Meaning
    requires Legal(m, e)
  {
    var one := if m.kept.Some? then 1 else 0;
    var more := if m.kept.Some? then Some(m.kept.value + CHUNK_PAYLOAD_SIZE) else None;
    match e
    case OverflowStatus => m.(broken := true, quiet := true, kept := None)
    case Lost(_, _, _) =>
      (match EventCut(e)
       case Middle(p) => m.(cur := Some(m.cur.value + p), broken := true)
       case Starts(q) => m.(cur := Some(q), broken := true)
       case Ends(_) => m.(cur := None)
       case Whole(_) => m
       case EndsAndStarts(_, q) => m.(cur := Some(q), broken := true))
    case Seen(_, _, _) =>
      (match EventCut(e)
       case Middle(p) => m.(cur := Some(m.cur.value + p), kept := more)
       case Starts(q) =>
         m.(cur := Some(q), broken := |q| < TIMESTAMP_SIZE, quiet := false, kept := Some(FirstBytes(|q|)),
            overrun := m.overrun + one)
       case Ends(p) => m.(cur := None, kept := None, intact := m.intact + Ended(m, p))
       case Whole(f) =>
         if Unrecognised(f) then m.(quiet := false, kept := more)
         else
           m.(quiet := false, kept := None, overrun := m.overrun + one,
              intact := m.intact + if |f| < TIMESTAMP_SIZE then [] else [StripHead(f)])
       case EndsAndStarts(p, q) =>
         m.(cur := Some(q), broken := |q| < TIMESTAMP_SIZE, quiet := false, kept := Some(FirstBytes(|q|)),
            intact := m.intact + Ended(m, p)))
  }

  predicate AllLegal(m: Meaning, es: seq<Event>)
    decreases |es|
  {
    es == [] || (Legal(m, es[0]) && AllLegal(NextMeaning(m, es[0]), es[1..]))
  }

  function MeaningOf(m: Meaning, es: seq<Event>): Meaning
    requires AllLegal(m, es)
    decreases |es|
  {
    if es == [] then m else MeaningOf(NextMeaning(m, es[0]), es[1..])
  }

  /** A break that matters: a chunk of a broken frame is processed, no overflow status covers the break, and the
      chunk either ends a frame the driver believes in, or continues one it does not hold. */
  predicate Unflagged(m: Meaning, e: Event)
    requires Legal(m, e) && e.Seen?
  {
    m.broken && !m.quiet &&
    match EventCut(e)
    case Middle(_) => m.kept.None?
    case Ends(_) => true
    case EndsAndStarts(_, _) => m.kept.Some?
    case _ => false
  }

  /** The chunk ends a frame without room for what is stripped from it. */
  predicate Cramped(m: Meaning, e: Event)
    requires Legal(m, e) && e.Seen?
  {
    match EventCut(e)
    case Ends(p) => |p| < FCS_SIZE && !m.quiet
    case EndsAndStarts(p, _) => |p| < FCS_SIZE && m.kept.Some?
    case Whole(f) => if Unrecognised(f) then m.kept.None? else |f| < TIMESTAMP_SIZE
    case _ => false
  }

  /** The chunk makes a buffer larger than its room: that of a frame too long, or of one whose end was lost. */
  predicate Outgrows(room: nat, m: Meaning, e: Event)
    requires Legal(m, e) && e.Seen?
  {
    match EventCut(e)
    case Middle(p) => m.kept.Some? && m.kept.value + |p| > room
    case Starts(q) => FirstBytes(|q|) > room
    case Ends(p) => m.kept.Some? && m.kept.value + |p| - FCS_SIZE > room
    case Whole(f) =>
      if Unrecognised(f) then m.kept.Some? && m.kept.value + CHUNK_PAYLOAD_SIZE > room
      else |f| - TIMESTAMP_SIZE > room
    case EndsAndStarts(p, q) =>
      (m.kept.Some? && m.kept.value + |p| - FCS_SIZE > room) || FirstBytes(|q|) > room
  }

  /** The driver cannot cope with the chunk. */
  predicate Spoils(room: nat, m: Meaning, e: Event)
    requires Legal(m, e)
  {
    e.Seen? && (Unflagged(m, e) || Cramped(m, e) || Outgrows(room, m, e))
  }

  /** Every break that matters is flagged by an overflow status in time, and every frame taken for whole has room for
      what is stripped from it and fits its buffer. */
  predicate Unspoilt(room: nat, m: Meaning, es: seq<Event>)
    requires AllLegal(m, es)
    decreases |es|
  {
    es == [] || (!Spoils(room, m, es[0]) && Unspoilt(room, NextMeaning(m, es[0]), es[1..]))
  }

  // ------------------------------------------------------------ the driver on the same events

  /** The driver's reaction, with every allocation succeeding; None after a fault. */
  function React(r: RxState, e: Event): Option<RxState>
    requires ValidEvent(e)
  {
    match e
    case Lost(_, _, _) => Some(r)
    case OverflowStatus => Some(Cleanup(r.(overflow := true)))
    case Seen(data, behind, ft) =>
      var (r', o) := ChunkPayload(r, data, behind, ft, true);
      if o == Done then Some(r') else None
  }

  function Drive(r: RxState, es: seq<Event>): Option<RxState>
    requires forall e <- es :: ValidEvent(e)
    decreases |es|
  {
    if es == [] then Some(r)
    else
      match React(r, es[0])
      case None => None
      case Some(r') => Drive(r', es[1..])
  }

  /** The driver's mode and buffer follow the stream's. */
  predicate InStep(room: nat, r: RxState, m: Meaning) {
    && r.room == room
    && r.overflow == m.quiet
    && (match m.kept case None => r.skb.None? case Some(n) => r.skb.Some? && |r.skb.value| == n)
    && (m.quiet ==> m.kept.None?)
    && (m.cur.Some? && !m.broken ==>
          !m.quiet && |m.cur.value| >= TIMESTAMP_SIZE && m.kept == Some(|m.cur.value| - TIMESTAMP_SIZE))
    && r.leaked == m.overrun
  }

  /** In step, and the held bytes are those of the unbroken frame in transit. */
  predicate Agrees(room: nat, r: RxState, m: Meaning) {
    && InStep(room, r, m)
    && r.delivered == m.intact
    && (m.cur.Some? && !m.broken ==> r.skb == Some(StripHead(m.cur.value)))
  }

  /** In step before and after, with at least as many deliveries as intact frames gained. */
  predicate StaysInStep(room: nat, r: RxState, m: Meaning, e: Event)
    requires Legal(m, e) && React(r, e).Some?
  {
    var r', m' := React(r, e).value, NextMeaning(m, e);
    InStep(room, r', m') && |r'.delivered| - |m'.intact| >= |r.delivered| - |m.intact|
  }

  lemma UnseenInStep(room: nat, r: RxState, m: Meaning, e: Event)
    requires InStep(room, r, m) && Legal(m, e) && React(r, e).Some? && !e.Seen?
    ensures StaysInStep(room, r, m, e)
  {
    hide ChunkPayload;
  }

  lemma GoingOnInStep(room: nat, r: RxState, m: Meaning, e: Event)
    requires InStep(room, r, m) && Legal(m, e) && React(r, e).Some? && e.Seen? && !e.ft.sv
    ensures StaysInStep(room, r, m, e)
  {
  }

  lemma StartsInStep(room: nat, r: RxState, m: Meaning, e: Event)
    requires InStep(room, r, m) && Legal(m, e) && React(r, e).Some? && e.Seen? && e.ft.sv && !e.ft.ev
    ensures StaysInStep(room, r, m, e)
  {
  }

  lemma WholeInStep(room: nat, r: RxState, m: Meaning, e: Event)
    requires InStep(room, r, m) && Legal(m, e) && React(r, e).Some?
    requires e.Seen? && e.ft.sv && e.ft.ev && 4 * e.ft.swo <= e.ft.ebo
    ensures StaysInStep(room, r, m, e)
  {
  }

  lemma EndsAndStartsInStep(room: nat, r: RxState, m: Meaning, e: Event)
    requires InStep(room, r, m) && Legal(m, e) && React(r, e).Some?
    requires e.Seen? && e.ft.sv && e.ft.ev && 4 * e.ft.swo > e.ft.ebo
    ensures StaysInStep(room, r, m, e)
  {
  }

  lemma StepInStep(room: nat, r: RxState, m: Meaning, e: Event)
    requires InStep(room, r, m) && Legal(m, e) && React(r, e).Some?
    ensures StaysInStep(room, r, m, e)
  {
    hide React, InStep, NextMeaning, Legal, StaysInStep;
    if !e.Seen? {
      UnseenInStep(room, r, m, e);
    } else if !e.ft.sv {
      GoingOnInStep(room, r, m, e);
    } else if !e.ft.ev {
      StartsInStep(room, r, m, e);
    } else if 4 * e.ft.swo <= e.ft.ebo {
      WholeInStep(room, r, m, e);
    } else {
      EndsAndStartsInStep(room, r, m, e);
    }
  }

  lemma UnseenAgrees(room: nat, r: RxState, m: Meaning, e: Event)
    requires Agrees(room, r, m) && Legal(m, e) && !e.Seen?
    ensures React(r, e).Some? && Agrees(room, React(r, e).value, NextMeaning(m, e))
  {
    hide ChunkPayload;
  }

  /** A copy whose length did not wrap takes bytes of the payload only. */
  lemma CopiedInside(data: seq<byte>, behind: seq<byte>, from: nat, len: nat)
    requires ValidPayload(data, behind) && from + len <= CHUNK_PAYLOAD_SIZE
    ensures from + 255 <= |data + behind| && Copied(data + behind, from, len) == data[from..from + len]
  {
  }

  lemma HeadCopied(data: seq<byte>, behind: seq<byte>, from: nat, q: seq<byte>)
    requires ValidPayload(data, behind) && from + |q| <= CHUNK_PAYLOAD_SIZE && q == data[from..from + |q|]
    requires |q| >= TIMESTAMP_SIZE
    ensures from + TIMESTAMP_SIZE + 255 <= |data + behind|
    ensures [] + Copied(data + behind, from + TIMESTAMP_SIZE, |q| - TIMESTAMP_SIZE) == StripHead(q)
  {
    CopiedInside(data, behind, from + TIMESTAMP_SIZE, |q| - TIMESTAMP_SIZE);
  }

  /** A frame end with room for the check sequence, in the buffer and in the chunk. */
  lemma EndDelivers(r: RxState, data: seq<byte>, behind: seq<byte>, size: nat)
    requires ValidPayload(data, behind) && FCS_SIZE <= size <= CHUNK_PAYLOAD_SIZE
    requires r.skb.Some? && |r.skb.value| + size - FCS_SIZE <= r.room
    ensures FrameEnd(r, data + behind, 0, size)
         == (r.(skb := None, delivered := r.delivered + [r.skb.value + data[..size - FCS_SIZE]]), Done)
  {
    hide Copied;
    CopiedInside(data, behind, 0, size - FCS_SIZE);
    assert data[0..size - FCS_SIZE] == data[..size - FCS_SIZE];
  }

  /** A frame start that fits the buffer. */
  lemma StartFills(r: RxState, data: seq<byte>, behind: seq<byte>, from: nat)
    requires ValidPayload(data, behind) && from + 4 <= CHUNK_PAYLOAD_SIZE
    requires FirstBytes(CHUNK_PAYLOAD_SIZE - from) <= r.room
    ensures
      var (r', o) := FrameStart(r, data + behind, from, CHUNK_PAYLOAD_SIZE - from, true);
      var q := data[from..];
      && o == Done && r'.skb.Some? && |r'.skb.value| == FirstBytes(|q|)
      && r' == Allocate(r, true).(skb := r'.skb)
      && (|q| >= TIMESTAMP_SIZE ==> r'.skb.value == StripHead(q))
  {
    hide Copied;
    if CHUNK_PAYLOAD_SIZE - from >= TIMESTAMP_SIZE {
      HeadCopied(data, behind, from, data[from..]);
    }
  }

  lemma TailJoins(m: Meaning, p: seq<byte>)
    requires m.cur.Some? && |m.cur.value| >= TIMESTAMP_SIZE && |p| >= FCS_SIZE
    ensures StripHead(m.cur.value) + p[..|p| - FCS_SIZE] == StripBoth(m.cur.value + p)
  {
  }

  /** A chunk that starts no frame. */
  lemma GoingOnAgrees(room: nat, r: RxState, m: Meaning, e: Event)
    requires Agrees(room, r, m) && Legal(m, e) && !Spoils(room, m, e)
    requires e.Seen? && !e.ft.sv
    ensures React(r, e).Some? && Agrees(room, React(r, e).value, NextMeaning(m, e))
  {
    assert m.intact + [] == m.intact;
    match EventCut(e)
    case Middle(p) =>
      if !m.broken {
        assert StripHead(m.cur.value) + p == StripHead(m.cur.value + p);
      }
    case Ends(p) =>
      if m.kept.Some? {
        EndDelivers(r, e.data, e.behind, |p|);
        assert e.data[..|p| - FCS_SIZE] == p[..|p| - FCS_SIZE];
        TailJoins(m, p);
      }
  }

  /** A chunk in which a frame starts and none ends. */
  lemma StartsAgrees(room: nat, r: RxState, m: Meaning, e: Event)
    requires Agrees(room, r, m) && Legal(m, e) && !Spoils(room, m, e)
    requires e.Seen? && e.ft.sv && !e.ft.ev
    ensures React(r, e).Some? && Agrees(room, React(r, e).value, NextMeaning(m, e))
  {
    hide FrameStart, StripHead;
    StartFills(r.(overflow := false), e.data, e.behind, 4 * e.ft.swo);
  }

  /** A chunk with a whole frame. */
  lemma WholeAgrees(room: nat, r: RxState, m: Meaning, e: Event)
    requires Agrees(room, r, m) && Legal(m, e) && !Spoils(room, m, e)
    requires e.Seen? && e.ft.sv && e.ft.ev && 4 * e.ft.swo <= e.ft.ebo
    ensures React(r, e).Some? && Agrees(room, React(r, e).value, NextMeaning(m, e))
  {
    hide Copied;
    var f := e.data[4 * e.ft.swo..e.ft.ebo + 1];
    assert m.intact + [] == m.intact;
    if |f| >= TIMESTAMP_SIZE {
      HeadCopied(e.data, e.behind, 4 * e.ft.swo, f);
    }
  }

  /** A chunk in which one frame ends and the next starts. */
  lemma EndsAndStartsAgrees(room: nat, r: RxState, m: Meaning, e: Event)
    requires Agrees(room, r, m) && Legal(m, e) && !Spoils(room, m, e)
    requires e.Seen? && e.ft.sv && e.ft.ev && 4 * e.ft.swo > e.ft.ebo
    ensures React(r, e).Some? && Agrees(room, React(r, e).value, NextMeaning(m, e))
  {
    hide FrameEnd, FrameStart, CompleteFrame, StripHead, StripBoth;
    var p, q := e.data[..e.ft.ebo + 1], e.data[4 * e.ft.swo..];
    var r1 := r.(overflow := false);
    assert m.intact + [] == m.intact;
    if m.kept.None? {
      StartFills(r1, e.data, e.behind, 4 * e.ft.swo);
    } else {
      EndDelivers(r1, e.data, e.behind, |p|);
      StartFills(FrameEnd(r1, e.data + e.behind, 0, |p|).0, e.data, e.behind, 4 * e.ft.swo);
      assert e.data[..|p| - FCS_SIZE] == p[..|p| - FCS_SIZE];
      if !m.broken {
        TailJoins(m, p);
      }
    }
  }

  lemma StepAgrees(room: nat, r: RxState, m: Meaning, e: Event)
    requires Agrees(room, r, m) && Legal(m, e) && !Spoils(room, m, e)
    ensures React(r, e).Some? && Agrees(room, React(r, e).value, NextMeaning(m, e))
  {
    hide React, Agrees, NextMeaning, Legal, Spoils;
    if !e.Seen? {
      UnseenAgrees(room, r, m, e);
    } else if e.ft.sv {
      if !e.ft.ev {
        StartsAgrees(room, r, m, e);
      } else if 4 * e.ft.swo <= e.ft.ebo {
        WholeAgrees(room, r, m, e);
      } else {
        EndsAndStartsAgrees(room, r, m, e);
      }
    } else {
      GoingOnAgrees(room, r, m, e);
    }
  }

  /** The driver faults, or delivers a frame that is not an intact one. */
  predicate Fails(r: RxState, m: Meaning, e: Event)
    requires Legal(m, e)
  {
    match React(r, e)
    case None => true
    case Some(r') => |r'.delivered| > |r.delivered| && NextMeaning(m, e).intact == m.intact
  }

  lemma GoingOnSpoils(room: nat, r: RxState, m: Meaning, e: Event)
    requires InStep(room, r, m) && Legal(m, e) && Spoils(room, m, e) && !e.ft.sv
    ensures Fails(r, m, e)
  {
  }

  lemma StartsSpoils(room: nat, r: RxState, m: Meaning, e: Event)
    requires InStep(room, r, m) && Legal(m, e) && Spoils(room, m, e) && e.ft.sv
    requires !e.ft.ev || 4 * e.ft.swo > e.ft.ebo
    ensures Fails(r, m, e)
  {
    hide Copied;
  }

  lemma WholeSpoils(room: nat, r: RxState, m: Meaning, e: Event)
    requires InStep(room, r, m) && Legal(m, e) && Spoils(room, m, e) && e.ft.sv
    requires e.ft.ev && 4 * e.ft.swo <= e.ft.ebo
    ensures Fails(r, m, e)
  {
    hide Copied;
  }

  /** On a chunk that spoils the stream. */
  lemma StepSpoils(room: nat, r: RxState, m: Meaning, e: Event)
    requires InStep(room, r, m) && Legal(m, e) && Spoils(room, m, e)
    ensures Fails(r, m, e)
  {
    hide InStep, Legal, Fails;
    if e.ft.sv && e.ft.ev && 4 * e.ft.swo <= e.ft.ebo {
      WholeSpoils(room, r, m, e);
    } else if e.ft.sv {
      StartsSpoils(room, r, m, e);
    } else {
      GoingOnSpoils(room, r, m, e);
    }
  }

  lemma {:induction false} UnspoiltDelivers(room: nat, r: RxState, m: Meaning, es: seq<Event>)
    requires Agrees(room, r, m) && AllLegal(m, es) && Unspoilt(room, m, es)
    requires forall e <- es :: ValidEvent(e)
    ensures Drive(r, es).Some? && Agrees(room, Drive(r, es).value, MeaningOf(m, es))
    decreases |es|
  {
    if es != [] {
      StepAgrees(room, r, m, es[0]);
      UnspoiltDelivers(room, React(r, es[0]).value, NextMeaning(m, es[0]), es[1..]);
    }
  }

  lemma {:induction false} ExcessPersists(room: nat, r: RxState, m: Meaning, es: seq<Event>)
    requires InStep(room, r, m) && AllLegal(m, es)
    requires forall e <- es :: ValidEvent(e)
    requires Drive(r, es).Some?
    ensures |Drive(r, es).value.delivered| - |MeaningOf(m, es).intact| >= |r.delivered| - |m.intact|
    decreases |es|
  {
    if es != [] {
      StepInStep(room, r, m, es[0]);
      ExcessPersists(room, React(r, es[0]).value, NextMeaning(m, es[0]), es[1..]);
    }
  }

  lemma {:induction false} SpoiltFails(room: nat, r: RxState, m: Meaning, es: seq<Event>)
    requires Agrees(room, r, m) && AllLegal(m, es) && !Unspoilt(room, m, es)
    requires forall e <- es :: ValidEvent(e)
    ensures Drive(r, es).None? || |Drive(r, es).value.delivered| > |MeaningOf(m, es).intact|
    decreases |es|
  {
    var m' := NextMeaning(m, es[0]);
    if Spoils(room, m, es[0]) {
      StepSpoils(room, r, m, es[0]);
      if Drive(r, es).Some? {
        StepInStep(room, r, m, es[0]);
        ExcessPersists(room, React(r, es[0]).value, m', es[1..]);
      }
    } else {
      StepAgrees(room, r, m, es[0]);
      SpoiltFails(room, React(r, es[0]).value, m', es[1..]);
    }
  }

  /** The driver, with buffers of `room` bytes, gets through the stream, delivering exactly the intact frames in
      order. */
  predicate DeliversIntact(room: nat, es: seq<Event>)
    requires AllLegal(NOTHING, es)
    requires forall e <- es :: ValidEvent(e)
  {
    var r := Drive(EmptyRx(room), es);
    r.Some? && r.value.delivered == MeaningOf(NOTHING, es).intact
  }

  /** For every stream whose starts and ends alternate, with any offsets, frame lengths and losses: no frame is
      spliced, lost without a flag or delivered twice, none is delivered that is not there, and nothing faults, if and
      only if every break that matters is flagged and every frame has room for what is stripped and fits its buffer. */
  lemma DeliversIntactIff(room: nat, es: seq<Event>)
    requires AllLegal(NOTHING, es)
    requires forall e <- es :: ValidEvent(e)
    ensures DeliversIntact(room, es) <==> Unspoilt(room, NOTHING, es)
    ensures DeliversIntact(room, es) ==> Drive(EmptyRx(room), es).value.leaked == MeaningOf(NOTHING, es).overrun
  {
    if Unspoilt(room, NOTHING, es) {
      UnspoiltDelivers(room, EmptyRx(room), NOTHING, es);
    } else {
      SpoiltFails(room, EmptyRx(room), NOTHING, es);
    }
  }

  // ------------------------------------------------------------ without loss

  /** A stream with no loss and no overflow status. */
  predicate NothingLost(es: seq<Event>) {
    forall e <- es :: e.Seen?
  }

  /** A frame that ends with the chunk has room for what is stripped: its first chunk for the timestamp, its last of
      several for the check sequence. */
  predicate EndsRoomy(m: Meaning, e: Event)
    requires Legal(m, e) && e.Seen?
  {
    match EventCut(e)
    case Middle(_) => true
    case Starts(_) => true
    case Ends(p) => !m.broken && |p| >= FCS_SIZE
    case Whole(f) => |f| >= TIMESTAMP_SIZE
    case EndsAndStarts(p, _) => !m.broken && |p| >= FCS_SIZE
  }

  /** Every frame that ends has room for what is stripped. */
  predicate AllRoomy(m: Meaning, es: seq<Event>)
    requires AllLegal(m, es) && NothingLost(es)
    decreases |es|
  {
    if es == [] then true
    else
      assert es[0] in es;
      EndsRoomy(m, es[0]) && AllRoomy(NextMeaning(m, es[0]), es[1..])
  }

  /** Every stripped frame, and what is kept of the one in transit, fits a buffer. */
  predicate AllFit(room: nat, m: Meaning) {
    && (forall f <- m.intact :: |f| <= room)
    && (m.kept.Some? ==> m.kept.value <= room)
  }

  /** Nothing lost so far. */
  predicate Unbroken(m: Meaning) {
    && !m.quiet
    && (m.kept.Some? <==> m.cur.Some?)
    && (m.cur.Some? && !m.broken ==>
          |m.cur.value| >= TIMESTAMP_SIZE && m.kept == Some(|m.cur.value| - TIMESTAMP_SIZE))
  }

  /** What one chunk without loss means for room and sizes. */
  predicate StepsLossless(room: nat, m: Meaning, e: Event)
    requires Legal(m, e) && e.Seen?
  {
    var m' := NextMeaning(m, e);
    && (EndsRoomy(m, e) ==> Unbroken(m') && m'.overrun == m.overrun)
    && (EndsRoomy(m, e) && AllFit(room, m') ==> AllFit(room, m))
    && (AllFit(room, m) ==> (EndsRoomy(m, e) && AllFit(room, m') <==> !Spoils(room, m, e)))
  }

  /** Frames fit after one more exactly if they did before and it does. */
  lemma AllFitAppend(room: nat, frames: seq<seq<byte>>, f: seq<byte>)
    ensures (forall g <- frames + [f] :: |g| <= room) <==> (forall g <- frames :: |g| <= room) && |f| <= room
  {
    assert f in frames + [f];
    forall g | g in frames
      ensures g in frames + [f]
    {
    }
  }

  lemma LosslessOngoing(room: nat, m: Meaning, e: Event)
    requires Unbroken(m) && Legal(m, e) && e.Seen? && !e.ft.ev
    ensures StepsLossless(room, m, e)
  {
  }

  lemma LosslessEnding(room: nat, m: Meaning, e: Event)
    requires Unbroken(m) && Legal(m, e) && e.Seen? && e.ft.ev
    requires EventCut(e).Ends? || EventCut(e).EndsAndStarts?
    ensures StepsLossless(room, m, e)
  {
    if EndsRoomy(m, e) {
      AllFitAppend(room, m.intact, StripBoth(m.cur.value + EventCut(e).tail));
    }
  }

  lemma LosslessWhole(room: nat, m: Meaning, e: Event)
    requires Unbroken(m) && Legal(m, e) && e.Seen? && e.ft.ev
    requires EventCut(e).Whole?
    ensures StepsLossless(room, m, e)
  {
    if EndsRoomy(m, e) {
      AllFitAppend(room, m.intact, StripHead(EventCut(e).frame));
    }
  }

  lemma LosslessStep(room: nat, m: Meaning, e: Event)
    requires Unbroken(m) && Legal(m, e) && e.Seen?
    ensures StepsLossless(room, m, e)
  {
    hide StepsLossless, Unbroken, NextMeaning;
    if !e.ft.ev {
      LosslessOngoing(room, m, e);
    } else if EventCut(e).Whole? {
      LosslessWhole(room, m, e);
    } else {
      LosslessEnding(room, m, e);
    }
  }

  lemma {:induction false} LosslessMeaning(room: nat, m: Meaning, es: seq<Event>)
    requires AllLegal(m, es) && NothingLost(es) && Unbroken(m)
    ensures AllRoomy(m, es) && AllFit(room, MeaningOf(m, es)) ==> AllFit(room, m)
    ensures AllFit(room, m) ==> (Unspoilt(room, m, es) <==> AllRoomy(m, es) && AllFit(room, MeaningOf(m, es)))
    ensures AllRoomy(m, es) ==> MeaningOf(m, es).overrun == m.overrun && Unbroken(MeaningOf(m, es))
    decreases |es|
  {
    hide NextMeaning, Unbroken, AllFit, Spoils, Legal, EndsRoomy, ValidEvent;
    if es != [] {
      assert es[0] in es;
      LosslessStep(room, m, es[0]);
      if EndsRoomy(m, es[0]) {
        LosslessMeaning(room, NextMeaning(m, es[0]), es[1..]);
      }
    }
  }

  lemma NothingFits(room: nat)
    ensures Unbroken(NOTHING) && AllFit(room, NOTHING)
  {
  }

  lemma UnbrokenHolds(room: nat, r: RxState, m: Meaning)
    requires Agrees(room, r, m) && Unbroken(m) && m.overrun == 0
    ensures r.leaked == 0 && (r.skb.Some? <==> m.cur.Some?)
  {
  }

  lemma StartAgrees(room: nat)
    ensures Agrees(room, EmptyRx(room), NOTHING)
  {
  }

  /** Without loss the driver delivers every frame exactly if each that ended has room for what is stripped and then
      fits a buffer, as does what is kept of the one in transit; then no buffer is leaked, and none is held but that
      of the frame in transit. */
  lemma LosslessDeliversIff(room: nat, es: seq<Event>)
    requires AllLegal(NOTHING, es) && NothingLost(es)
    requires forall e <- es :: ValidEvent(e)
    ensures DeliversIntact(room, es) <==> AllRoomy(NOTHING, es) && AllFit(room, MeaningOf(NOTHING, es))
    ensures
      DeliversIntact(room, es) ==>
        var r := Drive(EmptyRx(room), es).value;
        r.leaked == 0 && (r.skb.Some? <==> MeaningOf(NOTHING, es).cur.Some?)
  {
    hide Unbroken, AllFit, Agrees, MeaningOf, AllLegal, Unspoilt, Drive;
    NothingFits(room);
    LosslessMeaning(room, NOTHING, es);
    DeliversIntactIff(room, es);
    if Unspoilt(room, NOTHING, es) {
      StartAgrees(room);
      UnspoiltDelivers(room, EmptyRx(room), NOTHING, es);
      UnbrokenHolds(room, Drive(EmptyRx(room), es).value, MeaningOf(NOTHING, es));
    }
  }

  // ------------------------------------------------------------ a loss that is not survived

  /** The footer of a full data chunk. */
  function FullFooter(sv: bool, ev: bool): Footer {
    Footer(false, false, true, 0, true, sv, 0, ev, if ev then 63 else 0, 0)
  }

  /** A frame starts, its end and the start of the next are lost. */
  function EndAndStartLost(a: seq<byte>, b: seq<byte>, c: seq<byte>, behind: seq<byte>): seq<Event> {
    [Seen(a, behind, FullFooter(true, false)), Lost(b, behind, FullFooter(false, true)),
     Lost(c, behind, FullFooter(true, false))]
  }

  /** The driver with the bytes of one seen frame start. */
  function Started(room: nat, a: seq<byte>): RxState
    requires |a| == CHUNK_PAYLOAD_SIZE
  {
    EmptyRx(room).(skb := Some(a[TIMESTAMP_SIZE..]), allocs := 1)
  }

  /** The stream after the losses, `c` being the start not seen; the driver believes that it is still in the frame
      before. */
  function Mistaken(c: seq<byte>): Meaning {
    Meaning(Some(c), true, false, Some(CHUNK_PAYLOAD_SIZE - TIMESTAMP_SIZE), [], 0)
  }

  lemma FullStart(room: nat, a: seq<byte>, behind: seq<byte>)
    requires ValidPayload(a, behind) && room >= 56
    ensures
      var e := Seen(a, behind, FullFooter(true, false));
      && Legal(NOTHING, e) && !Spoils(room, NOTHING, e)
      && NextMeaning(NOTHING, e) == Meaning(Some(a), false, false, Some(56), [], 0)
      && React(EmptyRx(room), e) == Some(Started(room, a))
  {
    var e := Seen(a, behind, FullFooter(true, false));
    assert EventCut(e) == Starts(a[0..]) && a[0..] == a;
    StartFills(EmptyRx(room), a, behind, 0);
  }

  lemma FullLosses(b: seq<byte>, c: seq<byte>, behind: seq<byte>, m: Meaning)
    requires ValidPayload(b, behind) && ValidPayload(c, behind)
    requires m.cur.Some? && !m.broken && |m.cur.value| == CHUNK_PAYLOAD_SIZE
    ensures
      var e, f := Lost(b, behind, FullFooter(false, true)), Lost(c, behind, FullFooter(true, false));
      && Legal(m, e) && NextMeaning(m, e) == m.(cur := None)
      && Legal(m.(cur := None), f) && NextMeaning(m.(cur := None), f) == m.(cur := Some(c), broken := true)
  {
    assert EventCut(Lost(c, behind, FullFooter(true, false))) == Starts(c[0..]) && c[0..] == c;
  }

  /** One event more in front. */
  lemma OneMore(room: nat, r: RxState, m: Meaning, e: Event, es: seq<Event>)
    requires Legal(m, e) && AllLegal(NextMeaning(m, e), es)
    requires ValidEvent(e) && forall f <- es :: ValidEvent(f)
    ensures AllLegal(m, [e] + es) && MeaningOf(m, [e] + es) == MeaningOf(NextMeaning(m, e), es)
    ensures Unspoilt(room, m, [e] + es) <==> !Spoils(room, m, e) && Unspoilt(room, NextMeaning(m, e), es)
    ensures forall f <- [e] + es :: ValidEvent(f)
    ensures Drive(r, [e] + es) == match React(r, e) case None => None case Some(r') => Drive(r', es)
  {
    hide Legal, NextMeaning, ValidEvent, React, Spoils;
    assert ([e] + es)[1..] == es;
  }

  lemma FullEvents(a: seq<byte>, b: seq<byte>, c: seq<byte>, behind: seq<byte>)
    requires ValidPayload(a, behind) && ValidPayload(b, behind) && ValidPayload(c, behind)
    ensures forall e <- EndAndStartLost(a, b, c, behind) :: ValidEvent(e)
  {
  }

  lemma LostIsNothing(room: nat, r: RxState, m: Meaning, e: Event)
    requires Legal(m, e) && e.Lost?
    ensures !Spoils(room, m, e) && React(r, e) == Some(r)
  {
  }

  /** What follows once the end of a frame and the start of the next are lost. */
  lemma AfterLosses(room: nat, a: seq<byte>, b: seq<byte>, c: seq<byte>, behind: seq<byte>, rest: seq<Event>)
    requires ValidPayload(a, behind) && ValidPayload(b, behind) && ValidPayload(c, behind) && room >= 56
    requires AllLegal(Mistaken(c), rest) && forall e <- rest :: ValidEvent(e)
    ensures
      var es := EndAndStartLost(a, b, c, behind) + rest;
      && AllLegal(NOTHING, es) && (forall e <- es :: ValidEvent(e))
      && MeaningOf(NOTHING, es) == MeaningOf(Mistaken(c), rest)
      && (Unspoilt(room, NOTHING, es) <==> Unspoilt(room, Mistaken(c), rest))
      && Drive(EmptyRx(room), es) == Drive(Started(room, a), rest)
  {
    hide Legal, Spoils, NextMeaning, React, ValidEvent, AllLegal, Unspoilt, MeaningOf, Drive, Started;
    var e0, e1, e2 := Seen(a, behind, FullFooter(true, false)), Lost(b, behind, FullFooter(false, true)),
                      Lost(c, behind, FullFooter(true, false));
    var m1 := Meaning(Some(a), false, false, Some(56), [], 0);
    var r := Started(room, a);
    FullStart(room, a, behind);
    FullLosses(b, c, behind, m1);
    FullEvents(a, b, c, behind);
    assert EndAndStartLost(a, b, c, behind) == [e0, e1, e2];
    assert ValidEvent(e0) && ValidEvent(e1) && ValidEvent(e2) by {
      assert e0 in [e0, e1, e2] && e1 in [e0, e1, e2] && e2 in [e0, e1, e2];
    }
    LostIsNothing(room, r, m1, e1);
    LostIsNothing(room, r, m1.(cur := None), e2);
    OneMore(room, r, m1.(cur := None), e2, rest);
    OneMore(room, r, m1, e1, [e2] + rest);
    OneMore(room, EmptyRx(room), NOTHING, e0, [e1] + ([e2] + rest));
    assert [e0] + ([e1] + ([e2] + rest)) == [e0, e1, e2] + rest;
  }

  /** The second frame's end is seen: with room for it, a frame is delivered that never was, the start of the first and
      the end of the second. */
  lemma LossSplices(room: nat, a: seq<byte>, b: seq<byte>, c: seq<byte>, d: seq<byte>, behind: seq<byte>)
    requires ValidPayload(a, behind) && ValidPayload(b, behind) && ValidPayload(c, behind) && ValidPayload(d, behind)
    requires room >= 116
    ensures
      var es := EndAndStartLost(a, b, c, behind) + [Seen(d, behind, FullFooter(false, true))];
      && AllLegal(NOTHING, es) && (forall e <- es :: ValidEvent(e)) && !Unspoilt(room, NOTHING, es)
      && MeaningOf(NOTHING, es).intact == []
      && Drive(EmptyRx(room), es).Some?
      && Drive(EmptyRx(room), es).value.delivered == [a[TIMESTAMP_SIZE..] + d[..60]]
  {
    var e := Seen(d, behind, FullFooter(false, true));
    EndDelivers(Started(room, a), d, behind, CHUNK_PAYLOAD_SIZE);
    assert [e][1..] == [];
    assert [] + [a[TIMESTAMP_SIZE..] + d[..60]] == [a[TIMESTAMP_SIZE..] + d[..60]];
    AfterLosses(room, a, b, c, behind, [e]);
  }

  function Repeated(e: Event, n: nat): (es: seq<Event>)
    ensures |es| == n
  {
    seq(n, _ => e)
  }

  lemma {:induction false} MiddlesLegal(m: Meaning, e: Event, n: nat)
    requires m.cur.Some? && m.broken && ValidEvent(e) && e.Seen? && !e.ft.sv && !e.ft.ev
    ensures AllLegal(m, Repeated(e, n))
    decreases n
  {
    if n > 0 {
      assert Repeated(e, n)[1..] == Repeated(e, n - 1);
      MiddlesLegal(NextMeaning(m, e), e, n - 1);
    }
  }

  /** Chunk after chunk is appended to the buffer held, until it is full. */
  lemma {:induction false} MiddlesFill(room: nat, r: RxState, m: Meaning, e: Event, n: nat)
    requires InStep(room, r, m) && m.kept.Some? && m.cur.Some? && m.broken && m.kept.value <= room
    requires ValidEvent(e) && e.Seen? && !e.ft.sv && !e.ft.ev
    ensures AllLegal(m, Repeated(e, n)) && (forall f <- Repeated(e, n) :: ValidEvent(f))
    ensures Drive(r, Repeated(e, n)).None? <==> m.kept.value + CHUNK_PAYLOAD_SIZE * n > room
    ensures Unspoilt(room, m, Repeated(e, n)) <==> m.kept.value + CHUNK_PAYLOAD_SIZE * n <= room
    decreases n
  {
    if n > 0 {
      assert Repeated(e, n)[1..] == Repeated(e, n - 1);
      var m' := NextMeaning(m, e);
      if m.kept.value + CHUNK_PAYLOAD_SIZE <= room {
        MiddlesFill(room, React(r, e).value, m', e, n - 1);
      } else {
        MiddlesLegal(m', e, n - 1);
      }
    }
  }

  /** The second frame just goes on: with no overflow status in between, `n` more chunks overrun the buffer exactly if
      they and the first frame's start are more than it holds. */
  lemma LossOverruns(room: nat, a: seq<byte>, b: seq<byte>, c: seq<byte>, d: seq<byte>, behind: seq<byte>, n: nat)
    requires ValidPayload(a, behind) && ValidPayload(b, behind) && ValidPayload(c, behind) && ValidPayload(d, behind)
    requires room >= 56
    ensures
      var es := EndAndStartLost(a, b, c, behind) + Repeated(Seen(d, behind, FullFooter(false, false)), n);
      && AllLegal(NOTHING, es) && (forall e <- es :: ValidEvent(e))
      && (Drive(EmptyRx(room), es).None? <==> 56 + CHUNK_PAYLOAD_SIZE * n > room)
      && (Unspoilt(room, NOTHING, es) <==> 56 + CHUNK_PAYLOAD_SIZE * n <= room)
  {
    hide Drive, Unspoilt, AllLegal;
    var e := Seen(d, behind, FullFooter(false, false));
    MiddlesFill(room, Started(room, a), Mistaken(c), e, n);
    AfterLosses(room, a, b, c, behind, Repeated(e, n));
  }

  // ------------------------------------------------------------ rounds as events

  /** Nothing is wrong with the chunk but an overflow or a register access that failed with -EAGAIN; either way the
      rest of the round is never examined. */
  predicate Benign(x: RxIn) {
    x.allocOk && (Retries(x) || Clean(x))
  }

  function Unseen(ins: seq<RxIn>, i: nat): seq<Event>
    requires i <= |ins|
    decreases |ins| - i
  {
    if i == |ins| then []
    else (if ins[i].ft.dv then [Lost(ins[i].data, ins[i].behind, ins[i].ft)] else []) + Unseen(ins, i + 1)
  }

  /** A round as the stream sees it: chunks processed up to one that is to be retried, the rest lost; an overflow
      status is seen if that is the reason. */
  function RoundEvents(ins: seq<RxIn>, i: nat): seq<Event>
    requires i <= |ins|
    decreases |ins| - i
  {
    if i == |ins| then []
    else if Retries(ins[i]) then (if ins[i].status.Bits? then [OverflowStatus] else []) + Unseen(ins, i)
    else (if ins[i].ft.dv then [Seen(ins[i].data, ins[i].behind, ins[i].ft)] else []) + RoundEvents(ins, i + 1)
  }

  lemma {:induction false} RoundEventsValid(ins: seq<RxIn>, i: nat)
    requires i <= |ins| && forall x <- ins :: ValidIn(x)
    ensures forall e <- Unseen(ins, i) :: ValidEvent(e) && e.Lost?
    ensures forall e <- RoundEvents(ins, i) :: ValidEvent(e)
    decreases |ins| - i
  {
    if i < |ins| {
      assert ins[i] in ins;
      RoundEventsValid(ins, i + 1);
    }
  }

  lemma {:induction false} LostChangesNothing(r: RxState, es: seq<Event>)
    requires forall e <- es :: ValidEvent(e) && e.Lost?
    ensures Drive(r, es) == Some(r)
    decreases |es|
  {
    if es != [] {
      assert es[0] in es;
      LostChangesNothing(r, es[1..]);
    }
  }

  lemma {:induction false} DriveConcat(r: RxState, a: seq<Event>, b: seq<Event>)
    requires forall e <- a :: ValidEvent(e)
    requires forall e <- b :: ValidEvent(e)
    ensures forall e <- a + b :: ValidEvent(e)
    ensures Drive(r, a + b) == (match Drive(r, a) case None => None case Some(r') => Drive(r', b))
    decreases |a|
  {
    if a == [] {
      assert a + b == b;
    } else {
      assert (a + b)[1..] == a[1..] + b;
      match React(r, a[0])
      case None =>
      case Some(r') => DriveConcat(r', a[1..], b);
    }
  }

  lemma CutShortStep(l: Link, x: RxIn)
    requires ValidIn(x) && Retries(x)
    ensures ProcessChunk(l, x).1 == Again
    ensures ProcessChunk(l, x).0.rx == if x.status.Bits? then Cleanup(l.rx.(overflow := true)) else l.rx
  {
    hide ChunkPayload;
  }

  lemma BenignStep(l: Link, x: RxIn)
    requires ValidIn(x) && Benign(x) && !Retries(x)
    ensures
      var (l', o) := ProcessChunk(l, x);
      if x.ft.dv then (l'.rx, o) == ChunkPayload(l.rx, x.data, x.behind, x.ft, true) else l'.rx == l.rx && o == Done
  {
    hide ChunkPayload;
  }

  /** With every allocation succeeding, processing a payload goes through or faults. */
  lemma PayloadOutcomes(r: RxState, data: seq<byte>, behind: seq<byte>, ft: Footer)
    requires ValidPayload(data, behind) && ValidFooter(ft)
    ensures ChunkPayload(r, data, behind, ft, true).1 == Done || ChunkPayload(r, data, behind, ft, true).1 == Fault
  {
  }

  /** What is left of a round after a chunk that is to be retried. */
  lemma RetryDrives(l: Link, ins: seq<RxIn>, i: nat)
    requires i < |ins| && ValidIn(ins[i]) && Retries(ins[i])
    requires forall e <- Unseen(ins, i) :: ValidEvent(e) && e.Lost?
    ensures forall e <- RoundEvents(ins, i) :: ValidEvent(e)
    ensures Drive(l.rx, RoundEvents(ins, i)) == Some(ProcessChunk(l, ins[i]).0.rx)
    ensures ProcessChunk(l, ins[i]).1 == Again
  {
    hide ProcessChunk, Unseen;
    CutShortStep(l, ins[i]);
    var rest := Unseen(ins, i);
    LostChangesNothing(ProcessChunk(l, ins[i]).0.rx, rest);
    assert ([OverflowStatus] + rest)[1..] == rest && [] + rest == rest;
  }

  /** A benign round leaves the driver where its events leave it, and ends in order or to be retried. */
  lemma {:induction false} RoundDrives(l: Link, ins: seq<RxIn>, i: nat)
    requires i <= |ins| && forall x <- ins :: ValidIn(x) && Benign(x)
    ensures forall e <- RoundEvents(ins, i) :: ValidEvent(e)
    ensures
      var p := ProcessFrom(l, ins, i);
      match Drive(l.rx, RoundEvents(ins, i))
      case None => p.outcome == Fault
      case Some(r) => p.link.rx == r && (p.outcome == Done || p.outcome == Again)
    decreases |ins| - i
  {
    hide ChunkPayload, ProcessChunk, Benign, Retries, Unseen;
    RoundEventsValid(ins, i);
    if i < |ins| {
      var x := ins[i];
      assert x in ins && Benign(x);
      if Retries(x) {
        RetryDrives(l, ins, i);
      } else {
        BenignStep(l, x);
        RoundDrives(ProcessChunk(l, x).0, ins, i + 1);
        var rest := RoundEvents(ins, i + 1);
        if x.ft.dv {
          PayloadOutcomes(l.rx, x.data, x.behind, x.ft);
          assert ([Seen(x.data, x.behind, x.ft)] + rest)[1..] == rest;
        } else {
          assert [] + rest == rest;
        }
      }
    }
  }

  lemma CleanIsNotRetried(x: RxIn)
    requires Clean(x)
    ensures !Retries(x)
  {
  }

  /** A round without anything wrong in it is processed to its end, and what it delivers are the intact frames of its
      chunks. */
  lemma CleanRoundDelivers(room: nat, l: Link, m: Meaning, ins: seq<RxIn>)
    requires Agrees(room, l.rx, m) && forall x <- ins :: ValidIn(x) && Clean(x) && x.allocOk
    requires AllLegal(m, RoundEvents(ins, 0)) && Unspoilt(room, m, RoundEvents(ins, 0))
    ensures
      var p := ProcessFrom(l, ins, 0);
      p.outcome == Done && Agrees(room, p.link.rx, MeaningOf(m, RoundEvents(ins, 0)))
  {
    hide ProcessFrom, RoundEvents, Agrees, AllLegal, Unspoilt, MeaningOf, Drive, Clean, ValidIn;
    assert forall x <- ins :: Benign(x);
    RoundDrives(l, ins, 0);
    UnspoiltDelivers(room, l.rx, m, RoundEvents(ins, 0));
    PassOutcome(l, ins, 0);
    var p := ProcessFrom(l, ins, 0);
    if p.outcome == Again {
      assert ins[p.examined - 1] in ins;
      CleanIsNotRetried(ins[p.examined - 1]);
    }
  }

  /** One round of a session: chunks the MAC-PHY dropped since the last round, then the chunks handed over. */
  datatype Exchange = Exchange(missed: seq<Event>, ins: seq<RxIn>)

  predicate ValidExchange(x: Exchange) {
    (forall e <- x.missed :: ValidEvent(e) && e.Lost?) && (forall y <- x.ins :: ValidIn(y) && Benign(y))
  }

  function SessionEvents(xs: seq<Exchange>): seq<Event> {
    if xs == [] then [] else xs[0].missed + RoundEvents(xs[0].ins, 0) + SessionEvents(xs[1..])
  }

  /** The driver's receive side over a session; None once a round fails. */
  function RunSession(l: Link, xs: seq<Exchange>): Option<Link>
    requires forall x <- xs :: ValidExchange(x)
    decreases |xs|
  {
    if xs == [] then Some(l)
    else
      assert xs[0] in xs && ValidExchange(xs[0]);
      var p := ProcessFrom(l, xs[0].ins, 0);
      if p.outcome == Done || p.outcome == Again then RunSession(p.link, xs[1..]) else None
  }

  lemma {:induction false} SessionDrives(l: Link, xs: seq<Exchange>)
    requires forall x <- xs :: ValidExchange(x)
    ensures forall e <- SessionEvents(xs) :: ValidEvent(e)
    ensures
      match Drive(l.rx, SessionEvents(xs))
      case None => RunSession(l, xs) == None
      case Some(r) => RunSession(l, xs).Some? && RunSession(l, xs).value.rx == r
    decreases |xs|
  {
    if xs != [] {
      var x := xs[0];
      assert x in xs && ValidExchange(x);
      var seen := RoundEvents(x.ins, 0);
      RoundDrives(l, x.ins, 0);
      SessionDrives(ProcessFrom(l, x.ins, 0).link, xs[1..]);
      LostChangesNothing(l.rx, x.missed);
      DriveConcat(l.rx, x.missed, seen);
      DriveConcat(l.rx, x.missed + seen, SessionEvents(xs[1..]));
    }
  }

  /** Over every session of rounds, also rounds cut short by an overflow or a failed register access and chunks
      dropped between rounds, the receive pass delivers exactly the intact frames of the MAC-PHY's stream if and only
      if nothing spoils that stream. */
  lemma SessionDeliversIff(room: nat, credits: nat, rca: nat, xs: seq<Exchange>)
    requires forall x <- xs :: ValidExchange(x)
    requires AllLegal(NOTHING, SessionEvents(xs))
    ensures
      (var end := RunSession(Link(EmptyRx(room), credits, rca), xs);
       end.Some? && end.value.rx.delivered == MeaningOf(NOTHING, SessionEvents(xs)).intact)
      <==> Unspoilt(room, NOTHING, SessionEvents(xs))
  {
    SessionDrives(Link(EmptyRx(room), credits, rca), xs);
    DeliversIntactIff(room, SessionEvents(xs));
  }
}
