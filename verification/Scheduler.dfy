/**
 The per-client downlink queue: two lanes, a burst counter and a batch. The
 writer goroutine and the goroutines that enqueue interleave at every channel
 operation, so the queue is a state machine whose steps are those operations.
 */
module Scheduler {
  import opened Bytes
  import opened TcpRewrite

  const BULK_CAPACITY := 1024
  const PRIO_CAPACITY := 256
  const PRIO_BURST := 64
  const BATCH := 32
  const MAX_SOJOURN := 100_000_000  // nanoseconds

  /** Interactive traffic: ICMP, small UDP, and TCP without payload. */
  predicate IsLatencySensitive(pkt: seq<byte>) {
    if |pkt| >= 20 && pkt[0] / 16 == 4 then Interactive(pkt, (pkt[0] % 16) * 4, Word(pkt, 2), pkt[9])
    else if |pkt| >= 40 && pkt[0] / 16 == 6 then Interactive(pkt, 40, 40 + Word(pkt, 4), pkt[6])
    else false
  }

  predicate Interactive(pkt: seq<byte>, ipHdr: int, ipLen: int, proto: byte) {
    if ipHdr < 20 || ipLen < ipHdr || ipLen > |pkt| then false
    else if proto == 1 || proto == 58 then true
    else if proto == 17 then |pkt| <= 600
    else if proto == 6 then
      var l4 := pkt[ipHdr..ipLen];
      if |l4| < 20 then false
      else
        var tcpHdr := (l4[12] / 16) * 4;
        20 <= tcpHdr <= |l4| && |l4| - tcpHdr == 0
    else false
  }

  /** An IP packet of either version with this header length, total length and protocol, consistent with its size. */
  predicate Framed(pkt: seq<byte>, hdr: nat, len: nat, proto: byte) {
    && hdr <= len <= |pkt|
    && (|| (|pkt| >= 20 && pkt[0] / 16 == 4 && hdr == 4 * (pkt[0] % 16) >= 20 && len == Word(pkt, 2) && proto == pkt[9])
        || (|pkt| >= 40 && pkt[0] / 16 == 6 && hdr == 40 && len == 40 + Word(pkt, 4) && proto == pkt[6]))
  }

  /** ICMP of both versions, UDP up to 600 bytes, and TCP whose header is all there is. */
  predicate Qualifies(pkt: seq<byte>, hdr: nat, len: nat, proto: byte)
    requires len <= |pkt|
  {
    || proto == 1 || proto == 58 || (proto == 17 && |pkt| <= 600)
    || (proto == 6 && hdr + 20 <= len && hdr + 4 * (pkt[hdr + 12] / 16) as int == len)
  }

  /** Interactive are exactly the consistent packets of these kinds. */
  lemma InteractiveExactly(pkt: seq<byte>)
    ensures IsLatencySensitive(pkt) <==>
              exists hdr: nat, len: nat, proto: byte :: Framed(pkt, hdr, len, proto) && Qualifies(pkt, hdr, len, proto)
  {
    if |pkt| >= 20 && pkt[0] / 16 == 4 {
      InteractiveWhen(pkt, (pkt[0] % 16) * 4, Word(pkt, 2), pkt[9]);
    } else if |pkt| >= 40 && pkt[0] / 16 == 6 {
      InteractiveWhen(pkt, 40, 40 + Word(pkt, 4), pkt[6]);
    }
  }

  lemma InteractiveWhen(pkt: seq<byte>, hdr: nat, len: nat, proto: byte)
    ensures Interactive(pkt, hdr, len, proto) <==> 20 <= hdr <= len <= |pkt| && Qualifies(pkt, hdr, len, proto)
  {
    if 20 <= hdr <= len <= |pkt| && hdr + 20 <= len {
      assert pkt[hdr..len][12] == pkt[hdr + 12];
    }
  }

  /** The two parsers agree: a located TCP packet is interactive iff it carries no payload. */
  lemma LocatedIsInteractive(pkt: seq<byte>, l: Layout)
    requires LocateTCP(pkt) == Some(l)
    ensures IsLatencySensitive(pkt) <==> l.total == l.HeaderLen()
  {
    assert pkt[l.ipLen..l.total][12] == pkt[l.ipLen + 12];
  }

  // ---------------------------------------------------------------- states

  datatype Packet = Packet(buf: seq<byte>, at: int)

  datatype Lane = Latency | Bulk

  datatype Kind = Accepted | Handled | Drained

  /** The history: what happened to which packet, and when the writer found the latency lane empty. */
  datatype Event =
    | Happened(kind: Kind, lane: Lane, packet: Packet, sent: bool)
    | SawLatencyEmpty

  /** Where the writer is: loop head, blocking select, filling the batch, before and at a bulk send, draining. */
  datatype Pc = Top | Select | Fill | Wait | Send | DrainPrio | DrainBulk | Stopped

  /**
   The two lanes, the writer's state and the history. Packets are offered by other goroutines;
   pending ones have passed the latency lane and not tried the bulk lane yet.
   */
  datatype State = State(prio: seq<Packet>, bulk: seq<Packet>, done: bool,
                         pc: Pc, prioRun: nat, batch: seq<Packet>, log: seq<Event>,
                         offered: multiset<Packet>, pending: multiset<Packet>, refused: multiset<Packet>)
  {
    predicate Draining() { pc in {DrainPrio, DrainBulk, Stopped} }

    /** A bulk packet has been accepted and not handled yet. */
    predicate BulkWaits() { bulk != [] || batch != [] }
  }

  const START := State([], [], false, Top, 0, [], [], multiset{}, multiset{}, multiset{})

  datatype Step =
    | OfferLatency(packet: Packet)
    | OfferBulk(packet: Packet, refuse: bool)
    | CloseDone
    | LoopHead
    | SelectPrio(now: int)
    | SelectBulk
    | SelectDone
    | TakeQueued
    | EndFill
    | PrioWaiting(now: int)
    | EndWait
    | SendBulk(now: int)
    | DrainOne

  predicate Enabled(s: State, step: Step) {
    match step
    case OfferLatency(_) => true
    // A closed session may refuse a packet for which there is room.
    case OfferBulk(p, refuse) => p in s.pending && (refuse ==> s.done)
    case CloseDone => true
    case LoopHead => s.pc == Top
    case SelectPrio(_) => s.pc == Select && s.prio != []
    case SelectBulk => s.pc == Select && s.bulk != []
    case SelectDone => s.pc == Select && s.done
    case TakeQueued => s.pc == Fill && |s.batch| < BATCH && s.bulk != []
    case EndFill => s.pc == Fill && (|s.batch| == BATCH || s.bulk == [])
    case PrioWaiting(_) => s.pc == Wait && s.prioRun < PRIO_BURST && s.prio != []
    case EndWait => s.pc == Wait && (s.prioRun >= PRIO_BURST || s.prio == [])
    case SendBulk(_) => s.pc == Send && s.batch != []
    case DrainOne => s.pc in {DrainPrio, DrainBulk}
  }

  function Logged(s: State, kind: Kind, lane: Lane, p: Packet, sent: bool): State {
    s.(log := s.log + [Happened(kind, lane, p, sent)])
  }

  /** The first attempt of an enqueue: the latency lane, for interactive packets. */
  function OfferedLatency(s: State, p: Packet): State {
    var s' := s.(offered := s.offered + multiset{p});
    if IsLatencySensitive(p.buf) && |s.prio| < PRIO_CAPACITY then
      Logged(s', Accepted, Latency, p, false).(prio := s.prio + [p])
    else s'.(pending := s.pending + multiset{p})
  }

  /** The second attempt, possibly some steps later: the bulk lane. */
  function OfferedBulk(s: State, p: Packet, refuse: bool): State {
    var s' := s.(pending := s.pending - multiset{p});
    if refuse || |s.bulk| >= BULK_CAPACITY then s'.(refused := s.refused + multiset{p})
    else Logged(s', Accepted, Bulk, p, false).(bulk := s.bulk + [p])
  }

  /** One latency packet leaves its lane and is sent, or dropped as stale. */
  function HandlePrio(s: State, now: int): State
    requires s.prio != []
  {
    var p := s.prio[0];
    Logged(s, Handled, Latency, p, now - p.at <= MAX_SOJOURN).(prio := s.prio[1..], prioRun := s.prioRun + 1)
  }

  function BeginBatch(s: State): State
    requires s.bulk != []
  {
    s.(bulk := s.bulk[1..], batch := [s.bulk[0]], pc := Fill)
  }

  function HandleBulk(s: State, now: int): State
    requires s.batch != []
  {
    var p := s.batch[0];
    Logged(s, Handled, Bulk, p, now - p.at <= MAX_SOJOURN)
      .(batch := s.batch[1..], prioRun := 0, pc := if |s.batch| == 1 then Top else Wait)
  }

  function Apply(s: State, step: Step): State
    requires Enabled(s, step)
  {
    match step
    case OfferLatency(p) => OfferedLatency(s, p)
    case OfferBulk(p, refuse) => OfferedBulk(s, p, refuse)
    case CloseDone => s.(done := true)
    case LoopHead => if s.prioRun >= PRIO_BURST && s.bulk != [] then BeginBatch(s) else s.(pc := Select)
    case SelectPrio(now) => HandlePrio(s, now).(pc := Top)
    case SelectBulk => BeginBatch(s)
    case SelectDone => s.(pc := DrainPrio)
    case TakeQueued => s.(bulk := s.bulk[1..], batch := s.batch + [s.bulk[0]])
    case EndFill => s.(pc := Wait)
    case PrioWaiting(now) => HandlePrio(s, now)
    case EndWait => s.(pc := Send, log := if s.prio == [] then s.log + [SawLatencyEmpty] else s.log)
    case SendBulk(now) => HandleBulk(s, now)
    case DrainOne =>
      if s.pc == DrainPrio then
        if s.prio == [] then s.(pc := DrainBulk)
        else Logged(s, Drained, Latency, s.prio[0], false).(prio := s.prio[1..])
      else if s.bulk == [] then s.(pc := Stopped)
      else Logged(s, Drained, Bulk, s.bulk[0], false).(bulk := s.bulk[1..])
  }

  /** The state after the steps, if each is enabled in turn. */
  function Run(s: State, steps: seq<Step>): Option<State>
    decreases |steps|
  {
    if steps == [] then Some(s)
    else if Enabled(s, steps[0]) then Run(Apply(s, steps[0]), steps[1..])
    else None
  }

  // ---------------------------------------------------------------- one fate, in order

  /** The packets of one lane that met one fate, in order. */
  function Only(log: seq<Event>, kind: Kind, lane: Lane): seq<Packet> {
    if log == [] then []
    else
      var e := log[|log| - 1];
      Only(log[..|log| - 1], kind, lane)
      + (if e.Happened? && e.kind == kind && e.lane == lane then [e.packet] else [])
  }

  lemma OnlyAppend(log: seq<Event>, e: Event, kind: Kind, lane: Lane)
    ensures Only(log + [e], kind, lane) == Only(log, kind, lane)
            + (if e.Happened? && e.kind == kind && e.lane == lane then [e.packet] else [])
  {
    assert (log + [e])[..|log|] == log;
  }

  /** How many latency packets were handled since the last bulk one. */
  function LatencyRun(log: seq<Event>): nat {
    if log == [] then 0
    else
      var e := log[|log| - 1];
      if e.Happened? && e.kind == Handled && e.lane == Bulk then 0
      else LatencyRun(log[..|log| - 1]) + (if e.Happened? && e.kind == Handled then 1 else 0)
  }

  lemma LatencyRunAppend(log: seq<Event>, e: Event)
    ensures LatencyRun(log + [e])
            == if e.Happened? && e.kind == Handled && e.lane == Bulk then 0
               else LatencyRun(log) + (if e.Happened? && e.kind == Handled then 1 else 0)
  {
    assert (log + [e])[..|log|] == log;
  }

  /**
   Every accepted packet of a lane is handled, drained, in the batch or still queued, exactly
   once and in the order of acceptance.
   */
  ghost predicate OneFate(s: State) {
    && Only(s.log, Accepted, Latency) == Only(s.log, Handled, Latency) + Only(s.log, Drained, Latency) + s.prio
    && Only(s.log, Accepted, Bulk) == Only(s.log, Handled, Bulk) + Only(s.log, Drained, Bulk) + s.batch + s.bulk
  }

  ghost predicate Consistent(s: State) {
    && (s.batch != [] <==> s.pc in {Fill, Wait, Send})
    && |s.batch| <= BATCH && |s.prio| <= PRIO_CAPACITY && |s.bulk| <= BULK_CAPACITY
    && (!s.Draining() ==> Only(s.log, Drained, Latency) == [] && Only(s.log, Drained, Bulk) == [])
    && s.prioRun == LatencyRun(s.log)
  }

  /** Logging one event moves one projection. */
  lemma LogMoves(log: seq<Event>, kind: Kind, lane: Lane, p: Packet, sent: bool)
    ensures var log' := log + [Happened(kind, lane, p, sent)];
            && Only(log', kind, lane) == Only(log, kind, lane) + [p]
            && (forall k, l :: k != kind || l != lane ==> Only(log', k, l) == Only(log, k, l))
            && LatencyRun(log')
               == if kind != Handled then LatencyRun(log) else if lane == Bulk then 0 else LatencyRun(log) + 1
  {
    var e := Happened(kind, lane, p, sent);
    forall k, l
      ensures Only(log + [e], k, l) == if k == kind && l == lane then Only(log, k, l) + [p] else Only(log, k, l)
    {
      OnlyAppend(log, e, k, l);
    }
    LatencyRunAppend(log, e);
  }

  lemma LogSaw(log: seq<Event>)
    ensures forall k, l :: Only(log + [SawLatencyEmpty], k, l) == Only(log, k, l)
    ensures LatencyRun(log + [SawLatencyEmpty]) == LatencyRun(log)
  {
    forall k, l {
      OnlyAppend(log, SawLatencyEmpty, k, l);
    }
    LatencyRunAppend(log, SawLatencyEmpty);
  }

  lemma OfferLatencyKeeps(s: State, p: Packet)
    requires Consistent(s) && OneFate(s)
    ensures Consistent(OfferedLatency(s, p)) && OneFate(OfferedLatency(s, p))
  {
    hide Only, LatencyRun, IsLatencySensitive;
    LogMoves(s.log, Accepted, Latency, p, false);
  }

  lemma OfferBulkKeeps(s: State, p: Packet, refuse: bool)
    requires Consistent(s) && OneFate(s) && p in s.pending
    ensures Consistent(OfferedBulk(s, p, refuse)) && OneFate(OfferedBulk(s, p, refuse))
  {
    hide Only, LatencyRun;
    LogMoves(s.log, Accepted, Bulk, p, false);
  }

  lemma HandlePrioKeeps(s: State, now: int)
    requires Consistent(s) && OneFate(s) && s.prio != [] && !s.Draining()
    ensures Consistent(HandlePrio(s, now)) && OneFate(HandlePrio(s, now))
  {
    hide Only, LatencyRun;
    LogMoves(s.log, Handled, Latency, s.prio[0], now - s.prio[0].at <= MAX_SOJOURN);
    assert s.prio == [s.prio[0]] + s.prio[1..];
  }

  lemma HandleBulkKeeps(s: State, now: int)
    requires Consistent(s) && OneFate(s) && s.pc == Send && s.batch != []
    ensures Consistent(HandleBulk(s, now)) && OneFate(HandleBulk(s, now))
  {
    hide Only, LatencyRun;
    LogMoves(s.log, Handled, Bulk, s.batch[0], now - s.batch[0].at <= MAX_SOJOURN);
    assert s.batch == [s.batch[0]] + s.batch[1..];
  }

  lemma DrainKeeps(s: State)
    requires Consistent(s) && OneFate(s) && s.pc in {DrainPrio, DrainBulk}
    ensures Consistent(Apply(s, DrainOne)) && OneFate(Apply(s, DrainOne))
  {
    hide Only, LatencyRun;
    if s.pc == DrainPrio && s.prio != [] {
      LogMoves(s.log, Drained, Latency, s.prio[0], false);
      MoveHead(Only(s.log, Handled, Latency) + Only(s.log, Drained, Latency), s.prio);
    } else if s.pc == DrainBulk && s.bulk != [] {
      LogMoves(s.log, Drained, Bulk, s.bulk[0], false);
      var before := Only(s.log, Handled, Bulk) + Only(s.log, Drained, Bulk);
      assert before + s.batch == before;
      MoveHead(before, s.bulk);
    }
  }

  /** Moving the head of a queue to the end of what went before it. */
  lemma MoveHead(before: seq<Packet>, queue: seq<Packet>)
    requires queue != []
    ensures before + queue == (before + [queue[0]]) + queue[1..]
  {
  }

  lemma BatchKeeps(s: State, step: Step)
    requires Consistent(s) && OneFate(s) && Enabled(s, step)
    requires step in {LoopHead, SelectBulk, TakeQueued, EndFill, EndWait, SelectDone, CloseDone}
    ensures Consistent(Apply(s, step)) && OneFate(Apply(s, step))
  {
    hide Only, LatencyRun;
    if step == EndWait {
      LogSaw(s.log);
    } else if step == TakeQueued {
      TakeKeeps(s);
    } else if step == SelectBulk || (step == LoopHead && s.prioRun >= PRIO_BURST && s.bulk != []) {
      BeginKeeps(s);
    }
  }

  lemma BeginKeeps(s: State)
    requires Consistent(s) && OneFate(s) && s.pc in {Top, Select} && s.bulk != []
    ensures Consistent(BeginBatch(s)) && OneFate(BeginBatch(s))
  {
    hide Only, LatencyRun;
    var before := Only(s.log, Handled, Bulk) + Only(s.log, Drained, Bulk);
    assert before + s.batch == before;
    MoveHead(before, s.bulk);
  }

  lemma TakeKeeps(s: State)
    requires Consistent(s) && OneFate(s) && Enabled(s, TakeQueued)
    ensures Consistent(Apply(s, TakeQueued)) && OneFate(Apply(s, TakeQueued))
  {
    hide Only, LatencyRun;
    var before := Only(s.log, Handled, Bulk) + Only(s.log, Drained, Bulk);
    MoveHead(before + s.batch, s.bulk);
    assert before + (s.batch + [s.bulk[0]]) == (before + s.batch) + [s.bulk[0]];
  }

  lemma StepKeeps(s: State, step: Step)
    requires Consistent(s) && OneFate(s) && Enabled(s, step)
    ensures Consistent(Apply(s, step)) && OneFate(Apply(s, step))
  {
    hide Only, LatencyRun, IsLatencySensitive;
    match step
    case OfferLatency(p) => OfferLatencyKeeps(s, p);
    case OfferBulk(p, refuse) => OfferBulkKeeps(s, p, refuse);
    case SelectPrio(now) => HandlePrioKeeps(s, now);
    case PrioWaiting(now) => HandlePrioKeeps(s, now);
    case SendBulk(now) => HandleBulkKeeps(s, now);
    case DrainOne => DrainKeeps(s);
    case _ => BatchKeeps(s, step);
  }

  /** In every interleaving each accepted packet has exactly one fate, and each lane is first in, first out. */
  lemma {:induction false} EveryRunKeepsOneFate(s: State, steps: seq<Step>)
    requires Consistent(s) && OneFate(s) && Run(s, steps).Some?
    ensures Consistent(Run(s, steps).value) && OneFate(Run(s, steps).value)
    decreases |steps|
  {
    if steps != [] {
      StepKeeps(s, steps[0]);
      EveryRunKeepsOneFate(Apply(s, steps[0]), steps[1..]);
    }
  }

  lemma StartIsConsistent()
    ensures Consistent(START) && OneFate(START) && BulkTurnsJustified(START) && Conserved(START)
  {
  }

  /** The packets either lane accepted. */
  function Taken(log: seq<Event>): multiset<Packet> {
    if log == [] then multiset{}
    else
      var e := log[|log| - 1];
      Taken(log[..|log| - 1]) + (if e.Happened? && e.kind == Accepted then multiset{e.packet} else multiset{})
  }

  /** Every offered packet is accepted by one lane, refused, or still pending. */
  ghost predicate Conserved(s: State) {
    s.offered == Taken(s.log) + s.refused + s.pending
  }

  lemma TakenAppend(log: seq<Event>, e: Event)
    ensures Taken(log + [e])
            == Taken(log) + (if e.Happened? && e.kind == Accepted then multiset{e.packet} else multiset{})
  {
    assert (log + [e])[..|log|] == log;
  }

  lemma ConservedLatency(s: State, p: Packet)
    requires Conserved(s)
    ensures Conserved(OfferedLatency(s, p))
  {
    hide Taken, IsLatencySensitive;
    TakenAppend(s.log, Happened(Accepted, Latency, p, false));
  }

  lemma ConservedBulk(s: State, p: Packet, refuse: bool)
    requires Conserved(s) && p in s.pending
    ensures Conserved(OfferedBulk(s, p, refuse))
  {
    hide Taken;
    TakenAppend(s.log, Happened(Accepted, Bulk, p, false));
    assert s.pending == (s.pending - multiset{p}) + multiset{p};
  }

  /** The writer's own steps accept and refuse nothing. */
  lemma WriterTakesNothing(s: State, step: Step)
    requires Enabled(s, step) && !step.OfferLatency? && !step.OfferBulk?
    ensures var s' := Apply(s, step);
            && s'.offered == s.offered && s'.pending == s.pending && s'.refused == s.refused
            && Taken(s'.log) == Taken(s.log)
  {
    hide Taken;
    var s' := Apply(s, step);
    if s'.log != s.log {
      TakenAppend(s.log, s'.log[|s.log|]);
    }
  }

  lemma ConservedStep(s: State, step: Step)
    requires Conserved(s) && Enabled(s, step)
    ensures Conserved(Apply(s, step))
  {
    hide Taken, OfferedLatency, OfferedBulk;
    match step
    case OfferLatency(p) => ConservedLatency(s, p);
    case OfferBulk(p, refuse) => ConservedBulk(s, p, refuse);
    case _ => WriterTakesNothing(s, step);
  }

  /** In every interleaving no offered packet is lost or counted twice. */
  lemma {:induction false} EveryRunConserves(s: State, steps: seq<Step>)
    requires Conserved(s) && Run(s, steps).Some?
    ensures Conserved(Run(s, steps).value)
    decreases |steps|
  {
    if steps != [] {
      hide Conserved;
      ConservedStep(s, steps[0]);
      EveryRunConserves(Apply(s, steps[0]), steps[1..]);
    }
  }

  /**
   Where a packet goes: an interactive one to the latency lane while that holds fewer than 256, any
   other one to the bulk lane while that holds fewer than 1024 or until the session is closed.
   */
  lemma PlacedExactly(s: State, p: Packet, refuse: bool)
    ensures var t := Apply(s, OfferLatency(p));
            if IsLatencySensitive(p.buf) && |s.prio| < 256 then t.prio == s.prio + [p] && t.pending == s.pending
            else t.prio == s.prio && t.pending == s.pending + multiset{p}
    ensures Enabled(s, OfferBulk(p, refuse)) ==>
              var t := Apply(s, OfferBulk(p, refuse));
              && t.pending == s.pending - multiset{p}
              && (if |s.bulk| < 1024 && !refuse then t.bulk == s.bulk + [p] && t.refused == s.refused
                  else t.bulk == s.bulk && t.refused == s.refused + multiset{p})
              && (refuse ==> s.done)
  {
    hide IsLatencySensitive;
  }

  /** A batch takes queued bulk packets until it holds 32 or none is left. */
  lemma BatchExactly(s: State)
    ensures Enabled(s, TakeQueued) <==> s.pc == Fill && |s.batch| < 32 && s.bulk != []
    ensures Enabled(s, EndFill) <==> s.pc == Fill && (|s.batch| == 32 || s.bulk == [])
    ensures Enabled(s, TakeQueued) ==>
              var t := Apply(s, TakeQueued); t.batch == s.batch + [s.bulk[0]] && t.bulk == s.bulk[1..]
  {
  }

  // ---------------------------------------------------------------- the writer makes progress

  /** A step of the writer goroutine. */
  predicate IsWriters(step: Step) { !step.OfferLatency? && !step.OfferBulk? && step != CloseDone }

  /** A bound on the writer's steps before it waits or stops. */
  function Work(s: State): nat {
    8 * |s.prio| + 8 * |s.bulk| + 6 * |s.batch|
    + match s.pc
      case Top => 4
      case Select => 3
      case Fill => 3
      case Wait => 2
      case Send => 1
      case DrainPrio => 2
      case DrainBulk => 1
      case Stopped => 0
  }

  /** Without new packets the writer comes to rest. */
  lemma WriterAdvances(s: State, step: Step)
    requires Enabled(s, step) && IsWriters(step)
    ensures Work(Apply(s, step)) < Work(s)
  {
  }

  /** It rests only when it has stopped, or when nothing is queued and the session is open. */
  lemma WriterRests(s: State)
    requires Consistent(s)
    ensures (forall step :: IsWriters(step) ==> !Enabled(s, step)) <==>
              s.pc == Stopped || (s.pc == Select && s.prio == [] && s.bulk == [] && !s.done)
  {
    hide Only, LatencyRun;
    if s.pc != Stopped && !(s.pc == Select && s.prio == [] && s.bulk == [] && !s.done) {
      var step :=
        match s.pc
        case Top => LoopHead
        case Select => if s.prio != [] then SelectPrio(0) else if s.bulk != [] then SelectBulk else SelectDone
        case Fill => if |s.batch| < BATCH && s.bulk != [] then TakeQueued else EndFill
        case Wait => if s.prioRun < PRIO_BURST && s.prio != [] then PrioWaiting(0) else EndWait
        case Send => SendBulk(0)
        case _ => DrainOne;
      assert IsWriters(step) && Enabled(s, step);
    }
  }

  // ---------------------------------------------------------------- bulk is not starved

  predicate HandlesLatency(step: Step) { step.SelectPrio? || step.PrioWaiting? }

  /** How many latency packets can still go out before a waiting bulk packet. */
  function Budget(s: State): (n: nat)
    ensures n <= PRIO_BURST
  {
    if s.Draining() then 0
    else if s.prioRun < PRIO_BURST then PRIO_BURST - s.prioRun
    else if s.pc == Select then 1 else 0
  }

  function CountLatency(steps: seq<Step>): nat {
    if steps == [] then 0 else (if HandlesLatency(steps[0]) then 1 else 0) + CountLatency(steps[1..])
  }

  lemma BudgetShrinks(s: State, step: Step)
    requires Consistent(s) && (s.BulkWaits() || s.Draining()) && Enabled(s, step) && !step.SendBulk?
    ensures var s' := Apply(s, step);
            && (s'.BulkWaits() || s'.Draining())
            && Budget(s') + (if HandlesLatency(step) then 1 else 0) <= Budget(s)
  {
    hide Only, LatencyRun, IsLatencySensitive;
  }

  /** Once a bulk packet waits, at most 64 latency packets are handled before the next bulk packet. */
  lemma {:induction false} BulkNotStarved(s: State, steps: seq<Step>)
    requires Consistent(s) && OneFate(s) && (s.BulkWaits() || s.Draining()) && Run(s, steps).Some?
    requires forall k :: 0 <= k < |steps| ==> !steps[k].SendBulk?
    ensures CountLatency(steps) <= Budget(s) <= PRIO_BURST
    decreases |steps|
  {
    hide Consistent, OneFate, Budget, Apply, Enabled, State.BulkWaits, State.Draining;
    if steps != [] {
      BudgetShrinks(s, steps[0]);
      StepKeeps(s, steps[0]);
      BulkNotStarved(Apply(s, steps[0]), steps[1..]);
    }
  }

  // ---------------------------------------------------------------- latency goes first

  /** A handled bulk packet follows an empty latency lane or a full burst. */
  ghost predicate Justified(log: seq<Event>, k: nat)
    requires k < |log|
  {
    log[k].Happened? && log[k].kind == Handled && log[k].lane == Bulk ==>
      LatencyRun(log[..k]) >= 64 || JustSawEmpty(log[..k])
  }

  /** The last thing the writer did was to find the latency lane empty; packets may have been accepted since. */
  predicate JustSawEmpty(log: seq<Event>) {
    log != [] &&
    var e := log[|log| - 1];
    e.SawLatencyEmpty? || (e.kind == Accepted && JustSawEmpty(log[..|log| - 1]))
  }

  ghost predicate BulkTurnsJustified(s: State) {
    && (forall k :: 0 <= k < |s.log| ==> Justified(s.log, k))
    && (s.pc == Send ==> s.prioRun >= PRIO_BURST || JustSawEmpty(s.log))
  }

  lemma JustifiedAppend(log: seq<Event>, e: Event)
    requires forall k :: 0 <= k < |log| ==> Justified(log, k)
    requires e.Happened? && e.kind == Handled && e.lane == Bulk ==> LatencyRun(log) >= PRIO_BURST || JustSawEmpty(log)
    ensures forall k :: 0 <= k < |log + [e]| ==> Justified(log + [e], k)
    ensures e == SawLatencyEmpty ==> JustSawEmpty(log + [e])
    ensures e.Happened? && e.kind == Accepted && JustSawEmpty(log) ==> JustSawEmpty(log + [e])
  {
    hide LatencyRun;
    assert (log + [e])[..|log|] == log;
    forall k | 0 <= k < |log + [e]|
      ensures Justified(log + [e], k)
    {
      if k < |log| {
        assert (log + [e])[..k] == log[..k];
        assert Justified(log, k);
      }
    }
  }

  /** Steps that log nothing and do not reach a bulk send. */
  lemma JustifiedQuiet(s: State, s': State)
    requires BulkTurnsJustified(s) && s'.log == s.log
    requires s'.pc == Send ==> s.pc == Send && s'.prioRun == s.prioRun
    ensures BulkTurnsJustified(s')
  {
    hide Justified, JustSawEmpty;
  }

  lemma JustifiedEvent(s: State, s': State, e: Event)
    requires BulkTurnsJustified(s) && s'.log == s.log + [e] && s.prioRun == LatencyRun(s.log)
    requires e.Happened? && e.kind == Handled && e.lane == Bulk ==> s.pc == Send
    requires s'.pc == Send ==> e == SawLatencyEmpty || (e.kind == Accepted && s.pc == Send && s'.prioRun == s.prioRun)
    ensures BulkTurnsJustified(s')
  {
    hide Justified, JustSawEmpty, LatencyRun;
    JustifiedAppend(s.log, e);
  }

  lemma JustifiedStep(s: State, step: Step)
    requires Consistent(s) && BulkTurnsJustified(s) && Enabled(s, step)
    ensures BulkTurnsJustified(Apply(s, step))
  {
    hide LatencyRun, BulkTurnsJustified, Only, Apply, Enabled;
    var s' := Apply(s, step);
    StepShape(s, step);
    if s'.log == s.log {
      if step == EndWait {
        FullBurst(s);
      } else {
        JustifiedQuiet(s, s');
      }
    } else {
      JustifiedEvent(s, s', s'.log[|s.log|]);
    }
  }

  /** What a step logs, and when it leads to a bulk send. */
  ghost predicate Shape(s: State, step: Step, s': State) {
    if s'.log == s.log then
      if step == EndWait then s.prioRun >= PRIO_BURST && s' == s.(pc := Send)
      else s'.pc == Send ==> s.pc == Send && s'.prioRun == s.prioRun
    else
      && |s'.log| == |s.log| + 1 && s'.log == s.log + [s'.log[|s.log|]]
      && var e := s'.log[|s.log|];
         && (e.Happened? && e.kind == Handled && e.lane == Bulk ==> s.pc == Send)
         && (s'.pc == Send ==> e == SawLatencyEmpty || (e.kind == Accepted && s.pc == Send && s'.prioRun == s.prioRun))
  }

  /** Accepting or turning away a packet does not touch the writer. */
  lemma OfferShape(s: State, step: Step, s': State, e: Event)
    requires step != EndWait && s'.pc == s.pc && s'.prioRun == s.prioRun
    requires s'.log == s.log || (s'.log == s.log + [e] && e.Happened? && e.kind == Accepted)
    ensures Shape(s, step, s')
  {
  }

  lemma SendShape(s: State, step: Step)
    requires Enabled(s, step)
    requires step in {LoopHead, SelectBulk, SelectDone, TakeQueued, EndFill, EndWait, DrainOne, CloseDone}
    ensures Shape(s, step, Apply(s, step))
  {
  }

  lemma StepShape(s: State, step: Step)
    requires Enabled(s, step)
    ensures Shape(s, step, Apply(s, step))
  {
    hide IsLatencySensitive;
    match step
    case OfferLatency(p) =>
      hide Shape;
      OfferShape(s, step, OfferedLatency(s, p), Happened(Accepted, Latency, p, false));
    case OfferBulk(p, refuse) =>
      hide Shape;
      OfferShape(s, step, OfferedBulk(s, p, refuse), Happened(Accepted, Bulk, p, false));
    case SelectPrio(now) =>
    case PrioWaiting(now) =>
    case SendBulk(now) =>
    case _ => hide Shape; SendShape(s, step);
  }

  lemma FullBurst(s: State)
    requires BulkTurnsJustified(s) && s.prioRun >= PRIO_BURST
    ensures BulkTurnsJustified(s.(pc := Send))
  {
  }

  /** Over every run a bulk packet is handled only after an empty latency lane or 64 latency packets. */
  lemma {:induction false} LatencyGoesFirst(s: State, steps: seq<Step>)
    requires Consistent(s) && OneFate(s) && BulkTurnsJustified(s) && Run(s, steps).Some?
    ensures BulkTurnsJustified(Run(s, steps).value)
    decreases |steps|
  {
    if steps != [] {
      hide Consistent, OneFate, BulkTurnsJustified;
      StepKeeps(s, steps[0]);
      JustifiedStep(s, steps[0]);
      LatencyGoesFirst(Apply(s, steps[0]), steps[1..]);
    }
  }

  // ---------------------------------------------------------------- stale packets

  /** The time at which a step handles a packet. */
  function TimeOf(step: Step): seq<int> {
    match step
    case SelectPrio(now) => [now]
    case PrioWaiting(now) => [now]
    case SendBulk(now) => [now]
    case _ => []
  }

  function HandlingTimes(steps: seq<Step>): seq<int> {
    if steps == [] then [] else TimeOf(steps[0]) + HandlingTimes(steps[1..])
  }

  /** The handled packets, and whether each was sent. */
  function Verdicts(log: seq<Event>): seq<(Packet, bool)> {
    if log == [] then [] else Verdicts(log[..|log| - 1]) + VerdictOf(log[|log| - 1])
  }

  function VerdictOf(e: Event): seq<(Packet, bool)> {
    if e.Happened? && e.kind == Handled then [(e.packet, e.sent)] else []
  }

  /** From the n-th handled packet on: each is sent if and only if it was handled at most 100 ms after it was queued. */
  ghost predicate SentInTime(verdicts: seq<(Packet, bool)>, n: nat, times: seq<int>) {
    && |verdicts| == n + |times|
    && forall k :: 0 <= k < |times| ==>
         (verdicts[n + k].1 <==> times[k] - verdicts[n + k].0.at <= 100_000_000)
  }

  lemma VerdictsAppend(log: seq<Event>, e: Event)
    ensures Verdicts(log + [e]) == Verdicts(log) + VerdictOf(e)
  {
    assert (log + [e])[..|log|] == log;
  }

  lemma InTimeConcat(u: seq<(Packet, bool)>, v: seq<(Packet, bool)>, n: nat, a: seq<int>, b: seq<int>)
    requires SentInTime(u, n, a) && SentInTime(v, |u|, b) && u <= v
    ensures SentInTime(v, n, a + b)
  {
    forall k | 0 <= k < |a + b|
      ensures v[n + k].1 <==> (a + b)[k] - v[n + k].0.at <= 100_000_000
    {
      if k < |a| {
        assert v[n + k] == u[n + k];
      } else {
        assert (a + b)[k] == b[k - |a|] && v[n + k] == v[|u| + (k - |a|)];
      }
    }
  }

  /** What a handled packet's verdict is, and that other steps give none. */
  lemma StepVerdict(s: State, step: Step)
    requires Enabled(s, step)
    ensures var verdicts := Verdicts(Apply(s, step).log);
            Verdicts(s.log) <= verdicts && SentInTime(verdicts, |Verdicts(s.log)|, TimeOf(step))
  {
    hide Verdicts, SentInTime, IsLatencySensitive;
    match step
    case SelectPrio(now) => PrioVerdict(s, now);
    case PrioWaiting(now) => PrioVerdict(s, now);
    case SendBulk(now) =>
      VerdictsAppend(s.log, HandleBulk(s, now).log[|s.log|]);
      OneVerdict(Verdicts(s.log), Verdicts(HandleBulk(s, now).log), [now]);
    case OfferLatency(p) => OfferVerdict(s, Happened(Accepted, Latency, p, false));
    case OfferBulk(p, _) => OfferVerdict(s, Happened(Accepted, Bulk, p, false));
    case _ => QuietVerdict(s, step);
  }

  lemma PrioVerdict(s: State, now: int)
    requires s.prio != []
    ensures var verdicts := Verdicts(HandlePrio(s, now).log);
            Verdicts(s.log) <= verdicts && SentInTime(verdicts, |Verdicts(s.log)|, [now])
  {
    hide Verdicts, SentInTime;
    VerdictsAppend(s.log, HandlePrio(s, now).log[|s.log|]);
    OneVerdict(Verdicts(s.log), Verdicts(HandlePrio(s, now).log), [now]);
  }

  lemma OfferVerdict(s: State, e: Event)
    requires VerdictOf(e) == []
    ensures Verdicts(s.log + [e]) == Verdicts(s.log) && SentInTime(Verdicts(s.log), |Verdicts(s.log)|, [])
  {
    VerdictsAppend(s.log, e);
  }

  lemma QuietVerdict(s: State, step: Step)
    requires Enabled(s, step)
    requires step in {LoopHead, SelectBulk, TakeQueued, EndFill, EndWait, SelectDone, CloseDone, DrainOne}
    ensures Verdicts(Apply(s, step).log) == Verdicts(s.log) && SentInTime(Verdicts(s.log), |Verdicts(s.log)|, [])
  {
    var s' := Apply(s, step);
    if s'.log != s.log {
      OfferVerdict(s, s'.log[|s.log|]);
    }
  }

  lemma OneVerdict(u: seq<(Packet, bool)>, v: seq<(Packet, bool)>, times: seq<int>)
    requires |times| <= 1 && |v| == |u| + |times| && u <= v
    requires |times| == 1 ==> (v[|u|].1 <==> times[0] - v[|u|].0.at <= 100_000_000)
    ensures SentInTime(v, |u|, times)
  {
  }

  /** In every interleaving exactly the packets handled within 100 ms are sent; older ones are dropped. */
  lemma {:induction false} StaleAreDropped(s: State, steps: seq<Step>)
    requires Run(s, steps).Some?
    ensures var verdicts := Verdicts(Run(s, steps).value.log);
            Verdicts(s.log) <= verdicts && SentInTime(verdicts, |Verdicts(s.log)|, HandlingTimes(steps))
    decreases |steps|
  {
    hide Verdicts, Apply, Enabled, TimeOf;
    if steps == [] {
      assert Run(s, steps) == Some(s);
    } else {
      hide SentInTime;
      var s' := Apply(s, steps[0]);
      StepVerdict(s, steps[0]);
      StaleAreDropped(s', steps[1..]);
      InTimeConcat(Verdicts(s'.log), Verdicts(Run(s, steps).value.log), |Verdicts(s.log)|, TimeOf(steps[0]),
                   HandlingTimes(steps[1..]));
    }
  }

  // ---------------------------------------------------------------- whole runs

  lemma {:induction false} RunConcat(s: State, a: seq<Step>, b: seq<Step>)
    requires Run(s, a + b).Some?
    ensures Run(s, a).Some? && Run(s, a + b) == Run(Run(s, a).value, b)
    decreases |a|
  {
    hide Apply, Enabled;
    if a == [] {
      assert a + b == b;
    } else {
      assert (a + b)[0] == a[0] && (a + b)[1..] == a[1..] + b;
      RunConcat(Apply(s, a[0]), a[1..], b);
    }
  }

  /**
   In every interleaving: each offered packet has one fate, each lane is first in, first out, a
   handled packet is sent if and only if it is not stale, bulk turns are justified, and from any
   point where a bulk packet waits, at most 64 latency packets are handled before the next bulk packet.
   */
  lemma EveryRun(before: seq<Step>, after: seq<Step>)
    requires Run(START, before + after).Some?
    ensures Run(START, before).Some?
    ensures var s := Run(START, before + after).value;
            && OneFate(s) && BulkTurnsJustified(s) && Conserved(s)
            && SentInTime(Verdicts(s.log), 0, HandlingTimes(before + after))
    ensures Run(START, before).value.BulkWaits() && (forall k :: 0 <= k < |after| ==> !after[k].SendBulk?) ==>
              CountLatency(after) <= 64
  {
    StartIsConsistent();
    StaleAreDropped(START, before + after);
    hide Consistent, OneFate, BulkTurnsJustified, Conserved, Run, State.BulkWaits, CountLatency, SentInTime;
    EveryRunConserves(START, before + after);
    EveryRunKeepsOneFate(START, before + after);
    LatencyGoesFirst(START, before + after);
    RunConcat(START, before, after);
    EveryRunKeepsOneFate(START, before);
    var s := Run(START, before).value;
    if s.BulkWaits() && forall k :: 0 <= k < |after| ==> !after[k].SendBulk? {
      BulkNotStarved(s, after);
    }
  }
}
