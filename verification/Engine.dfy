/** The send and receive engine as a machine over events, and what holds over all its runs.

    An event is a frame the receiver has completed, a tick of the clock, or a call of `send`.  The log records what
    the outside sees: deliveries to the handler, packets accepted for sending, packets put on the wire. */
module Engine {
  import opened Bytes
  import opened Framing
  import opened Packets
  import Crc

  /** Duplicates are handed on once in this many milliseconds. */
  const DUPLICATE_SPACE := 1000

  /** `SEND_PACKET_TIME_SPACE`. */
  const SEND_SPACE := 100

  datatype Event =
    | Frame(bytes: seq<byte>, now: int)
    | Tick(now: int)
    | Send(packet: Packet, connected: bool)

  datatype Act =
    | Delivered(frame: seq<byte>, at: int, again: bool)
    | Accepted(packet: Packet)
    | Sent(packet: Packet, at: int)

  datatype State = State(
    last: seq<byte>, queue: seq<Packet>, lastSend: int, lastDeal: int,
    received: nat, bad: nat, sent: nat, log: seq<Act>)

  const START := State([], [], 0, 0, 0, 0, 0, [])

  predicate EventOk(k: Kind, ev: Event) {
    match ev
    case Frame(f, _) => HoldsFrame(k, f) && |f| <= BufLen(k)
    case Tick(_) => true
    case Send(p, _) => Sendable(k, p)
  }

  /** `f` repeats the packet `last`, as `compare` sees it. */
  predicate Again(k: Kind, f: seq<byte>, last: seq<byte>)
    requires HoldsFrame(k, f)
  {
    DeclaredPositive(k, f);
    k == Mcu && f == last && KeysClear(f)
  }

  predicate QueueOk(k: Kind, q: seq<Packet>) {
    forall i :: 0 <= i < |q| ==> Sendable(k, q[i])
  }

  function Step(k: Kind, s: State, ev: Event): (t: State)
    requires EventOk(k, ev) && QueueOk(k, s.queue)
    ensures QueueOk(k, t.queue)
  {
    match ev
    case Frame(f, now) => OnFrame(k, s.(received := s.received + 1), f, now)
    case Tick(now) => OnTick(k, s, now)
    case Send(p, connected) => OnSend(k, s, p, connected)
  }

  function OnFrame(k: Kind, s: State, f: seq<byte>, now: int): State
    requires HoldsFrame(k, f)
  {
    if !SumOk(k, f) then s.(bad := s.bad + 1)
    else if !Again(k, f, s.last) then Deliver(s, f, now, false)
    else if now - s.lastDeal >= DUPLICATE_SPACE then Deliver(s.(lastDeal := now), f, now, true)
    else s.(bad := 0)
  }

  function Deliver(s: State, f: seq<byte>, now: int, again: bool): State {
    s.(bad := 0, last := f, lastSend := 0, log := s.log + [Delivered(f, now, again)])
  }

  function OnTick(k: Kind, s: State, now: int): State
    requires QueueOk(k, s.queue)
  {
    if now - s.lastSend >= SEND_SPACE && s.queue != [] then
      s.(lastSend := now, queue := s.queue[1..], sent := s.sent + 1,
         log := s.log + [Sent(Closed(k, s.queue[0]), now)])
    else s
  }

  /** A packet like `p` is waiting to be sent. */
  predicate Waits(k: Kind, q: seq<Packet>, p: Packet)
    requires QueueOk(k, q) && WellFormed(k, p)
  {
    exists i :: 0 <= i < |q| && Repeats(k, p, q[i])
  }

  function OnSend(k: Kind, s: State, p: Packet, connected: bool): State
    requires QueueOk(k, s.queue) && Sendable(k, p)
  {
    if !connected || Waits(k, s.queue, p) then s
    else s.(queue := s.queue + [p], log := s.log + [Accepted(p)])
  }

  predicate EventsOk(k: Kind, evs: seq<Event>) {
    forall ev :: ev in evs ==> EventOk(k, ev)
  }

  function Run(k: Kind, s: State, evs: seq<Event>): (t: State)
    requires EventsOk(k, evs) && QueueOk(k, s.queue)
    ensures QueueOk(k, t.queue)
    decreases evs
  {
    if evs == [] then s
    else
      assert evs[0] in evs;
      Run(k, Step(k, s, evs[0]), evs[1..])
  }

  lemma {:induction false} RunAppend(k: Kind, s: State, a: seq<Event>, b: seq<Event>)
    requires EventsOk(k, a) && EventsOk(k, b) && QueueOk(k, s.queue)
    ensures EventsOk(k, a + b) && Run(k, s, a + b) == Run(k, Run(k, s, a), b)
    decreases a
  {
    hide Step;
    if a == [] {
      assert a + b == b;
    } else {
      assert (a + b)[0] == a[0] && (a + b)[1..] == a[1..] + b;
      RunAppend(k, Step(k, s, a[0]), a[1..], b);
    }
  }

  // ----- what the log says -------------------------------------------------------------------

  /** The last frame delivered; before the first delivery, nothing. */
  function LastFrame(log: seq<Act>): seq<byte> {
    if log == [] then []
    else if log[|log| - 1].Delivered? then log[|log| - 1].frame
    else LastFrame(log[..|log| - 1])
  }

  /** The time of the last duplicate delivered; before the first, zero. */
  function LastAgain(log: seq<Act>): int {
    if log == [] then 0
    else if log[|log| - 1].Delivered? && log[|log| - 1].again then log[|log| - 1].at
    else LastAgain(log[..|log| - 1])
  }

  /** The time the sender waits from: the last transmission, or zero if a delivery came after it. */
  function LastSend(log: seq<Act>): int {
    if log == [] then 0
    else match log[|log| - 1]
      case Sent(_, at) => at
      case Delivered(_, _, _) => 0
      case Accepted(_) => LastSend(log[..|log| - 1])
  }

  function AcceptedOnes(log: seq<Act>): seq<Packet> {
    if log == [] then []
    else AcceptedOnes(log[..|log| - 1]) + if log[|log| - 1].Accepted? then [log[|log| - 1].packet] else []
  }

  function SentOnes(log: seq<Act>): seq<Packet> {
    if log == [] then []
    else SentOnes(log[..|log| - 1]) + if log[|log| - 1].Sent? then [log[|log| - 1].packet] else []
  }

  /** The valid bytes of a packet. */
  function BytesOf(p: Packet): seq<byte> {
    if 0 <= p.len <= |p.buf| then p.buf[..p.len] else []
  }

  /** What was put on the wire, packet by packet. */
  function Wire(log: seq<Act>): seq<seq<byte>> {
    if log == [] then []
    else Wire(log[..|log| - 1]) + if log[|log| - 1].Sent? then [BytesOf(log[|log| - 1].packet)] else []
  }

  /** What was handed to the handler, frame by frame. */
  function Handed(log: seq<Act>): seq<seq<byte>> {
    if log == [] then []
    else Handed(log[..|log| - 1]) + if log[|log| - 1].Delivered? then [log[|log| - 1].frame] else []
  }

  lemma OneMoreOut(log: seq<Act>, a: Act)
    ensures Wire(log + [a]) == Wire(log) + if a.Sent? then [BytesOf(a.packet)] else []
    ensures Handed(log + [a]) == Handed(log) + if a.Delivered? then [a.frame] else []
  {
    assert (log + [a])[..|log|] == log;
  }

  function AllClosed(k: Kind, q: seq<Packet>): (c: seq<Packet>)
    requires QueueOk(k, q)
    ensures |c| == |q| && forall i :: 0 <= i < |q| ==> c[i] == Closed(k, q[i])
  {
    seq(|q|, i requires 0 <= i < |q| => Closed(k, q[i]))
  }

  // ----- the invariant -----------------------------------------------------------------------

  /** No packet in the queue repeats an earlier one. */
  ghost predicate NoRepeats(k: Kind, q: seq<Packet>)
    requires QueueOk(k, q)
  {
    forall i, j :: 0 <= i < j < |q| ==> !Repeats(k, q[j], q[i])
  }

  /** The accepted packets are the sent ones and the waiting ones, in this order. */
  ghost predicate Fifo(k: Kind, queue: seq<Packet>, log: seq<Act>) {
    && QueueOk(k, AcceptedOnes(log))
    && |SentOnes(log)| + |queue| == |AcceptedOnes(log)|
    && queue == AcceptedOnes(log)[|SentOnes(log)|..]
    && SentOnes(log) == AllClosed(k, AcceptedOnes(log)[..|SentOnes(log)|])
  }

  /** Duplicates `DUPLICATE_SPACE` apart, and the last of them at `LastAgain`. */
  ghost predicate AgainSpaced(log: seq<Act>) {
    && (forall i, j :: 0 <= i < j < |log| && log[i].Delivered? && log[i].again && log[j].Delivered? && log[j].again
          ==> log[j].at - log[i].at >= DUPLICATE_SPACE)
    && (forall i :: 0 <= i < |log| && log[i].Delivered? && log[i].again ==> log[i].at <= LastAgain(log))
  }

  /** Something was delivered strictly between the log entries `i` and `j`. */
  predicate DeliveryBetween(log: seq<Act>, i: int, j: int) {
    exists m :: 0 <= i < m < j <= |log| && log[m].Delivered?
  }

  /** Transmissions `SEND_SPACE` apart unless something was delivered in between. */
  ghost predicate SendsSpaced(log: seq<Act>) {
    && (forall i, j :: 0 <= i < j < |log| && log[i].Sent? && log[j].Sent? && !DeliveryBetween(log, i, j)
          ==> log[j].at - log[i].at >= SEND_SPACE)
    && (forall i :: 0 <= i < |log| && log[i].Sent? && !DeliveryBetween(log, i, |log|) ==> log[i].at <= LastSend(log))
  }

  /** Every delivered frame is complete and has a correct sum. */
  ghost predicate GoodFrames(k: Kind, log: seq<Act>) {
    forall i :: 0 <= i < |log| && log[i].Delivered? ==> HoldsFrame(k, log[i].frame) && SumOk(k, log[i].frame)
  }

  ghost predicate Inv(k: Kind, s: State) {
    && QueueOk(k, s.queue)
    && s.last == LastFrame(s.log) && s.lastDeal == LastAgain(s.log) && s.lastSend == LastSend(s.log)
    && s.sent == |SentOnes(s.log)|
    && NoRepeats(k, s.queue) && Fifo(k, s.queue, s.log)
    && AgainSpaced(s.log) && SendsSpaced(s.log) && GoodFrames(k, s.log)
  }

  lemma StartInv(k: Kind)
    ensures Inv(k, START)
  {
    assert AllClosed(k, []) == [];
  }

  // One more act.

  lemma OneMore(log: seq<Act>, a: Act)
    ensures (log + [a])[..|log|] == log && (log + [a])[|log|] == a
    ensures LastFrame(log + [a]) == if a.Delivered? then a.frame else LastFrame(log)
    ensures LastAgain(log + [a]) == if a.Delivered? && a.again then a.at else LastAgain(log)
    ensures LastSend(log + [a]) == if a.Sent? then a.at else if a.Delivered? then 0 else LastSend(log)
    ensures AcceptedOnes(log + [a]) == AcceptedOnes(log) + if a.Accepted? then [a.packet] else []
    ensures SentOnes(log + [a]) == SentOnes(log) + if a.Sent? then [a.packet] else []
  {
    assert (log + [a])[..|log|] == log;
  }

  lemma OneMoreAgain(log: seq<Act>, a: Act)
    requires AgainSpaced(log)
    requires a.Delivered? && a.again ==> a.at - LastAgain(log) >= DUPLICATE_SPACE
    ensures AgainSpaced(log + [a])
  {
    OneMore(log, a);
    var l := log + [a];
    assert forall i :: 0 <= i < |log| ==> l[i] == log[i];
  }

  lemma OneMoreSend(log: seq<Act>, a: Act)
    requires SendsSpaced(log)
    requires a.Sent? ==> a.at - LastSend(log) >= SEND_SPACE
    ensures SendsSpaced(log + [a])
  {
    OneMore(log, a);
    var l := log + [a];
    assert forall i :: 0 <= i < |log| ==> l[i] == log[i];
    forall i, j | 0 <= i < j <= |log| ensures DeliveryBetween(l, i, j) <==> DeliveryBetween(log, i, j) {
      BetweenGrows(log, a, i, j);
    }
    forall i | 0 <= i < |log| ensures DeliveryBetween(log, i, |log|) || a.Delivered? ==> DeliveryBetween(l, i, |l|) {
      LaterBetween(log, a, i);
    }
  }

  lemma BetweenGrows(log: seq<Act>, a: Act, i: int, j: int)
    requires 0 <= i < j <= |log|
    ensures DeliveryBetween(log + [a], i, j) <==> DeliveryBetween(log, i, j)
  {
    var l := log + [a];
    if DeliveryBetween(log, i, j) {
      var m :| i < m < j && log[m].Delivered?;
      assert l[m].Delivered?;
    }
    if DeliveryBetween(l, i, j) {
      var m :| i < m < j && l[m].Delivered?;
      assert log[m].Delivered?;
    }
  }

  lemma LaterBetween(log: seq<Act>, a: Act, i: int)
    requires 0 <= i < |log|
    ensures DeliveryBetween(log, i, |log|) || a.Delivered? ==> DeliveryBetween(log + [a], i, |log| + 1)
  {
    var l := log + [a];
    if DeliveryBetween(log, i, |log|) {
      var m :| i < m < |log| && log[m].Delivered?;
      assert l[m].Delivered?;
    } else if a.Delivered? {
      assert l[|log|].Delivered?;
    }
  }

  // Each kind of event keeps the invariant.

  lemma DeliverKeeps(k: Kind, s: State, f: seq<byte>, now: int, again: bool)
    requires Inv(k, s) && HoldsFrame(k, f) && SumOk(k, f)
    requires again ==> now - s.lastDeal >= DUPLICATE_SPACE
    ensures Inv(k, Deliver(if again then s.(lastDeal := now) else s, f, now, again))
  {
    hide HoldsFrame, SumOk, LastFrame, LastAgain, LastSend;
    hide AcceptedOnes, SentOnes, AgainSpaced, SendsSpaced, Sendable, Repeats;
    var a := Delivered(f, now, again);
    OneMore(s.log, a);
    OneMoreAgain(s.log, a);
    OneMoreSend(s.log, a);
  }

  lemma FrameKeeps(k: Kind, s: State, f: seq<byte>, now: int)
    requires Inv(k, s) && HoldsFrame(k, f)
    ensures Inv(k, OnFrame(k, s, f, now))
  {
    hide HoldsFrame, SumOk, LastFrame, LastAgain, LastSend;
    hide AcceptedOnes, SentOnes, AgainSpaced, SendsSpaced, Sendable, Repeats;
    if SumOk(k, f) {
      if !Again(k, f, s.last) {
        DeliverKeeps(k, s, f, now, false);
      } else if now - s.lastDeal >= DUPLICATE_SPACE {
        DeliverKeeps(k, s, f, now, true);
      }
    }
  }

  lemma TickKeeps(k: Kind, s: State, now: int)
    requires Inv(k, s)
    ensures Inv(k, OnTick(k, s, now))
  {
    hide LastFrame, LastAgain, LastSend, AcceptedOnes, SentOnes, AgainSpaced;
    hide SendsSpaced, Sendable, Repeats, Closed, HoldsFrame, SumOk;
    if now - s.lastSend >= SEND_SPACE && s.queue != [] {
      var a := Sent(Closed(k, s.queue[0]), now);
      OneMore(s.log, a);
      OneMoreAgain(s.log, a);
      OneMoreSend(s.log, a);
      var t := OnTick(k, s, now);
      var n, all := |SentOnes(s.log)|, AcceptedOnes(s.log);
      assert all[n] == s.queue[0] && t.queue == all[n + 1..];
      assert all[..n + 1] == all[..n] + [all[n]];
      assert SentOnes(t.log) == AllClosed(k, all[..n + 1]);
    }
  }

  lemma SendKeeps(k: Kind, s: State, p: Packet, connected: bool)
    requires Inv(k, s) && Sendable(k, p)
    ensures Inv(k, OnSend(k, s, p, connected))
  {
    hide LastFrame, LastAgain, LastSend, AcceptedOnes, SentOnes, AgainSpaced;
    hide SendsSpaced, Repeats, Closed, HoldsFrame, SumOk, AllClosed;
    if connected && !Waits(k, s.queue, p) {
      var a := Accepted(p);
      OneMore(s.log, a);
      OneMoreAgain(s.log, a);
      OneMoreSend(s.log, a);
      var t := OnSend(k, s, p, connected);
      var n := |SentOnes(s.log)|;
      assert AcceptedOnes(t.log)[..n] == AcceptedOnes(s.log)[..n];
      assert t.queue == AcceptedOnes(t.log)[n..];
    }
  }

  lemma StepKeeps(k: Kind, s: State, ev: Event)
    requires Inv(k, s) && EventOk(k, ev)
    ensures Inv(k, Step(k, s, ev))
  {
    hide NoRepeats, Fifo, AgainSpaced, SendsSpaced, GoodFrames, OnFrame;
    hide OnTick, OnSend, LastFrame, LastAgain, LastSend, SentOnes;
    match ev
    case Frame(f, now) => FrameKeeps(k, s.(received := s.received + 1), f, now);
    case Tick(now) => TickKeeps(k, s, now);
    case Send(p, connected) => SendKeeps(k, s, p, connected);
  }

  lemma {:induction false} RunKeeps(k: Kind, s: State, evs: seq<Event>)
    requires Inv(k, s) && EventsOk(k, evs)
    ensures Inv(k, Run(k, s, evs))
    decreases evs
  {
    hide Inv, Step;
    InvQueue(k, s);
    if evs != [] {
      assert evs[0] in evs;
      StepKeeps(k, s, evs[0]);
      RunKeeps(k, Step(k, s, evs[0]), evs[1..]);
    }
  }

  lemma InvQueue(k: Kind, s: State)
    requires Inv(k, s)
    ensures QueueOk(k, s.queue)
  {
  }

  // ----- what every run keeps ----------------------------------------------------------------

  /** The invariant, for every run from the start. */
  lemma EveryRun(k: Kind, evs: seq<Event>)
    requires EventsOk(k, evs)
    ensures Inv(k, Run(k, START, evs))
  {
    StartInv(k);
    RunKeeps(k, START, evs);
  }

  /** A completed frame is delivered if and only if its sum is right and it is either not a repetition of the
      last delivered frame or comes a second or more after the last repetition that was delivered. */
  lemma DeliveredIff(k: Kind, evs: seq<Event>, f: seq<byte>, now: int)
    requires EventsOk(k, evs) && HoldsFrame(k, f) && |f| <= BufLen(k)
    ensures var log := Run(k, START, evs).log;
            var log' := Run(k, START, evs + [Frame(f, now)]).log;
            if SumOk(k, f) && (!Again(k, f, LastFrame(log)) || now - LastAgain(log) >= DUPLICATE_SPACE)
            then log' == log + [Delivered(f, now, Again(k, f, LastFrame(log)))]
            else log' == log
  {
    hide LastFrame, LastAgain, HoldsFrame, SumOk;
    EveryRun(k, evs);
    StepOfRun(k, evs, Frame(f, now));
  }

  /** The other half: a sound board frame that equals the last one delivered and carries no key is held back, unless a
      second has gone since the last repetition that was delivered. */
  lemma RepetitionHeldBack(evs: seq<Event>, f: seq<byte>, now: int)
    requires EventsOk(Mcu, evs) && HoldsFrame(Mcu, f) && |f| <= 32 && SumOk(Mcu, f)
    requires f == LastFrame(Run(Mcu, START, evs).log) && f[6] == 0 && f[7] == 0 && f[8] == 0 && f[9] == 0
    ensures var log := Run(Mcu, START, evs).log;
            Run(Mcu, START, evs + [Frame(f, now)]).log
              == if now - LastAgain(log) >= 1000 then log + [Delivered(f, now, true)] else log
  {
    hide LastFrame, LastAgain;
    DeliveredIff(Mcu, evs, f, now);
  }

  /** A frame with a wrong sum is never delivered, whatever else holds of it. */
  lemma UnsoundNeverDelivered(k: Kind, evs: seq<Event>, f: seq<byte>, now: int)
    requires EventsOk(k, evs) && HoldsFrame(k, f) && |f| <= BufLen(k) && !SumOk(k, f)
    ensures Run(k, START, evs + [Frame(f, now)]).log == Run(k, START, evs).log
  {
    hide LastFrame, LastAgain;
    DeliveredIff(k, evs, f, now);
  }

  /** On the Tuya link nothing counts as a repetition: every sound frame is delivered. */
  lemma TuyaAlwaysDelivered(evs: seq<Event>, f: seq<byte>, now: int)
    requires EventsOk(Tuya, evs) && HoldsFrame(Tuya, f) && |f| <= 128 && SumOk(Tuya, f)
    ensures Run(Tuya, START, evs + [Frame(f, now)]).log == Run(Tuya, START, evs).log + [Delivered(f, now, false)]
  {
    hide LastFrame, LastAgain;
    DeliveredIff(Tuya, evs, f, now);
  }

  // What the log remembers, told by its entries.

  /** The last frame delivered is that of the last delivery; before the first there is none. */
  lemma {:induction false} LastFrameTells(log: seq<Act>)
    ensures forall i :: 0 <= i < |log| && log[i].Delivered? && (forall m :: i < m < |log| ==> !log[m].Delivered?)
              ==> LastFrame(log) == log[i].frame
    ensures (forall i :: 0 <= i < |log| ==> !log[i].Delivered?) ==> LastFrame(log) == []
    decreases |log|
  {
    if log != [] {
      var front := log[..|log| - 1];
      LastFrameTells(front);
      assert forall i :: 0 <= i < |front| ==> front[i] == log[i];
    }
  }

  predicate DeliveredAgain(a: Act) { a.Delivered? && a.again }

  /** The entry `i` delivers a duplicate, and none behind it does. */
  predicate LastOfAll(log: seq<Act>, i: nat)
    requires i < |log|
  {
    DeliveredAgain(log[i]) && forall m :: i < m < |log| ==> !DeliveredAgain(log[m])
  }

  /** The throttle counts from the last delivery of a duplicate; before the first, from time zero. */
  lemma {:induction false} LastAgainTells(log: seq<Act>)
    ensures forall i :: 0 <= i < |log| && LastOfAll(log, i) ==> LastAgain(log) == log[i].at
    ensures (forall i :: 0 <= i < |log| ==> !DeliveredAgain(log[i])) ==> LastAgain(log) == 0
    decreases |log|
  {
    if log != [] {
      var front := log[..|log| - 1];
      LastAgainTells(front);
      assert forall i :: 0 <= i < |front| ==> front[i] == log[i];
    }
  }

  /** The sender counts from the last transmission; from time zero if there was none or a delivery came after it. */
  lemma {:induction false} LastSendTells(log: seq<Act>)
    ensures forall i :: 0 <= i < |log| && !log[i].Accepted? && (forall m :: i < m < |log| ==> log[m].Accepted?)
              ==> LastSend(log) == if log[i].Sent? then log[i].at else 0
    ensures (forall i :: 0 <= i < |log| ==> log[i].Accepted?) ==> LastSend(log) == 0
    decreases |log|
  {
    if log != [] {
      var front := log[..|log| - 1];
      LastSendTells(front);
      assert forall i :: 0 <= i < |front| ==> front[i] == log[i];
    }
  }

  /** A tick sends if and only if a packet waits and 100 ms have gone since the time the sender counts from; then it
      sends the packet that was accepted first. */
  lemma TickSendsIff(k: Kind, evs: seq<Event>, now: int)
    requires EventsOk(k, evs)
    ensures var log := Run(k, START, evs).log;
            var log', n := Run(k, START, evs + [Tick(now)]).log, |SentOnes(log)|;
            if n < |AcceptedOnes(log)| && now - LastSend(log) >= 100
            then Sendable(k, AcceptedOnes(log)[n]) && log' == log + [Sent(Closed(k, AcceptedOnes(log)[n]), now)]
            else log' == log
  {
    hide SentOnes, AcceptedOnes, LastSend, LastFrame, LastAgain, Closed, Sendable;
    EveryRun(k, evs);
    StepOfRun(k, evs, Tick(now));
  }

  /** The counters: frames received, unsound frames since the last sound one, packets sent. */
  function FrameCount(evs: seq<Event>): nat {
    if evs == [] then 0 else FrameCount(evs[..|evs| - 1]) + if evs[|evs| - 1].Frame? then 1 else 0
  }

  function UnsoundTail(k: Kind, evs: seq<Event>): nat
    requires EventsOk(k, evs)
  {
    if evs == [] then 0
    else
      var ev, front := evs[|evs| - 1], evs[..|evs| - 1];
      if !ev.Frame? then UnsoundTail(k, front)
      else
        assert EventOk(k, ev);
        if SumOk(k, ev.bytes) then 0 else UnsoundTail(k, front) + 1
  }

  lemma {:induction false} CountersTell(k: Kind, evs: seq<Event>)
    requires EventsOk(k, evs)
    ensures var s := Run(k, START, evs);
            s.received == FrameCount(evs) && s.bad == UnsoundTail(k, evs) && s.sent == |SentOnes(s.log)|
    decreases |evs|
  {
    hide SumOk, HoldsFrame, Again, Sendable, Closed, Repeats, SentOnes, LastFrame, LastAgain, LastSend;
    EveryRun(k, evs);
    if evs != [] {
      var front, ev := evs[..|evs| - 1], evs[|evs| - 1];
      assert evs == front + [ev];
      CountersTell(k, front);
      StepOfRun(k, front, ev);
    }
  }

  lemma StepOfRun(k: Kind, evs: seq<Event>, ev: Event)
    requires EventsOk(k, evs) && EventOk(k, ev)
    ensures EventsOk(k, evs + [ev]) && Run(k, START, evs + [ev]) == Step(k, Run(k, START, evs), ev)
  {
    hide Step, EventOk;
    RunAppend(k, START, evs, [ev]);
    var s := Run(k, START, evs);
    assert [ev][0] == ev && [ev][1..] == [];
    assert Run(k, s, [ev]) == Run(k, Step(k, s, ev), []);
  }

  /** A valid packet that differs from the last one delivered, or that carries a key, always gets through. */
  lemma NewsAlwaysDelivered(evs: seq<Event>, f: seq<byte>, now: int)
    requires EventsOk(Mcu, evs) && HoldsFrame(Mcu, f) && |f| <= 32 && SumOk(Mcu, f)
    requires f != LastFrame(Run(Mcu, START, evs).log) || f[6] != 0 || f[7] != 0 || f[8] != 0 || f[9] != 0
    ensures Run(Mcu, START, evs + [Frame(f, now)]).log == Run(Mcu, START, evs).log + [Delivered(f, now, false)]
  {
    DeliveredIff(Mcu, evs, f, now);
  }

  /** A packet is accepted if and only if the link is up and no accepted packet that is still to be sent is
      repeated by it. */
  lemma AcceptedIff(k: Kind, evs: seq<Event>, p: Packet, connected: bool)
    requires EventsOk(k, evs) && Sendable(k, p)
    ensures var log := Run(k, START, evs).log;
            var log' := Run(k, START, evs + [Send(p, connected)]).log;
            && |SentOnes(log)| <= |AcceptedOnes(log)|
            && QueueOk(k, AcceptedOnes(log)[|SentOnes(log)|..])
            && (if connected && !Waits(k, AcceptedOnes(log)[|SentOnes(log)|..], p)
                then log' == log + [Accepted(p)]
                else log' == log)
  {
    hide SentOnes, AcceptedOnes, Repeats;
    EveryRun(k, evs);
    StepOfRun(k, evs, Send(p, connected));
  }

  /** The same for the board, byte by byte: a packet is accepted if and only if the link is up, and it has a byte set in
      6 to 9 or differs, in length or in a valid byte, from every accepted packet that is still to be sent. */
  lemma BoardAcceptedIff(evs: seq<Event>, p: Packet, connected: bool)
    requires EventsOk(Mcu, evs) && Sendable(Mcu, p)
    ensures var log := Run(Mcu, START, evs).log;
            var log' := Run(Mcu, START, evs + [Send(p, connected)]).log;
            && |SentOnes(log)| <= |AcceptedOnes(log)|
            && var unsent := AcceptedOnes(log)[|SentOnes(log)|..];
               if connected && (p.buf[6] != 0 || p.buf[7] != 0 || p.buf[8] != 0 || p.buf[9] != 0
                                || forall q :: q in unsent ==> q.len != p.len || BytesOf(q) != BytesOf(p))
               then log' == log + [Accepted(p)]
               else log' == log
  {
    hide SentOnes, AcceptedOnes;
    AcceptedIff(Mcu, evs, p, connected);
    var log := Run(Mcu, START, evs).log;
    var unsent := AcceptedOnes(log)[|SentOnes(log)|..];
    WaitsTells(unsent, p);
  }

  lemma WaitsTells(q: seq<Packet>, p: Packet)
    requires QueueOk(Mcu, q) && WellFormed(Mcu, p)
    ensures Waits(Mcu, q, p) <==>
              && p.buf[6] == 0 && p.buf[7] == 0 && p.buf[8] == 0 && p.buf[9] == 0
              && exists r :: r in q && r.len == p.len && BytesOf(r) == BytesOf(p)
  {
    if Waits(Mcu, q, p) {
      var i :| 0 <= i < |q| && Repeats(Mcu, p, q[i]);
      assert q[i] in q;
    }
    if p.buf[6] == 0 && p.buf[7] == 0 && p.buf[8] == 0 && p.buf[9] == 0
       && exists r :: r in q && r.len == p.len && BytesOf(r) == BytesOf(p) {
      var r :| r in q && r.len == p.len && BytesOf(r) == BytesOf(p);
      var i :| 0 <= i < |q| && q[i] == r;
      assert Repeats(Mcu, p, q[i]);
    }
  }

  /** On the Tuya link every packet is accepted while the link is up. */
  lemma TuyaAcceptedIff(evs: seq<Event>, p: Packet, connected: bool)
    requires EventsOk(Tuya, evs) && Sendable(Tuya, p)
    ensures var log := Run(Tuya, START, evs).log;
            Run(Tuya, START, evs + [Send(p, connected)]).log == if connected then log + [Accepted(p)] else log
  {
    hide SentOnes, AcceptedOnes;
    AcceptedIff(Tuya, evs, p, connected);
  }

  /** Accepted packets are put on the wire exactly once each, closed, in the order of acceptance: what was sent is
      a prefix of what was accepted. */
  lemma SentIsPrefixOfAccepted(k: Kind, evs: seq<Event>)
    requires EventsOk(k, evs)
    ensures var log := Run(k, START, evs).log;
            && |SentOnes(log)| <= |AcceptedOnes(log)|
            && forall i :: 0 <= i < |SentOnes(log)| ==>
                 Sendable(k, AcceptedOnes(log)[i]) && SentOnes(log)[i] == Closed(k, AcceptedOnes(log)[i])
  {
    hide SentOnes, AcceptedOnes, Sendable, Closed;
    EveryRun(k, evs);
  }

  /** Two transmissions with no delivery between them are at least 100 ms apart. */
  lemma TransmissionsSpaced(k: Kind, evs: seq<Event>, i: nat, j: nat)
    requires EventsOk(k, evs)
    requires var log := Run(k, START, evs).log;
             i < j < |log| && log[i].Sent? && log[j].Sent? && forall m :: i < m < j ==> !log[m].Delivered?
    ensures Run(k, START, evs).log[j].at - Run(k, START, evs).log[i].at >= 100
  {
    hide Run, NoRepeats, Fifo, GoodFrames, QueueOk, LastFrame, LastAgain, LastSend, SentOnes, AgainSpaced;
    EveryRun(k, evs);
  }

  /** Two duplicates delivered are at least 1000 ms apart. */
  lemma DuplicatesSpaced(k: Kind, evs: seq<Event>, i: nat, j: nat)
    requires EventsOk(k, evs)
    requires var log := Run(k, START, evs).log;
             i < j < |log| && log[i].Delivered? && log[i].again && log[j].Delivered? && log[j].again
    ensures Run(k, START, evs).log[j].at - Run(k, START, evs).log[i].at >= 1000
  {
    hide Run, NoRepeats, Fifo, GoodFrames, QueueOk, LastFrame, LastAgain, LastSend, SentOnes, SendsSpaced;
    EveryRun(k, evs);
  }

  /** In the queue no packet is a repetition of another, in either direction if both have their key bytes. */
  lemma QueueHasNoRepeats(k: Kind, evs: seq<Event>, i: nat, j: nat)
    requires EventsOk(k, evs)
    requires var q := Run(k, START, evs).queue;
             i < |q| && j < |q| && i != j && (i < j ==> q[i].len >= 10)
    ensures var q := Run(k, START, evs).queue;
            !Repeats(k, q[i], q[j])
  {
    EveryRun(k, evs);
    var q := Run(k, START, evs).queue;
    if i < j && Repeats(k, q[i], q[j]) { RepeatsSymmetric(k, q[i], q[j]); }
  }

  // ----- what counts as a duplicate ----------------------------------------------------------

  /** Each delivery is marked as a repetition exactly if it repeats the delivery before it. */
  ghost predicate Marked(k: Kind, log: seq<Act>) {
    forall j :: 0 <= j < |log| && log[j].Delivered? ==>
      HoldsFrame(k, log[j].frame) && (log[j].again <==> Again(k, log[j].frame, LastFrame(log[..j])))
  }

  lemma OneMoreMark(k: Kind, log: seq<Act>, a: Act)
    requires Marked(k, log)
    requires a.Delivered? ==> HoldsFrame(k, a.frame) && (a.again <==> Again(k, a.frame, LastFrame(log)))
    ensures Marked(k, log + [a])
  {
    hide HoldsFrame, Again, LastFrame;
    var l := log + [a];
    forall j | 0 <= j <= |log| ensures l[..j] == log[..j] {
    }
    assert log[..|log|] == log;
  }

  lemma StepMarked(k: Kind, s: State, ev: Event)
    requires Inv(k, s) && EventOk(k, ev) && Marked(k, s.log)
    ensures Marked(k, Step(k, s, ev).log)
  {
    hide HoldsFrame, SumOk, Again, LastFrame, LastAgain, LastSend;
    hide Sendable, Repeats, Closed, NoRepeats, Fifo, AgainSpaced;
    hide SendsSpaced, GoodFrames, Marked, SentOnes;
    var t := Step(k, s, ev);
    if t.log != s.log { OneMoreMark(k, s.log, t.log[|s.log|]); }
  }

  lemma {:induction false} RunMarked(k: Kind, s: State, evs: seq<Event>)
    requires Inv(k, s) && EventsOk(k, evs) && Marked(k, s.log)
    ensures Marked(k, Run(k, s, evs).log)
    decreases evs
  {
    hide Inv, Step, Marked;
    InvQueue(k, s);
    if evs != [] {
      assert evs[0] in evs;
      StepMarked(k, s, evs[0]);
      StepKeeps(k, s, evs[0]);
      RunMarked(k, Step(k, s, evs[0]), evs[1..]);
    }
  }

  /** Two deliveries with none between them. */
  predicate InSuccession(log: seq<Act>, i: nat, j: nat) {
    i < j < |log| && log[i].Delivered? && log[j].Delivered? && forall m :: i < m < j ==> !log[m].Delivered?
  }

  lemma {:induction false} LastFrameIs(log: seq<Act>, i: nat)
    requires i < |log| && log[i].Delivered? && forall m :: i < m < |log| ==> !log[m].Delivered?
    ensures LastFrame(log) == log[i].frame
    decreases |log|
  {
    if i < |log| - 1 { LastFrameIs(log[..|log| - 1], i); }
  }

  /** In every run: of two deliveries in succession the second counts as a duplicate if and only if the two buffers are
      equal as a whole and carry no key. */
  lemma DuplicateIff(k: Kind, evs: seq<Event>, i: nat, j: nat)
    requires EventsOk(k, evs) && InSuccession(Run(k, START, evs).log, i, j)
    ensures var log := Run(k, START, evs).log;
            && HoldsFrame(k, log[i].frame) && HoldsFrame(k, log[j].frame)
            && (log[j].again <==> Again(k, log[j].frame, log[i].frame))
  {
    hide Run, HoldsFrame, Again;
    var log := Run(k, START, evs).log;
    StartInv(k);
    RunMarked(k, START, evs);
    LastFrameIs(log[..j], i);
  }

  /** The frames of the electric-control board are the first sixteen bytes of their buffers. */
  predicate SameFrame(f: seq<byte>, g: seq<byte>) {
    |f| >= 16 && |g| >= 16 && f[..16] == g[..16]
  }

  /** Of two deliveries in succession of one frame without keys, the second counts as a duplicate if and only if the
      bytes that were swallowed behind the frames are the same as well. */
  lemma SameFrameDuplicateIff(evs: seq<Event>, i: nat, j: nat)
    requires EventsOk(Mcu, evs) && InSuccession(Run(Mcu, START, evs).log, i, j)
    requires var log := Run(Mcu, START, evs).log;
             SameFrame(log[i].frame, log[j].frame) && KeysClear(log[j].frame)
    ensures var log := Run(Mcu, START, evs).log;
            log[j].again <==> log[i].frame[16..] == log[j].frame[16..]
  {
    hide Run, HoldsFrame;
    DuplicateIff(Mcu, evs, i, j);
    var f, g := Run(Mcu, START, evs).log[i].frame, Run(Mcu, START, evs).log[j].frame;
    assert f == f[..16] + f[16..] && g == g[..16] + g[16..];
  }

  lemma OneMoreReceived(k: Kind, s: State, ev: Event, i: nat)
    requires QueueOk(k, s.queue) && EventOk(k, ev)
    requires |s.log| <= i < |Step(k, s, ev).log| && Step(k, s, ev).log[i].Delivered?
    ensures ev.Frame? && Step(k, s, ev).log[i].frame == ev.bytes
  {
  }

  lemma LogGrows(k: Kind, s: State, ev: Event)
    requires QueueOk(k, s.queue) && EventOk(k, ev)
    ensures s.log <= Step(k, s, ev).log
  {
  }

  /** Every frame delivered was received, as it is. */
  lemma {:induction false} DeliveredWereReceived(k: Kind, s: State, evs: seq<Event>, i: nat)
    requires QueueOk(k, s.queue) && EventsOk(k, evs)
    requires |s.log| <= i < |Run(k, s, evs).log| && Run(k, s, evs).log[i].Delivered?
    ensures exists now :: Frame(Run(k, s, evs).log[i].frame, now) in evs
    decreases evs
  {
    hide Step, EventOk;
    if evs != [] {
      assert evs[0] in evs;
      var t := Step(k, s, evs[0]);
      if i < |t.log| {
        RunGrows(k, t, evs[1..]);
        OneMoreReceived(k, s, evs[0], i);
        assert evs[0] == Frame(evs[0].bytes, evs[0].now);
      } else {
        DeliveredWereReceived(k, t, evs[1..], i);
      }
    }
  }

  lemma {:induction false} RunGrows(k: Kind, s: State, evs: seq<Event>)
    requires QueueOk(k, s.queue) && EventsOk(k, evs)
    ensures s.log <= Run(k, s, evs).log
    decreases evs
  {
    hide Step, EventOk;
    if evs != [] {
      assert evs[0] in evs;
      LogGrows(k, s, evs[0]);
      RunGrows(k, Step(k, s, evs[0]), evs[1..]);
    }
  }

  // ----- what the other side sees ------------------------------------------------------------

  lemma {:induction false} WireIsSent(log: seq<Act>)
    ensures |Wire(log)| == |SentOnes(log)|
    ensures forall i :: 0 <= i < |Wire(log)| ==> Wire(log)[i] == BytesOf(SentOnes(log)[i])
    decreases log
  {
    hide BytesOf;
    if log != [] { WireIsSent(log[..|log| - 1]); }
  }

  /** Bytes with the check code that the other side looks for. */
  predicate Guarded(k: Kind, w: seq<byte>) {
    match k
    case Mcu => Crc.Register(Crc.MODBUS, 0xffff, w) == 0
    case Tuya => w != [] && Val(w[|w| - 1]) == Sum(w[..|w| - 1]) % 256
  }

  lemma ClosedIsGuarded(k: Kind, p: Packet)
    requires Sendable(k, p)
    ensures Guarded(k, BytesOf(Closed(k, p)))
  {
    hide Crc.Register, Val, Sum;
    var q := Closed(k, p);
    match k
    case Mcu => ClosedHasZeroResidue(p);
    case Tuya =>
      ClosedBytes(k, p);
      assert q.buf[..q.len][..q.len - 1] == q.buf[..q.len - 1];
  }

  /** Both ends of the Tuya link mean the same by a sound frame: what the receiver lets pass is what a sender closes. */
  lemma SoundIsGuarded(k: Kind, w: seq<byte>)
    requires HoldsFrame(k, w)
    ensures Declared(k, w) <= |w| && (SumOk(k, w) <==> Guarded(Tuya, w[..Declared(k, w)]))
  {
    hide Val, Sum;
    DeclaredPositive(k, w);
    var n := Declared(k, w);
    assert w[..n][..n - 1] == w[..n - 1];
  }

  /** Whatever was sent in whatever order, every packet on the wire carries a right check code. */
  lemma WireIsGuarded(k: Kind, evs: seq<Event>, i: nat)
    requires EventsOk(k, evs) && i < |Wire(Run(k, START, evs).log)|
    ensures Guarded(k, Wire(Run(k, START, evs).log)[i])
  {
    hide Run, Wire, SentOnes, AcceptedOnes, Closed, Sendable, Guarded, BytesOf;
    var log := Run(k, START, evs).log;
    SentIsPrefixOfAccepted(k, evs);
    WireIsSent(log);
    ClosedIsGuarded(k, AcceptedOnes(log)[i]);
  }

  /** Every packet accepted was offered. */
  lemma {:induction false} AcceptedWereOffered(k: Kind, s: State, evs: seq<Event>, i: nat)
    requires QueueOk(k, s.queue) && EventsOk(k, evs)
    requires |AcceptedOnes(s.log)| <= i < |AcceptedOnes(Run(k, s, evs).log)|
    ensures exists c :: Send(AcceptedOnes(Run(k, s, evs).log)[i], c) in evs
    decreases evs
  {
    hide Sendable, Repeats, Closed, HoldsFrame, SumOk, AcceptedOnes;
    if evs != [] {
      assert evs[0] in evs;
      var t := Step(k, s, evs[0]);
      if |AcceptedOnes(t.log)| <= i {
        AcceptedWereOffered(k, t, evs[1..], i);
      } else {
        OneMoreAccepted(k, s, evs[0]);
        AcceptedStays(k, t, evs[1..], i);
      }
    }
  }

  lemma OneMoreAccepted(k: Kind, s: State, ev: Event)
    requires QueueOk(k, s.queue) && EventOk(k, ev)
    ensures AcceptedOnes(Step(k, s, ev).log) ==
              AcceptedOnes(s.log) + if ev.Send? && ev.connected
                && !Waits(k, s.queue, ev.packet) then [ev.packet] else []
  {
    hide Sendable, Repeats, Closed, HoldsFrame, SumOk, AcceptedOnes, SentOnes, LastFrame, LastAgain, LastSend;
    var t := Step(k, s, ev);
    if t.log != s.log { OneMore(s.log, t.log[|s.log|]); }
  }

  lemma {:induction false} AcceptedStays(k: Kind, s: State, evs: seq<Event>, i: nat)
    requires QueueOk(k, s.queue) && EventsOk(k, evs) && i < |AcceptedOnes(s.log)|
    ensures i < |AcceptedOnes(Run(k, s, evs).log)| && AcceptedOnes(Run(k, s, evs).log)[i] == AcceptedOnes(s.log)[i]
    decreases evs
  {
    hide Step, AcceptedOnes, EventOk, Waits;
    if evs != [] {
      assert evs[0] in evs;
      OneMoreAccepted(k, s, evs[0]);
      AcceptedStays(k, Step(k, s, evs[0]), evs[1..], i);
    }
  }

  /** Packets that their makers have closed already go out just as they were accepted: the second pass over the check
      code shows nowhere. */
  lemma ClosedGoOutAsTheyAre(k: Kind, evs: seq<Event>)
    requires EventsOk(k, evs)
    requires forall p, c :: Send(p, c) in evs ==> Sendable(k, p) && Closed(k, p) == p
    ensures SentOnes(Run(k, START, evs).log) <= AcceptedOnes(Run(k, START, evs).log)
  {
    hide Run, SentOnes, AcceptedOnes, Closed, Sendable;
    var log := Run(k, START, evs).log;
    SentIsPrefixOfAccepted(k, evs);
    forall i | 0 <= i < |SentOnes(log)| ensures SentOnes(log)[i] == AcceptedOnes(log)[i] {
      assert |AcceptedOnes(START.log)| == 0 by { NothingAccepted(); }
      AcceptedWereOffered(k, START, evs, i);
    }
  }

  lemma NothingAccepted()
    ensures AcceptedOnes([]) == []
  {
  }

  // ----- waiting ends ------------------------------------------------------------------------

  function Ticks(evs: seq<Event>): seq<int> {
    if evs == [] then []
    else (if evs[0].Tick? then [evs[0].now] else []) + Ticks(evs[1..])
  }

  /** Ticks at least 100 ms apart, the first of them so far behind `from`. */
  predicate Spaced(from: int, ticks: seq<int>)
    decreases ticks
  {
    ticks == [] || (ticks[0] - from >= 100 && Spaced(ticks[0], ticks[1..]))
  }

  /** Every tick that is due sends: with ticks spaced out, the `n` packets waiting now have all gone after `n` ticks,
      whatever frames arrive and whatever else is sent meanwhile. */
  lemma {:induction false} QueueDrains(k: Kind, s: State, evs: seq<Event>, from: int)
    requires QueueOk(k, s.queue) && EventsOk(k, evs)
    requires 0 <= from && s.lastSend <= from && Spaced(from, Ticks(evs))
    ensures var t := Run(k, s, evs);
            t.sent - s.sent >= if |s.queue| <= |Ticks(evs)| then |s.queue| else |Ticks(evs)|
    decreases evs
  {
    hide HoldsFrame, SumOk, Closed, Sendable, Repeats;
    if evs != [] {
      assert evs[0] in evs;
      var t := Step(k, s, evs[0]);
      assert !evs[0].Tick? ==> Ticks(evs) == Ticks(evs[1..]);
      match evs[0]
      case Frame(f, now) =>
        QueueDrains(k, t, evs[1..], from);
      case Tick(now) =>
        assert Ticks(evs)[0] == now && Ticks(evs)[1..] == Ticks(evs[1..]);
        QueueDrains(k, t, evs[1..], now);
      case Send(p, connected) =>
        QueueDrains(k, t, evs[1..], from);
    }
  }
}
