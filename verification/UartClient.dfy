/** `UartClient`: the object that receives, throttles, queues and sends, over buffers it shares with its callers.

    Its methods are proved to be steps of the machine in `Engine` on the frames that `Framing` cuts from the input, so
    every law of those modules holds of every history of the object; and to hand buffers on without losing one. */
module UartClient {
  import opened Bytes
  import opened Collections
  import opened Framing
  import opened Packets
  import opened PacketBuffer
  import opened PacketPool
  import FramingProofs
  import Engine

  /** `SystemClock`: never goes back. */
  class SystemClock {
    var now: int

    constructor ()
      ensures now == 0
    {
      now := 0;
    }

    method UptimeMillis() returns (t: int)
      modifies this
      ensures old(now) <= now == t
    {
      var passed: int := *;
      if passed > 0 { now := now + passed; }
      t := now;
    }
  }

  function FramesOf(evs: seq<Engine.Event>): seq<seq<byte>> {
    if evs == [] then []
    else (if evs[0].Frame? then [evs[0].bytes] else []) + FramesOf(evs[1..])
  }

  lemma {:induction false} FramesOfAppend(a: seq<Engine.Event>, b: seq<Engine.Event>)
    ensures FramesOf(a + b) == FramesOf(a) + FramesOf(b)
    decreases a
  {
    if a == [] {
      assert a + b == b;
    } else {
      assert (a + b)[0] == a[0] && (a + b)[1..] == a[1..] + b;
      FramesOfAppend(a[1..], b);
    }
  }

  /** The events happen one after the other from `t0` to `t1`. */
  predicate Timed(evs: seq<Engine.Event>, t0: int, t1: int)
    decreases evs
  {
    if evs == [] then t0 <= t1
    else match evs[0]
      case Frame(_, now) => t0 <= now && Timed(evs[1..], now, t1)
      case Tick(now) => t0 <= now && Timed(evs[1..], now, t1)
      case Send(_, _) => Timed(evs[1..], t0, t1)
  }

  lemma {:induction false} TimedAppend(a: seq<Engine.Event>, b: seq<Engine.Event>, t0: int, t1: int, t2: int)
    requires Timed(a, t0, t1) && Timed(b, t1, t2)
    ensures Timed(a + b, t0, t2)
    decreases a
  {
    if a == [] {
      assert a + b == b;
      TimedEarlier(b, t0, t1, t2);
    } else {
      assert (a + b)[0] == a[0] && (a + b)[1..] == a[1..] + b;
      match a[0]
      case Frame(_, now) => TimedAppend(a[1..], b, now, t1, t2);
      case Tick(now) => TimedAppend(a[1..], b, now, t1, t2);
      case Send(_, _) => TimedAppend(a[1..], b, t0, t1, t2);
    }
  }

  lemma {:induction false} TimedEarlier(b: seq<Engine.Event>, t0: int, t1: int, t2: int)
    requires t0 <= t1 && Timed(b, t1, t2)
    ensures Timed(b, t0, t2)
    decreases b
  {
    if b != [] && b[0].Send? { TimedEarlier(b[1..], t0, t1, t2); }
  }

  lemma NoEvents(t: int)
    ensures FramesOf([]) == [] && Timed([], t, t)
  {
  }

  lemma OneEvent(ev: Engine.Event, t0: int, t1: int)
    requires ev.Frame? && t0 <= ev.now <= t1
    ensures FramesOf([ev]) == [ev.bytes] && Timed([ev], t0, t1)
  {
    assert [ev][0] == ev && [ev][1..] == [];
  }

  lemma OneMoreEvent(evs: seq<Engine.Event>, ev: Engine.Event, t0: int, t1: int, t2: int)
    requires ev.Frame? && Timed(evs, t0, t1) && t1 <= ev.now <= t2 && forall e :: e in evs ==> e.Frame?
    ensures FramesOf(evs + [ev]) == FramesOf(evs) + [ev.bytes] && Timed(evs + [ev], t0, t2)
    ensures forall e :: e in evs + [ev] ==> e.Frame?
  {
    OneEvent(ev, t1, t2);
    FramesOfAppend(evs, [ev]);
    TimedAppend(evs, [ev], t0, t1, t2);
  }

  /** One round of the receiving loop, as the framing sees it: `t` is the stream after `n` bytes of `rest` are read. */
  lemma FeedStep(k: Kind, s: seq<byte>, rest: seq<byte>, n: nat, t: seq<byte>)
    requires FramingProofs.Waiting(k, s) && n <= |rest| && t == s + rest[..n] == Readable(k, s + rest)
    ensures Completes(k, t) ==>
              var later := Feed(k, [], rest[n..]);
              Feed(k, s, rest) == Fed([Window(k, t)] + later.frames, later.pending, later.unread)
    ensures !Completes(k, t) ==>
              Feed(k, s, rest).frames == [] && Feed(k, s, rest).pending == t && FramingProofs.Waiting(k, t)
  {
    hide HoldsFrame, HeadAt, Readable, Window;
    ReadableIsReadable(k, s + rest);
    SameWindow(k, s + rest);
    RestOf(s, rest, n);
  }

  lemma RestOf(s: seq<byte>, rest: seq<byte>, n: nat)
    requires n <= |rest|
    ensures (s + rest)[|s + rest[..n]|..] == rest[n..]
  {
  }

  lemma SameWindow(k: Kind, s: seq<byte>)
    ensures Completes(k, s) ==> FirstHead(k, Readable(k, s)) >= 0 && Window(k, Readable(k, s)) == Window(k, s)
  {
    hide HoldsFrame, HeadAt;
    ReadableIsReadable(k, s);
    if Completes(k, s) { ReadableHead(k, s); }
  }

  lemma FeedNothing(k: Kind, s: seq<byte>)
    requires FramingProofs.Waiting(k, s)
    ensures Feed(k, s, []).frames == [] && Feed(k, s, []).pending == s
  {
    assert s + [] == s;
  }

  /** Feeding `buf` after `s0` means: hand over `done`, then feed `rest` after `s`. */
  ghost predicate Goes(k: Kind, s0: seq<byte>, buf: seq<byte>, done: seq<seq<byte>>, s: seq<byte>, rest: seq<byte>) {
    && Feed(k, s0, buf).frames == done + Feed(k, s, rest).frames
    && Feed(k, s0, buf).pending == Feed(k, s, rest).pending
  }

  lemma GoesOn(k: Kind, s0: seq<byte>, buf: seq<byte>, done: seq<seq<byte>>, s: seq<byte>, rest: seq<byte>,
               f: seq<byte>, later: seq<byte>)
    requires Goes(k, s0, buf, done, s, rest)
    requires Feed(k, s, rest).frames == [f] + Feed(k, [], later).frames
             && Feed(k, s, rest).pending == Feed(k, [], later).pending
    ensures Goes(k, s0, buf, done + [f], [], later)
  {
    hide Feed;
    assert done + ([f] + Feed(k, [], later).frames) == done + [f] + Feed(k, [], later).frames;
  }

  lemma WindowShown(k: Kind, s: seq<byte>, c: seq<byte>)
    requires Collects(k, s, c)
    ensures Completes(k, s) ==> c == Window(k, s)
  {
    CollectsTells(k, s, c);
  }

  /** On a completed frame `compare` looks only at received bytes. */
  lemma RepeatsIsAgain(k: Kind, p: Packet, q: Packet)
    requires WellFormed(k, p) && WellFormed(k, q) && HoldsFrame(k, p.buf[..p.len])
    ensures Repeats(k, p, q) == Engine.Again(k, p.buf[..p.len], q.buf[..q.len])
  {
    DeclaredPositive(k, p.buf[..p.len]);
    if p.buf[..p.len] == q.buf[..q.len] {
      assert |p.buf[..p.len]| == |q.buf[..q.len]|;
    }
  }

  /** What a completed frame does to the fields that the object keeps. */
  lemma FrameOutcome(k: Kind, s: Engine.State, f: seq<byte>, now: int)
    requires Engine.EventOk(k, Engine.Frame(f, now)) && Engine.QueueOk(k, s.queue)
    ensures var t := Engine.Step(k, s, Engine.Frame(f, now));
            var ok, again := SumOk(k, f), Engine.Again(k, f, s.last);
            var wanted := ok && (!again || now - s.lastDeal >= Engine.DUPLICATE_SPACE);
            && t.received == s.received + 1 && t.bad == (if ok then 0 else s.bad + 1) && t.sent == s.sent
               && t.queue == s.queue
            && t.last == (if wanted then f else s.last) && t.lastSend == (if wanted then 0 else s.lastSend)
            && t.lastDeal == (if wanted && again then now else s.lastDeal)
            && Engine.Wire(t.log) == Engine.Wire(s.log)
            && Engine.Handed(t.log) == Engine.Handed(s.log) + if wanted then [f] else []
  {
    hide Engine.Wire, Engine.Handed, HoldsFrame, SumOk, Engine.Again;
    Engine.OneMoreOut(s.log, Engine.Delivered(f, now, Engine.Again(k, f, s.last)));
  }

  /** What a tick shows to the outside. */
  lemma TickShown(k: Kind, s: Engine.State, now: int)
    requires Engine.QueueOk(k, s.queue)
    ensures var t := Engine.OnTick(k, s, now);
            && Engine.Handed(t.log) == Engine.Handed(s.log)
            && Engine.Wire(t.log) == Engine.Wire(s.log)
                 + if now - s.lastSend >= Engine.SEND_SPACE
                   && s.queue != [] then [Engine.BytesOf(Closed(k, s.queue[0]))] else []
    ensures var t, due := Engine.OnTick(k, s, now), now - s.lastSend >= Engine.SEND_SPACE && s.queue != [];
            && t.last == s.last
            && t.queue == (if due then s.queue[1..] else s.queue) && t.lastSend == (if due then now else s.lastSend)
            && t.lastDeal == s.lastDeal && t.received == s.received
            && t.bad == s.bad && t.sent == (if due then s.sent + 1 else s.sent)
  {
    hide Engine.Wire, Engine.Handed, Closed, Sendable, Engine.BytesOf;
    if s.queue != [] { Engine.OneMoreOut(s.log, Engine.Sent(Closed(k, s.queue[0]), now)); }
  }

  /** A call of `send` shows nothing yet. */
  lemma SendShown(k: Kind, s: Engine.State, p: Packet, connected: bool)
    requires Engine.QueueOk(k, s.queue) && Sendable(k, p)
    ensures var t := Engine.OnSend(k, s, p, connected);
            Engine.Handed(t.log) == Engine.Handed(s.log) && Engine.Wire(t.log) == Engine.Wire(s.log)
  {
    hide Engine.Wire, Engine.Handed, Sendable, Engine.Waits;
    Engine.OneMoreOut(s.log, Engine.Accepted(p));
  }

  lemma NoHistory(k: Kind)
    ensures FramesOf([]) == [] && FeedAll(k, [], []) == Fed([], [], [])
    ensures Engine.Wire([]) == [] && Engine.Handed([]) == [] && Collects(k, [], [])
    ensures Engine.EventsOk(k, []) && Engine.Run(k, Engine.START, []) == Engine.START
  {
  }

  lemma {:induction false} ReceivedAreFrames(evs: seq<Engine.Event>, f: seq<byte>, now: int)
    requires Engine.Frame(f, now) in evs
    ensures f in FramesOf(evs)
    decreases evs
  {
    if evs[0] != Engine.Frame(f, now) {
      assert Engine.Frame(f, now) in evs[1..];
      ReceivedAreFrames(evs[1..], f, now);
    }
  }

  /** A frame that comes twice, the second time with one byte of whatever follows in the same chunk, is delivered twice
      within a millisecond, and neither time as a duplicate. */
  lemma OverrunDefeatsThrottle(f: seq<byte>, b: byte, t: int)
    requires |f| == 16 && HoldsFrame(Mcu, f) && SumOk(Mcu, f) && KeysClear(f)
    ensures FeedAll(Mcu, [], [f, f + [b]]).frames == [f, f + [b]]
    ensures var evs := [Engine.Frame(f, t), Engine.Frame(f + [b], t + 1)];
            && Engine.EventsOk(Mcu, evs)
            && Engine.Run(Mcu, Engine.START, evs).log
               == [Engine.Delivered(f, t, false), Engine.Delivered(f + [b], t + 1, false)]
  {
    hide SumOk, Engine.Run, FeedAll;
    var g := f + [b];
    OneMoreByte(f, b);
    TwoBuffers(f, g);
    TwoDeliveries(f, g, t);
  }

  lemma TwoDeliveries(f: seq<byte>, g: seq<byte>, t: int)
    requires |f| == 16 && f != g && |g| <= 32 && HoldsFrame(Mcu, f) && SumOk(Mcu, f) && HoldsFrame(Mcu, g)
             && SumOk(Mcu, g)
    ensures var evs := [Engine.Frame(f, t), Engine.Frame(g, t + 1)];
            && Engine.EventsOk(Mcu, evs)
            && Engine.Run(Mcu, Engine.START, evs).log
               == [Engine.Delivered(f, t, false), Engine.Delivered(g, t + 1, false)]
  {
    hide HoldsFrame, SumOk, Engine.Run, Engine.Step;
    var one, two := Engine.Frame(f, t), Engine.Frame(g, t + 1);
    FirstDelivery(f, t);
    Engine.StepOfRun(Mcu, [one], two);
    assert [one] + [two] == [one, two];
    SecondDelivery(Engine.Run(Mcu, Engine.START, [one]), f, g, t);
  }

  lemma OneMoreByte(f: seq<byte>, b: byte)
    requires |f| == 16 && HoldsFrame(Mcu, f) && SumOk(Mcu, f)
    ensures HoldsFrame(Mcu, f + [b]) && SumOk(Mcu, f + [b])
  {
    assert Val(0x10) == 16;
    assert (f + [b])[..15] == f[..15];
  }

  lemma TwoBuffers(f: seq<byte>, g: seq<byte>)
    requires 16 <= |f| <= 32 && 16 <= |g| <= 32 && HeadAt(Mcu, f, 0) && HeadAt(Mcu, g, 0)
    ensures FeedAll(Mcu, [], [f, g]).frames == [f, g]
  {
    OneBuffer(f);
    OneBuffer(g);
    hide Feed, HeadAt;
    NoHistory(Mcu);
    FramingProofs.RunSnoc(Mcu, [], [], f);
    FramingProofs.RunSnoc(Mcu, [], [f], g);
    assert [] + [f] == [f] && [f] + [g] == [f, g];
  }

  lemma FirstDelivery(f: seq<byte>, t: int)
    requires |f| == 16 && HoldsFrame(Mcu, f) && SumOk(Mcu, f)
    ensures var s := Engine.Run(Mcu, Engine.START, [Engine.Frame(f, t)]);
            Engine.EventsOk(Mcu, [Engine.Frame(f, t)]) && s.log == [Engine.Delivered(f, t, false)] && s.last == f
  {
    hide HoldsFrame, SumOk;
    Engine.StepOfRun(Mcu, [], Engine.Frame(f, t));
    assert [] + [Engine.Frame(f, t)] == [Engine.Frame(f, t)];
  }

  lemma SecondDelivery(s: Engine.State, f: seq<byte>, g: seq<byte>, t: int)
    requires s.last == f != g && HoldsFrame(Mcu, g) && |g| <= 32 && SumOk(Mcu, g) && Engine.QueueOk(Mcu, s.queue)
    ensures Engine.Step(Mcu, s, Engine.Frame(g, t + 1)).log == s.log + [Engine.Delivered(g, t + 1, false)]
  {
    hide HoldsFrame, SumOk;
  }

  /** One chunk of sixteen to thirty-two bytes that starts with a header is one buffer. */
  lemma OneBuffer(f: seq<byte>)
    requires 16 <= |f| <= 32 && HeadAt(Mcu, f, 0)
    ensures Feed(Mcu, [], f) == Fed([f], [], [])
  {
    FramingProofs.LeadingFrame(f[..16], f[16..]);
    FramingProofs.EmptyFeed(Mcu);
    assert f[..16] + f[16..] == f && [] + f == f;
  }

  class UartClient {
    const mPacketBuff: SdhwPacketBuffer
    const clock: SystemClock
    const mLastRecv: BuffData
    const mCurrRecv: BuffData
    var mSendQueue: seq<BuffData>
    var mLastSendTime: int
    var mLastDealDataTime: int
    var mRecvCount: int
    var mChkErrCount: int
    var mSendCount: int
    var connected: bool

    /** The frames handed to the handler, and the packets put on the wire, so far. */
    var handed: seq<seq<byte>>
    var wire: seq<seq<byte>>

    /** The chunks received since the object was made. */
    ghost var input: seq<seq<byte>>

    /** All that happened to this object, and the state of the machine it has reached by that. */
    ghost var history: seq<Engine.Event>
    ghost var state: Engine.State

    ghost function K(): Kind { mPacketBuff.mType }

    ghost function Bufs(): set<object>
      reads mPacketBuff
    {
      set b | b in mPacketBuff.issued :: b.buf
    }

    /** The buffers lent by the free list that are neither queued nor used for receiving: the callers' own. */
    ghost function Hands(): set<BuffData>
      reads this`mSendQueue, mPacketBuff
    {
      set b | b in mPacketBuff.Lent() && b !in mSendQueue && b != mLastRecv && b != mCurrRecv
    }

    ghost predicate Owns()
      reads this`mSendQueue, mPacketBuff, mPacketBuff.issued, Bufs()
    {
      && mPacketBuff.Valid()
      && mLastRecv != mCurrRecv
      && mLastRecv in mPacketBuff.Lent() && mLastRecv.kind == K()
      && mCurrRecv in mPacketBuff.Lent() && mCurrRecv.kind == K()
      && (forall b :: b in mSendQueue ==>
            b in mPacketBuff.Lent() && b.kind == K() && b != mLastRecv && b != mCurrRecv && Sendable(K(), b.Contents()))
      && Distinct(mSendQueue)
    }

    /** The queue holds the packets `q`. */
    ghost predicate Queues(q: seq<Packet>)
      requires Owns()
      reads this`mSendQueue, mPacketBuff, mPacketBuff.issued, Bufs()
      ensures Queues(q) ==> Engine.QueueOk(K(), q)
    {
      |q| == |mSendQueue| && forall i :: 0 <= i < |q| ==> q[i] == mSendQueue[i].Contents()
    }

    ghost function LastBytes(): seq<byte>
      requires mLastRecv.WellShaped()
      reads mLastRecv, mLastRecv.buf
    {
      mLastRecv.buf[..mLastRecv.len]
    }

    /** The receiving buffer is a faithful rest of the bytes read since the last frame, and holds no frame. */
    ghost predicate Receiving()
      reads mCurrRecv, mCurrRecv.buf
    {
      && mCurrRecv.WellShaped()
      && Collects(K(), mCurrRecv.stream, mCurrRecv.buf[..mCurrRecv.len])
      && FramingProofs.Waiting(K(), mCurrRecv.stream)
    }

    /** The machine state is what the fields say. */
    ghost predicate Tied()
      requires Owns()
      reads this, mPacketBuff, mPacketBuff.issued, Bufs()
    {
      && state.last == LastBytes()
      && Queues(state.queue)
      && state.lastSend == mLastSendTime && state.lastDeal == mLastDealDataTime
      && state.received == mRecvCount && state.bad == mChkErrCount && state.sent == mSendCount
      && handed == Engine.Handed(state.log) && wire == Engine.Wire(state.log)
    }

    /** The machine state is the one that the history leads to. */
    ghost predicate Reached()
      reads this`history, this`state
    {
      Engine.EventsOk(K(), history) && state == Engine.Run(K(), Engine.START, history)
    }

    ghost predicate Core()
      reads this, mPacketBuff, mPacketBuff.issued, Bufs()
    {
      Owns() && Tied() && Reached()
    }

    ghost predicate Steady()
      reads this, mPacketBuff, mPacketBuff.issued, Bufs()
    {
      Core() && Receiving()
    }

    /** All chunks so far, through the framing, gave the frames of the history and what is pending now. */
    ghost predicate Framed()
      reads this`input, this`history, mCurrRecv`stream
    {
      var run := FeedAll(K(), [], input);
      FramesOf(history) == run.frames && mCurrRecv.stream == run.pending
    }

    ghost predicate Valid()
      reads this, mPacketBuff, mPacketBuff.issued, Bufs()
    {
      Steady() && Framed()
    }

    constructor (pool: SdhwPacketBuffer, clock: SystemClock)
      requires pool.Valid()
      modifies pool, set b | b in pool.mBuffs :: b`len
      ensures Valid() && mPacketBuff == pool && this.clock == clock
      ensures history == [] && input == [] && mSendQueue == [] && handed == [] && wire == []
      ensures Hands() == old(pool.Lent())
    {
      hide Sendable, Tied, Reached, Receiving, Framed;
      mPacketBuff, this.clock := pool, clock;
      mLastSendTime, mLastDealDataTime := 0, 0;
      mRecvCount, mChkErrCount, mSendCount := 0, 0, 0;
      mSendQueue, connected := [], false;
      history, state, input := [], Engine.START, [];
      handed, wire := [], [];
      ghost var lent := pool.Lent();
      var one := pool.Obtain();
      assert pool.Lent() == lent + {one} && one !in lent;
      var two := pool.Obtain();
      assert pool.Lent() == lent + {one, two} && two !in lent + {one};
      mLastRecv := one;
      mCurrRecv := two;
      new;
      AtStart();
    }

    /** With nothing received, sent or queued yet, everything is as it should be. */
    lemma AtStart()
      requires Owns() && mSendQueue == [] && history == [] && state == Engine.START && input == [] && handed == []
               && wire == []
      requires mLastSendTime == 0 && mLastDealDataTime == 0 && mRecvCount == 0 && mChkErrCount == 0 && mSendCount == 0
      requires mLastRecv.len == 0 && mCurrRecv.WellShaped() && mCurrRecv.len == 0 && mCurrRecv.stream == []
      ensures Valid()
    {
      hide Sendable, Engine.Run, Engine.EventsOk, Engine.Wire;
      hide Engine.Handed, FramesOf, FeedAll, Collects, FramingProofs.Waiting;
      assert mLastRecv.buf[..0] == [] && mCurrRecv.buf[..0] == [];
      FramingProofs.NothingWaits(K());
      NoHistory(K());
    }

    /** One more event happens to the machine. */
    ghost method Advance(ev: Engine.Event)
      requires Reached() && Engine.EventOk(K(), ev) && Engine.QueueOk(K(), state.queue)
      modifies this`history, this`state
      ensures Reached() && history == old(history) + [ev] && state == Engine.Step(K(), old(state), ev)
      ensures old(Owns()) ==> Owns() && forall q :: old(Queues(q)) ==> Queues(q)
    {
      hide Engine.Step, Engine.Run, Engine.EventOk, Sendable;
      Engine.StepOfRun(K(), history, ev);
      state := Engine.Step(K(), state, ev);
      history := history + [ev];
    }

    /** An event that is not a frame leaves the framing as it was. */
    twostate lemma StillFramed(ev: Engine.Event)
      requires old(Framed()) && !ev.Frame? && history == old(history) + [ev]
      requires input == old(input) && mCurrRecv.stream == old(mCurrRecv.stream)
      ensures Framed()
    {
      FramesOfAppend(old(history), [ev]);
      assert [ev][1..] == [];
    }

    /** The loop of `send`: is a packet like this one waiting already? */
    method Repeated(ask: BuffData, ghost q: seq<Packet>) returns (same: bool)
      requires Owns() && Queues(q) && ask.kind == K() && ask.WellShaped()
      requires Engine.QueueOk(K(), q)
      ensures same == Engine.Waits(K(), q, ask.Contents()) && Owns() && Queues(q)
    {
      hide Repeats;
      ghost var p := ask.Contents();
      var it := 0;
      while it < |mSendQueue|
        invariant 0 <= it <= |mSendQueue|
        invariant forall i :: 0 <= i < it ==> !Repeats(K(), p, q[i])
      {
        assert mSendQueue[it] in mSendQueue;
        same := mPacketBuff.Compare(ask, mSendQueue[it]);
        if same { return; }
        it := it + 1;
      }
      return false;
    }

    /** A caller's buffer goes back to the free list. */
    method Discard(ask: BuffData, ghost q: seq<Packet>)
      requires Owns() && ask in Hands() && Queues(q)
      modifies mPacketBuff`mBuffs, ask, ask.buf
      ensures Owns() && Queues(q) && LastBytes() == old(LastBytes()) && (old(Receiving()) ==> Receiving())
      ensures Hands() == old(Hands()) - {ask} && mPacketBuff.mBuffs == old(mPacketBuff.mBuffs) + [ask]
    {
      hide Sendable, Collects, FramingProofs.Waiting;
      mPacketBuff.Recycle(ask);
    }

    /** A caller's buffer goes to the end of the queue. */
    method Enqueue(ask: BuffData, ghost q: seq<Packet>)
      requires Owns() && ask in Hands() && Queues(q) && ask.kind == K() && Sendable(K(), ask.Contents())
      modifies this`mSendQueue
      ensures Owns() && Queues(q + [ask.Contents()]) && LastBytes() == old(LastBytes())
              && (old(Receiving()) ==> Receiving())
      ensures Hands() == old(Hands()) - {ask} && mSendQueue == old(mSendQueue) + [ask]
    {
      hide Sendable, Collects, FramingProofs.Waiting;
      mSendQueue := mSendQueue + [ask];
    }

    /** What callers do to the free list and to buffers of their own is no concern of the object's. */
    twostate lemma StillValid()
      requires old(Valid()) && unchanged(this) && mPacketBuff.Valid()
      requires old(mPacketBuff.Lent()) <= mPacketBuff.Lent()
      requires forall b :: b in old(mPacketBuff.Lent()) && b !in old(Hands()) ==> unchanged(b) && unchanged(b.buf)
      ensures Valid() && Hands() == old(Hands()) + (mPacketBuff.Lent() - old(mPacketBuff.Lent()))
    {
      hide Engine.Run, Engine.Wire, Engine.Handed, Sendable, Collects, FramingProofs.Waiting, FeedAll, FramesOf;
    }

    lemma QueueIsIssued()
      requires Valid()
      ensures forall b :: b in mSendQueue ==> b in mPacketBuff.issued && b.buf in Bufs()
    {
    }

    /** Nor is what happens to anything but the free list and its buffers. */
    twostate lemma Untouched()
      requires old(Valid()) && unchanged(this) && unchanged(mPacketBuff)
      requires forall b :: b in mPacketBuff.issued ==> unchanged(b) && unchanged(b.buf)
      ensures Valid() && Hands() == old(Hands())
    {
      hide Engine.Run, Engine.Wire, Engine.Handed, Sendable, Collects, FramingProofs.Waiting, FeedAll, FramesOf;
    }

    /** `send`: the buffer changes hands on every path. */
    method Send(ask: BuffData) returns (r: int)
      requires Valid() && ask in Hands() && ask.kind == K() && Sendable(K(), ask.Contents())
      modifies this`mSendQueue, this`history, this`state, mPacketBuff`mBuffs, ask, ask.buf
      ensures Valid() && history == old(history) + [Engine.Event.Send(old(ask.Contents()), connected)]
      ensures state == Engine.OnSend(K(), old(state), old(ask.Contents()), connected)
      ensures r == if !connected then -1 else if Engine.Waits(K(), old(state).queue, old(ask.Contents())) then 1 else 0
      ensures Hands() == old(Hands()) - {ask}
      ensures r == 0 ==> mSendQueue == old(mSendQueue) + [ask] && mPacketBuff.mBuffs == old(mPacketBuff.mBuffs)
      ensures r != 0 ==> mSendQueue == old(mSendQueue) && mPacketBuff.mBuffs == old(mPacketBuff.mBuffs) + [ask]
    {
      hide Engine.Run, Repeats, Sendable, Engine.Waits, Reached;
      hide Queues, LastBytes, Receiving, Framed, Engine.Wire, Engine.Handed;
      ghost var q, p := state.queue, ask.Contents();
      SendShown(K(), state, p, connected);
      Advance(Engine.Event.Send(p, connected));
      StillFramed(Engine.Event.Send(p, connected));
      r := PassOn(ask, q);
    }

    /** What `send` does with the buffer. */
    method PassOn(ask: BuffData, ghost q: seq<Packet>) returns (r: int)
      requires Owns() && Queues(q) && Engine.QueueOk(K(), q)
      requires ask in Hands() && ask.kind == K() && Sendable(K(), ask.Contents())
      modifies this`mSendQueue, mPacketBuff`mBuffs, ask, ask.buf
      ensures Owns() && Queues(if r == 0 then q + [old(ask.Contents())] else q)
      ensures LastBytes() == old(LastBytes()) && (old(Receiving()) ==> Receiving())
      ensures r == if !connected then -1 else if Engine.Waits(K(), q, old(ask.Contents())) then 1 else 0
      ensures Hands() == old(Hands()) - {ask}
      ensures r == 0 ==> mSendQueue == old(mSendQueue) + [ask] && mPacketBuff.mBuffs == old(mPacketBuff.mBuffs)
      ensures r != 0 ==> mSendQueue == old(mSendQueue) && mPacketBuff.mBuffs == old(mPacketBuff.mBuffs) + [ask]
    {
      hide Repeats, Sendable, Engine.Waits, Queues, LastBytes, Receiving;
      if !connected {
        Discard(ask, q);
        return -1;
      }
      var same := Repeated(ask, q);
      if same {
        Discard(ask, q);
        return 1;
      }
      Enqueue(ask, q);
      return 0;
    }

    /** The front buffer is closed, put on the wire and given back. */
    method Transmit(ghost q: seq<Packet>)
      requires Owns() && mSendQueue != [] && Queues(q)
      modifies this`mSendQueue, this`wire, mPacketBuff`mBuffs, mPacketBuff.mSnd, mSendQueue[0], mSendQueue[0].buf
      ensures wire == old(wire) + [Engine.BytesOf(Closed(K(), q[0]))]
      ensures Owns() && Queues(q[1..]) && LastBytes() == old(LastBytes()) && (old(Receiving()) ==> Receiving())
      ensures Hands() == old(Hands()) && mPacketBuff.mBuffs == old(mPacketBuff.mBuffs) + [old(mSendQueue)[0]]
      ensures mSendQueue == old(mSendQueue)[1..]
    {
      hide Closed, Sendable, Collects, FramingProofs.Waiting;
      var ask := mSendQueue[0];
      assert ask in mSendQueue;
      mSendQueue := mSendQueue[1..];
      mPacketBuff.CheckCode(ask);
      SendTrans(ask);
      mPacketBuff.Recycle(ask);
      StillOwns(old(mSendQueue));
    }

    /** The valid bytes of the buffer go out. */
    method SendTrans(ask: BuffData)
      requires ask.WellShaped()
      modifies this`wire
      ensures wire == old(wire) + [Engine.BytesOf(ask.Contents())] == old(wire) + [ask.buf[..ask.len]]
    {
      wire := wire + [ask.buf[..ask.len]];
    }

    twostate lemma StillOwns(q: seq<BuffData>)
      requires q != [] && mSendQueue == q[1..]
      requires old(Owns()) && old(mSendQueue) == q && mPacketBuff.Valid()
      requires mPacketBuff.issued == old(mPacketBuff.issued)
      requires mPacketBuff.mBuffs == old(mPacketBuff.mBuffs) + [q[0]]
      requires forall b :: b in mPacketBuff.issued && b != q[0] ==> b.len == old(b.len) && b.buf[..] == old(b.buf[..])
      ensures Owns() && Hands() == old(Hands())
      ensures forall p :: old(Queues(p)) ==> Queues(p[1..])
    {
      forall i | 0 <= i < |mSendQueue| ensures mSendQueue[i] in q && mSendQueue[i] != q[0]
          && mSendQueue[i] == q[i + 1] {
      }
      forall b | b in mSendQueue ensures b in q && b != q[0] && b.Contents() == old(b.Contents()) {
        var i :| 0 <= i < |mSendQueue| && mSendQueue[i] == b;
      }
    }

    /** The queue part of `onTick`. */
    method OnTick()
      requires Valid()
      modifies this`mSendQueue, this`wire, this`mLastSendTime, this`mSendCount, this`history, this`state, clock
      modifies mPacketBuff`mBuffs, mPacketBuff.mSnd
      modifies if mSendQueue == [] then {} else {mSendQueue[0], mSendQueue[0].buf}
      ensures Valid() && old(clock.now) <= clock.now
      ensures history == old(history) + [Engine.Tick(clock.now)]
      ensures state == Engine.OnTick(K(), old(state), clock.now)
      ensures Hands() == old(Hands())
      ensures var due := clock.now - old(mLastSendTime) >= 100 && old(mSendQueue) != [];
              && mSendQueue == (if due then old(mSendQueue)[1..] else old(mSendQueue))
              && mPacketBuff.mBuffs == old(mPacketBuff.mBuffs) + if due then [old(mSendQueue)[0]] else []
    {
      hide Engine.Run, Engine.OnTick, Reached, LastBytes, Receiving;
      hide Sendable, Engine.Wire, Engine.Handed, FramesOf, FeedAll;
      var now_tick := clock.UptimeMillis();
      SendDue(now_tick);
    }

    method SendDue(now_tick: int)
      requires Valid()
      modifies this`mSendQueue, this`wire, this`mLastSendTime, this`mSendCount, this`history, this`state
      modifies mPacketBuff`mBuffs, mPacketBuff.mSnd
      modifies if mSendQueue == [] then {} else {mSendQueue[0], mSendQueue[0].buf}
      ensures Valid()
      ensures history == old(history) + [Engine.Tick(now_tick)]
      ensures state == Engine.OnTick(K(), old(state), now_tick)
      ensures Hands() == old(Hands())
      ensures var due := now_tick - old(mLastSendTime) >= 100 && old(mSendQueue) != [];
              && mSendQueue == (if due then old(mSendQueue)[1..] else old(mSendQueue))
              && mPacketBuff.mBuffs == old(mPacketBuff.mBuffs) + if due then [old(mSendQueue)[0]] else []
    {
      hide Engine.Run, Engine.OnTick, Sendable, Reached, LastBytes;
      hide Receiving, Engine.Wire, Engine.Handed, Engine.BytesOf, Closed, Framed;
      var due := now_tick - mLastSendTime >= Engine.SEND_SPACE && mSendQueue != [];
      if due {
        Transmit(state.queue);
      }
      BookTick(now_tick, due);
      StillFramed(Engine.Tick(now_tick));
    }

    /** The send time and the count after a tick. */
    method BookTick(now_tick: int, due: bool)
      requires Owns() && Reached() && Engine.QueueOk(K(), state.queue)
      requires due == (now_tick - state.lastSend >= Engine.SEND_SPACE && state.queue != [])
      requires Queues(if due then state.queue[1..] else state.queue) && state.last == LastBytes()
      requires state.lastSend == mLastSendTime && state.lastDeal == mLastDealDataTime
      requires state.received == mRecvCount && state.bad == mChkErrCount && state.sent == mSendCount
      requires handed == Engine.Handed(state.log)
      requires wire == Engine.Wire(state.log) + if due then [Engine.BytesOf(Closed(K(), state.queue[0]))] else []
      modifies this`mLastSendTime, this`mSendCount, this`history, this`state
      ensures Core()
      ensures history == old(history) + [Engine.Tick(now_tick)]
      ensures state == Engine.OnTick(K(), old(state), now_tick)
    {
      hide Engine.Run, Engine.OnTick, Sendable, Closed, Reached, Queues, Engine.Wire, Engine.Handed, Engine.BytesOf;
      TickShown(K(), state, now_tick);
      if due {
        MarkSent(now_tick);
      }
      Advance(Engine.Tick(now_tick));
    }

    method MarkSent(now_tick: int)
      requires Owns()
      modifies this`mLastSendTime, this`mSendCount
      ensures Owns() && forall q :: old(Queues(q)) ==> Queues(q)
      ensures mLastSendTime == now_tick && mSendCount == old(mSendCount) + 1
    {
      hide Sendable;
      mLastSendTime := now_tick;
      mSendCount := mSendCount + 1;
    }

    method CheckDealData() returns (ok: bool)
      modifies clock, this`mLastDealDataTime
      ensures old(clock.now) <= clock.now
      ensures ok == (clock.now - old(mLastDealDataTime) >= Engine.DUPLICATE_SPACE)
      ensures mLastDealDataTime == if ok then clock.now else old(mLastDealDataTime)
    {
      var now_time_tick := clock.UptimeMillis();
      if now_time_tick - mLastDealDataTime >= 1000 {
        mLastDealDataTime := now_time_tick;
        return true;
      }
      return false;
    }

    /** The bytes of the receiving buffer. */
    ghost function Current(): seq<byte>
      requires mCurrRecv.WellShaped()
      reads mCurrRecv, mCurrRecv.buf
    {
      mCurrRecv.buf[..mCurrRecv.len]
    }

    /** The packet received becomes the last one received. */
    method Remember(ghost q: seq<Packet>)
      requires Owns() && Queues(q)
      modifies mLastRecv`len, mLastRecv.buf
      ensures Owns() && Queues(q) && LastBytes() == old(Current()) && Current() == old(Current())
    {
      hide Sendable;
      mLastRecv.len := mCurrRecv.len;
      forall i | 0 <= i < mCurrRecv.len { mLastRecv.buf[i] := mCurrRecv.buf[i]; }
    }

    /** Whether the packet in the receiving buffer is new, or a repetition that is due again. */
    method Wanted(f: seq<byte>, ghost q: seq<Packet>) returns (wanted: bool)
      requires Owns() && Queues(q) && f == Current() && HoldsFrame(K(), f)
      modifies clock, this`mLastDealDataTime
      ensures old(clock.now) <= clock.now
      ensures Owns() && Queues(q) && LastBytes() == old(LastBytes()) && Current() == f
      ensures var again := Engine.Again(K(), f, LastBytes());
              && wanted == (!again || clock.now - old(mLastDealDataTime) >= Engine.DUPLICATE_SPACE)
              && mLastDealDataTime == if again && wanted then clock.now else old(mLastDealDataTime)
    {
      hide Sendable, Repeats, HoldsFrame, Engine.Again;
      RepeatsIsAgain(K(), mCurrRecv.Contents(), mLastRecv.Contents());
      var same := mPacketBuff.Compare(mCurrRecv, mLastRecv);
      wanted := true;
      if same {
        wanted := CheckDealData();
      }
    }

    /** `check` on the receiving buffer. */
    method SumFits(ghost q: seq<Packet>) returns (ok: bool)
      requires Owns() && Queues(q) && Collects(K(), mCurrRecv.stream, Current()) && HoldsFrame(K(), Current())
      modifies mPacketBuff.mRcv
      ensures Owns() && Queues(q) && LastBytes() == old(LastBytes()) && Current() == old(Current())
      ensures ok == SumOk(K(), Current())
    {
      hide Sendable, Collects, HoldsFrame, SumOk;
      ok := mPacketBuff.Check(mCurrRecv);
    }

    /** The counters after a completed frame, and the release of the sender after a delivery. */
    method Book(f: seq<byte>, ok: bool, wanted: bool, ghost now: int)
      requires Owns() && Queues(state.queue) && Reached() && Engine.EventOk(K(), Engine.Frame(f, now))
      requires ok == SumOk(K(), f)
      requires wanted == (ok && (!Engine.Again(K(), f, state.last) || now - state.lastDeal >= Engine.DUPLICATE_SPACE))
      requires LastBytes() == if wanted then f else state.last
      requires mLastDealDataTime == if wanted && Engine.Again(K(), f, state.last) then now else state.lastDeal
      requires state.lastSend == mLastSendTime
      requires state.received == mRecvCount && state.bad == mChkErrCount && state.sent == mSendCount
      requires wire == Engine.Wire(state.log) && handed == Engine.Handed(state.log) + if wanted then [f] else []
      modifies this`mRecvCount, this`mChkErrCount, this`mLastSendTime, this`history, this`state
      ensures Core() && mRecvCount == old(mRecvCount) + 1
      ensures history == old(history) + [Engine.Frame(f, now)]
      ensures state == Engine.Step(K(), old(state), Engine.Frame(f, now))
    {
      hide Engine.Step, Engine.Run, Sendable, HoldsFrame, SumOk;
      hide Engine.Again, Reached, Queues, Engine.Wire, Engine.Handed;
      FrameOutcome(K(), state, f, now);
      Count(ok, wanted);
      Advance(Engine.Frame(f, now));
    }

    method Count(ok: bool, wanted: bool)
      requires Owns() && (wanted ==> ok)
      modifies this`mRecvCount, this`mChkErrCount, this`mLastSendTime
      ensures Owns() && forall q :: old(Queues(q)) ==> Queues(q)
      ensures mRecvCount == old(mRecvCount) + 1 && mChkErrCount == (if ok then 0 else old(mChkErrCount) + 1)
      ensures mLastSendTime == if wanted then 0 else old(mLastSendTime)
    {
      hide Sendable;
      mRecvCount := mRecvCount + 1;
      if ok {
        mChkErrCount := 0;
        if wanted {
          mLastSendTime := 0;
        }
      } else {
        mChkErrCount := mChkErrCount + 1;
      }
    }

    /** The handler gets the frame. */
    method OnCommand(f: seq<byte>)
      requires Owns()
      modifies this`handed
      ensures Owns() && forall q :: old(Queues(q)) ==> Queues(q)
      ensures handed == old(handed) + [f]
    {
      hide Sendable;
      handed := handed + [f];
    }

    /** Whether the completed frame is sound, and whether it goes to the handler. */
    method Judge(f: seq<byte>, ghost q: seq<Packet>) returns (ok: bool, wanted: bool)
      requires Owns() && Queues(q) && f == Current() && Collects(K(), mCurrRecv.stream, f) && HoldsFrame(K(), f)
      modifies clock, mPacketBuff.mRcv, this`mLastDealDataTime
      ensures old(clock.now) <= clock.now
      ensures Owns() && Queues(q) && LastBytes() == old(LastBytes()) && Current() == f
      ensures ok == SumOk(K(), f)
      ensures var again := Engine.Again(K(), f, LastBytes());
              && wanted == (ok && (!again || clock.now - old(mLastDealDataTime) >= Engine.DUPLICATE_SPACE))
              && mLastDealDataTime == if again && wanted then clock.now else old(mLastDealDataTime)
    {
      hide Sendable, Collects, HoldsFrame, SumOk, Engine.Again, Queues;
      ok := SumFits(q);
      wanted := false;
      if ok {
        wanted := Wanted(f, q);
      }
    }

    /** What `onUartData` does with a completed frame. */
    method DealFrame()
      requires Core() && Collects(K(), mCurrRecv.stream, Current()) && HoldsFrame(K(), Current())
      modifies this`mRecvCount, this`mChkErrCount, this`mLastSendTime
      modifies this`mLastDealDataTime, this`handed, this`history, this`state
      modifies clock, mPacketBuff.mRcv, mLastRecv`len, mLastRecv.buf
      ensures Core() && old(clock.now) <= clock.now && Hands() == old(Hands()) && mRecvCount == old(mRecvCount) + 1
      ensures history == old(history) + [Engine.Frame(old(Current()), clock.now)]
      ensures state == Engine.Step(K(), old(state), Engine.Frame(old(Current()), clock.now))
    {
      hide Engine.Run, Engine.Step, Sendable, Collects, HoldsFrame;
      hide SumOk, Engine.Again, Reached, Engine.Wire, Engine.Handed;
      ghost var q := state.queue;
      var f := mCurrRecv.buf[..mCurrRecv.len];
      var ok, wanted := Judge(f, q);
      if wanted {
        OnCommand(f);
        Remember(q);
      }
      Book(f, ok, wanted, clock.now);
    }

    /** `add` and `complete` on the receiving buffer. */
    method Receive(buf: seq<byte>) returns (n: int, complete: bool)
      requires Steady()
      modifies mPacketBuff.mRcv, mCurrRecv, mCurrRecv.buf
      ensures Core() && mCurrRecv.WellShaped() && Collects(K(), mCurrRecv.stream, Current())
      ensures 0 <= n <= |buf| && mCurrRecv.stream == old(mCurrRecv.stream) + buf[..n]
      ensures mCurrRecv.stream == Readable(K(), old(mCurrRecv.stream) + buf)
      ensures complete == HoldsFrame(K(), Current()) == Completes(K(), mCurrRecv.stream)
      ensures complete ==> n > 0 && Current() == Window(K(), mCurrRecv.stream)
    {
      hide Engine.Run, Sendable, Collects, HoldsFrame, Completes, Readable, Window;
      n := mPacketBuff.Add(mCurrRecv, buf);
      complete := mPacketBuff.Complete(mCurrRecv);
      StillCore();
      WindowShown(K(), mCurrRecv.stream, Current());
      if n == 0 { assert old(mCurrRecv.stream) + buf[..0] == old(mCurrRecv.stream); }
    }

    /** Filling the receiving buffer concerns nothing else. */
    twostate lemma StillCore()
      requires old(Core()) && mCurrRecv.WellShaped() && unchanged(this) && unchanged(mPacketBuff)
      requires forall b :: b in mPacketBuff.issued && b != mCurrRecv ==> unchanged(b) && unchanged(b.buf)
      ensures Core()
    {
      hide Engine.Run, Sendable;
    }

    /** A completed frame is dealt with, and the receiving buffer emptied. */
    method DealAndClear()
      requires Core() && Collects(K(), mCurrRecv.stream, Current()) && HoldsFrame(K(), Current())
      modifies this`mRecvCount, this`mChkErrCount, this`mLastSendTime
      modifies this`mLastDealDataTime, this`handed, this`history, this`state
      modifies clock, mPacketBuff.mRcv, mLastRecv`len, mLastRecv.buf, mCurrRecv`len, mCurrRecv`stream
      ensures Steady() && mCurrRecv.stream == [] && old(clock.now) <= clock.now && mRecvCount == old(mRecvCount) + 1
      ensures history == old(history) + [Engine.Frame(old(Current()), clock.now)]
    {
      hide Engine.Run, Engine.Step, Sendable, HoldsFrame, Reached;
      DealFrame();
      label Dealt:
      mCurrRecv.len := 0;
      mCurrRecv.stream := [];
      StillCore@Dealt();
      FramingProofs.NothingWaits(K());
    }

    /** `onUartData`: the frames dealt with are those that the framing cuts from the input, in order, and what stays in
        the buffer is what the framing leaves pending. */
    method OnUartData(buf: seq<byte>)
      requires Valid()
      modifies this`mRecvCount, this`mChkErrCount, this`mLastSendTime
      modifies this`mLastDealDataTime, this`handed, this`history, this`state
      modifies this`input, clock, mPacketBuff.mRcv, mLastRecv`len, mLastRecv.buf, mCurrRecv, mCurrRecv.buf
      ensures Valid() && Hands() == old(Hands()) && input == old(input) + [buf]
      ensures mRecvCount == old(mRecvCount) + |Feed(K(), old(mCurrRecv.stream), buf).frames|
      ensures old(history) <= history
      ensures var evs := history[|old(history)|..];
              && FramesOf(evs) == Feed(K(), old(mCurrRecv.stream), buf).frames
              && (forall ev :: ev in evs ==> ev.Frame?)
              && Timed(evs, old(clock.now), clock.now)
    {
      hide Engine.Run, Engine.Step, Core, Feed, Collects, HoldsFrame, FramesOf, Timed, FramingProofs.Waiting, FeedAll;
      ghost var h0, s0, t0 := history, mCurrRecv.stream, clock.now;
      ghost var evs := Deal(buf);
      FramesOfAppend(h0, evs);
      FramingProofs.RunSnoc(K(), [], input, buf);
      label Dealt:
      input := input + [buf];
      StillSteady@Dealt();
    }

    /** Remembering the input concerns nothing else. */
    twostate lemma StillSteady()
      requires old(Steady()) && unchanged(this`mSendQueue) && unchanged(this`mLastSendTime)
      requires unchanged(this`mLastDealDataTime) && unchanged(this`mRecvCount) && unchanged(this`mChkErrCount)
      requires unchanged(this`mSendCount) && unchanged(this`handed) && unchanged(this`wire)
      requires unchanged(this`history) && unchanged(this`state) && unchanged(mPacketBuff)
      requires forall b :: b in mPacketBuff.issued ==> unchanged(b) && unchanged(b.buf)
      ensures Steady()
    {
      hide Engine.Run, Sendable;
    }

    /** The link goes up or down. */
    method OnStatusChange(conn: bool)
      requires Valid()
      modifies this`connected
      ensures Valid() && Hands() == old(Hands()) && connected == conn
    {
      hide Core, Receiving;
      connected := conn;
      StillSteady();
    }

    /** The receiving loop. */
    method Deal(buf: seq<byte>) returns (ghost evs: seq<Engine.Event>)
      requires Steady()
      modifies this`mRecvCount, this`mChkErrCount, this`mLastSendTime
      modifies this`mLastDealDataTime, this`handed, this`history, this`state
      modifies clock, mPacketBuff.mRcv, mLastRecv`len, mLastRecv.buf, mCurrRecv, mCurrRecv.buf
      ensures Steady() && history == old(history) + evs
      ensures mCurrRecv.stream == Feed(K(), old(mCurrRecv.stream), buf).pending
      ensures mRecvCount == old(mRecvCount) + |FramesOf(evs)|
      ensures FramesOf(evs) == Feed(K(), old(mCurrRecv.stream), buf).frames
      ensures (forall ev :: ev in evs ==> ev.Frame?) && Timed(evs, old(clock.now), clock.now)
    {
      hide Engine.Run, Engine.Step, Core, Feed, Collects, HoldsFrame, FramesOf, Timed, FramingProofs.Waiting;
      ghost var h0, s0, t0 := history, mCurrRecv.stream, clock.now;
      evs := [];
      NoEvents(t0);
      var offset := 0;
      assert buf[0..] == buf;
      while offset < |buf|
        invariant Steady() && 0 <= offset <= |buf| && history == h0 + evs
        invariant Goes(K(), s0, buf, FramesOf(evs), mCurrRecv.stream, buf[offset..])
        invariant (forall ev :: ev in evs ==> ev.Frame?) && Timed(evs, t0, clock.now)
        invariant mRecvCount == old(mRecvCount) + |FramesOf(evs)|
        decreases |buf| - offset
      {
        ghost var s, rest := mCurrRecv.stream, buf[offset..];
        var n, complete := Receive(buf[offset..]);
        ghost var t := mCurrRecv.stream;
        offset := offset + n;
        assert buf[offset..] == rest[n..];
        FeedStep(K(), s, rest, n, t);
        if !complete {
          return;
        }
        ghost var f, t1 := Current(), clock.now;
        DealAndClear();
        GoesOn(K(), s0, buf, FramesOf(evs), s, rest, f, rest[n..]);
        OneMoreEvent(evs, Engine.Frame(f, clock.now), t0, t1, clock.now);
        evs := evs + [Engine.Frame(f, clock.now)];
      }
      assert buf[offset..] == [];
      FeedNothing(K(), mCurrRecv.stream);
    }

    /** `onRecvData`, which reports how many packets the data completed. */
    method OnRecvData(data: seq<byte>) returns (count: int)
      requires Valid()
      modifies this`mRecvCount, this`mChkErrCount, this`mLastSendTime
      modifies this`mLastDealDataTime, this`handed, this`history, this`state
      modifies this`input, clock, mPacketBuff.mRcv, mLastRecv`len, mLastRecv.buf, mCurrRecv, mCurrRecv.buf
      ensures Valid() && Hands() == old(Hands()) && input == old(input) + [data]
      ensures count == |Feed(K(), old(mCurrRecv.stream), data).frames|
      ensures old(history) <= history && forall ev :: ev in history[|old(history)|..] ==> ev.Frame?
    {
      hide Feed, Steady, Framed;
      var oldRecvCount := mRecvCount;
      OnUartData(data);
      count := mRecvCount - oldRecvCount;
    }

    /** The destructor: every buffer that is not a caller's own is back in the free list. */
    method Close()
      requires Owns()
      modifies this`mSendQueue, mPacketBuff`mBuffs
      modifies mLastRecv, mLastRecv.buf, mCurrRecv, mCurrRecv.buf, mSendQueue, set b | b in mSendQueue :: b.buf
      ensures mPacketBuff.Valid() && mPacketBuff.Lent() == old(Hands()) && mSendQueue == []
    {
      hide Sendable;
      var queue := mSendQueue;
      ghost var lent := mPacketBuff.Lent();
      mPacketBuff.Recycle(mLastRecv);
      mPacketBuff.Recycle(mCurrRecv);
      assert mPacketBuff.Lent() == lent - {mLastRecv, mCurrRecv};
      mPacketBuff.RecycleAll(queue);
      mSendQueue := [];
    }

    /** Whatever has happened to the object, the laws of the machine hold of its log; and what it handed on and put on
        the wire is what the log says. */
    lemma HistoryLaws()
      requires Valid()
      ensures Reached() && Engine.Inv(K(), state) && handed == Engine.Handed(state.log)
              && wire == Engine.Wire(state.log)
    {
      hide Engine.Inv, Engine.Run;
      Engine.EveryRun(K(), history);
    }

    /** Every packet ever put on the wire carries the check that its receiver looks for. */
    lemma WireLaws(i: nat)
      requires Valid() && i < |wire|
      ensures Engine.Guarded(K(), wire[i])
    {
      hide Engine.Inv, Engine.Run, Engine.Guarded;
      HistoryLaws();
      Engine.WireIsGuarded(K(), history, i);
    }

    /** Over the whole life of the object, and however its input came in chunks: all frames are pieces of the stream in
        order, the first is the stream from its first header on, and they are those of the plain parser if and only if
        every chunk was exact. */
    lemma StreamLaws()
      requires Valid()
      ensures var s, frames := Flatten(input), FramesOf(history);
              && FramingProofs.Pieces(frames, s)
              && (frames != [] <==> Completes(K(), s))
              && (frames != [] ==> FramingProofs.OpensStream(K(), frames[0], s))
              && (frames == FramingProofs.Greedy(K(), s) <==> FramingProofs.AllExact(K(), [], input))
    {
      hide FramesOf, FeedAll, FramingProofs.Pieces, Completes, FramingProofs.OpensStream, FramingProofs.AllExact;
      hide FramingProofs.Greedy, Steady;
      assert [] + Flatten(input) == Flatten(input);
      FramingProofs.NothingWaits(K());
      FramingProofs.RunPieces(K(), [], input);
      FramingProofs.FirstFrame(K(), [], input);
      FramingProofs.GreedyIffExact(K(), [], input);
    }

    /** With exact chunks the throttle sees frames: a delivery of the same frame without keys as the delivery before it
        counts as a duplicate, and comes at least a second after every duplicate delivered before. */
    lemma DuplicateLaws(i: nat, j: nat)
      requires Valid() && K() == Mcu && FramingProofs.AllExact(Mcu, [], input)
      requires Engine.InSuccession(state.log, i, j)
      requires Engine.SameFrame(state.log[i].frame, state.log[j].frame) && KeysClear(state.log[j].frame)
      ensures state.log[j].again
      ensures forall h :: 0 <= h < j && state.log[h].Delivered? && state.log[h].again ==>
                state.log[j].at - state.log[h].at >= Engine.DUPLICATE_SPACE
    {
      hide Core, Receiving, Engine.Run, FeedAll, FramesOf, FramingProofs.AllExact, HoldsFrame;
      HistoryLaws();
      Exactly(i);
      Exactly(j);
      Engine.SameFrameDuplicateIff(history, i, j);
      forall h | 0 <= h < j && state.log[h].Delivered? && state.log[h].again
        ensures state.log[j].at - state.log[h].at >= Engine.DUPLICATE_SPACE
      {
        Engine.DuplicatesSpaced(Mcu, history, h, j);
      }
    }

    /** With exact chunks every frame delivered is sixteen bytes long. */
    lemma Exactly(i: nat)
      requires Valid() && K() == Mcu && FramingProofs.AllExact(Mcu, [], input)
      requires i < |state.log| && state.log[i].Delivered?
      ensures |state.log[i].frame| == 16
    {
      hide Core, Receiving, Engine.Run, FeedAll, FramesOf, FramingProofs.AllExact;
      HistoryLaws();
      Engine.DeliveredWereReceived(Mcu, Engine.START, history, i);
      var f := state.log[i].frame;
      var now :| Engine.Frame(f, now) in history;
      ReceivedAreFrames(history, f, now);
      FramingProofs.AllExactIffAlone(Mcu, [], input);
      assert FramingProofs.Alone(Mcu, f);
      DeclaredPositive(Mcu, f);
    }

    /** Every buffer ever allocated is in exactly one place. */
    lemma OnePlace(b: BuffData)
      requires Owns() && b in mPacketBuff.issued
      ensures (if b in mPacketBuff.mBuffs then 1 else 0) + (if b in mSendQueue then 1 else 0)
            + (if b == mLastRecv then 1 else 0) + (if b == mCurrRecv then 1 else 0)
              + (if b in Hands() then 1 else 0) == 1
      ensures multiset(mPacketBuff.mBuffs)[b] <= 1 && multiset(mSendQueue)[b] <= 1
    {
      OnceEach(mPacketBuff.mBuffs, b);
      OnceEach(mSendQueue, b);
    }
  }
}
