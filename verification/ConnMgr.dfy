/** `CConnMgr`: the settings of the user interface on their way to the electric-control board. */
module ConnMgr {
  import opened Bytes
  import opened Framing
  import opened Packets
  import opened PacketBuffer
  import opened PacketPool
  import opened UartClient
  import Crc
  import Engine

  /** The frame that carries the settings: header, ten bytes of settings, and two filter lives that always read 100. */
  function Command(settings: seq<byte>): (p: Packet)
    requires |settings| == 32
    ensures p.len == 32 && Sendable(Mcu, p)
  {
    Packet(32, seq(32, i requires 0 <= i < 32 =>
      if i == 0 then 0x02 else if 3 <= i < 13 then settings[i] else if i == 13 || i == 14 then 100 else 0))
  }

  /** Byte by byte, what a closed command carries. */
  lemma ClosedCommandBytes(s: seq<byte>)
    requires |s| == 32
    ensures var p := Closed(Mcu, Command(s));
            && p.len == 32 && |p.buf| == 32
            && p.buf[0] == 0x02 && (forall j :: 3 <= j < 13 ==> p.buf[j] == s[j])
            && p.buf[13] == 100 && p.buf[14] == 100
            && p.buf[1] == 0 && p.buf[2] == 0 && (forall j :: 15 <= j < 30 ==> p.buf[j] == 0)
            && Crc.Register(Crc.MODBUS, 0xffff, p.buf) == 0
  {
    hide Crc.Register, Closed, Sendable;
    ClosedHasZeroResidue(Command(s));
    ClosedElsewhere(Mcu, Command(s));
    OpenedBytes(Mcu, Command(s));
    var p := Closed(Mcu, Command(s));
    assert p.buf[..32] == p.buf;
  }

  /** Two frames are the same on the wire only if they carry the same settings. */
  lemma CommandsTellSettings(s: seq<byte>, t: seq<byte>)
    requires |s| == |t| == 32 && Closed(Mcu, Command(s)) == Closed(Mcu, Command(t))
    ensures s[3..13] == t[3..13]
  {
    hide Crc.Register, Crc.LowByte, Crc.HighByte;
    ClosedBytes(Mcu, Command(s));
    ClosedBytes(Mcu, Command(t));
    var a, b, q := Command(s).buf, Command(t).buf, Closed(Mcu, Command(s)).buf;
    assert a[..30] == q[..32][..30] == b[..30];
    assert forall i :: 3 <= i < 13 ==> s[i] == a[..30][i] == b[..30][i] == t[i];
  }

  /** Nothing but closed commands was ever offered for sending. */
  ghost predicate OnlyCommands(history: seq<Engine.Event>) {
    forall p, c :: Engine.Event.Send(p, c) in history ==> IsCommand(p)
  }

  ghost predicate IsCommand(p: Packet) {
    exists s: seq<byte> :: |s| == 32 && p == Closed(Mcu, Command(s))
  }

  /** These bytes are a closed command. */
  ghost predicate CarriesCommand(w: seq<byte>) {
    exists s: seq<byte> :: |s| == 32 && w == CommandBytes(s)
  }

  /** The bytes of the closed command. */
  function CommandBytes(s: seq<byte>): (w: seq<byte>)
    requires |s| == 32
    ensures |w| == 32
  {
    Closed(Mcu, Command(s)).buf
  }

  lemma CommandBytesShow(s: seq<byte>)
    requires |s| == 32
    ensures var w := CommandBytes(s);
            && w[0] == 0x02 && w[1] == 0 && w[2] == 0 && (forall j :: 3 <= j < 13 ==> w[j] == s[j])
            && w[13] == 100 && w[14] == 100 && (forall j :: 15 <= j < 30 ==> w[j] == 0)
            && Crc.Register(Crc.MODBUS, 0xffff, w) == 0
  {
    hide Closed, Command, Crc.Register;
    ClosedCommandBytes(s);
  }

  lemma MoreHistory(h: seq<Engine.Event>, evs: seq<Engine.Event>)
    requires OnlyCommands(h) && forall ev :: ev in evs ==> ev.Send? ==> IsCommand(ev.packet)
    ensures OnlyCommands(h + evs)
  {
  }

  /** On the wire are the commands, byte for byte as they were made, and nothing else: the second pass over their check
      code changes nothing. */
  lemma WireCarriesCommands(history: seq<Engine.Event>, i: nat)
    requires Engine.EventsOk(Mcu, history) && OnlyCommands(history)
    requires i < |Engine.Wire(Engine.Run(Mcu, Engine.START, history).log)|
    ensures CarriesCommand(Engine.Wire(Engine.Run(Mcu, Engine.START, history).log)[i])
  {
    hide Engine.Run, Engine.Wire, Engine.SentOnes, Engine.AcceptedOnes, Closed, Command, Sendable;
    var log := Engine.Run(Mcu, Engine.START, history).log;
    Engine.SentIsPrefixOfAccepted(Mcu, history);
    Engine.WireIsSent(log);
    Engine.NothingAccepted();
    Engine.AcceptedWereOffered(Mcu, Engine.START, history, i);
    var p := Engine.AcceptedOnes(log)[i];
    var s :| |s| == 32 && p == Closed(Mcu, Command(s));
    ClosedTwice(Mcu, Command(s));
    ClosedLength(s);
  }

  lemma ClosedLength(s: seq<byte>)
    requires |s| == 32
    ensures Closed(Mcu, Command(s)).len == 32 == |Closed(Mcu, Command(s)).buf|
  {
    hide Crc.Register, Crc.LowByte, Crc.HighByte;
  }

  lemma CarriedBytes(w: seq<byte>)
    requires CarriesCommand(w)
    ensures |w| == 32 && w[0] == 0x02 && w[1] == 0 && w[2] == 0 && w[13] == 100 && w[14] == 100
    ensures (forall j :: 15 <= j < 30 ==> w[j] == 0) && Crc.Register(Crc.MODBUS, 0xffff, w) == 0
  {
    hide CommandBytes, Crc.Register;
    var s: seq<byte> :| |s| == 32 && w == CommandBytes(s);
    CommandBytesShow(s);
  }

  class CConnMgr {
    const mPacket: SdhwPacketBuffer
    const mUartMCU: UartClient
    const mSndData: array<byte>
    var mSetData: int
    var mLastSendTime: int

    /** The constructor and `init`, as far as the link to the board is concerned. */
    constructor (clock: SystemClock)
      ensures Valid() && mUartMCU.history == [] && mUartMCU.Hands() == {} && mSetData == 0 && mLastSendTime == 0
    {
      hide UartClient.Tied, UartClient.Reached, UartClient.Receiving, UartClient.Framed;
      var pool := new SdhwPacketBuffer(Mcu);
      assert pool.Lent() == {};
      var client := new UartClient(pool, clock);
      label Made:
      mPacket, mUartMCU := pool, client;
      mSndData := new byte[32](_ => 0);
      mSetData, mLastSendTime := 0, 0;
      new;
      mUartMCU.StillValid@Made();
    }

    ghost predicate Valid()
      reads this, mUartMCU, mPacket, mUartMCU.mPacketBuff, mUartMCU.mPacketBuff.issued, mUartMCU.Bufs()
    {
      && mUartMCU.mPacketBuff == mPacket && mPacket.mType == Mcu && mSndData.Length == 32
      && mUartMCU.Valid() && mSndData !in mUartMCU.Bufs()
      && OnlyCommands(mUartMCU.history)
    }

    /** `UI2MCU` on a blank buffer, byte by byte. */
    method Fill(bd: BuffData)
      requires bd.kind == Mcu && bd.WellShaped() && bd.Contents() == Blank(Mcu)
      requires mSndData.Length == 32 && bd.buf != mSndData
      modifies bd`len, bd.buf
      ensures bd.WellShaped() && bd.Contents() == Closed(Mcu, Command(mSndData[..]))
      ensures bd.len == 32 && bd.buf[0] == 0x02 && (forall j :: 3 <= j < 13 ==> bd.buf[j] == mSndData[j])
      ensures bd.buf[13] == 100 && bd.buf[14] == 100 && Crc.Register(Crc.MODBUS, 0xffff, bd.buf[..]) == 0
    {
      hide Closed, Crc.Register;
      var snd := new Sender(Mcu);
      snd.Parse(bd);
      var i := 3;
      while i < 15
        modifies bd.buf
        invariant 3 <= i <= 15 && bd.len == 32 && bd.buf[0] == 0x02
        invariant forall j :: 3 <= j < i ==> bd.buf[j] == mSndData[j]
        invariant forall j :: 1 <= j < 32 && !(3 <= j < i) ==> bd.buf[j] == 0
      {
        bd.buf[i] := mSndData[i];
        i := i + 1;
      }
      bd.buf[13] := 100;
      bd.buf[14] := 100;
      bd.buf[12] := mSndData[12];
      assert bd.buf[..] == Command(mSndData[..]).buf && bd.Contents() == Command(mSndData[..]);
      snd.Checkcode();
      ClosedCommandBytes(mSndData[..]);
    }

    /** The first part of `send2MCU`: a buffer with the settings, ready to be sent. */
    method Prepare() returns (bd: BuffData)
      requires Valid()
      modifies mPacket, mPacket.mBuffs, set b | b in mPacket.mBuffs :: b.buf
      ensures Valid() && bd !in old(mUartMCU.Hands()) && mUartMCU.Hands() == old(mUartMCU.Hands()) + {bd}
      ensures bd.kind == Mcu && Sendable(Mcu, bd.Contents()) && bd.Contents() == Closed(Mcu, Command(mSndData[..]))
      ensures mUartMCU.history == old(mUartMCU.history) && mUartMCU.connected == old(mUartMCU.connected)
      ensures mSndData[..] == old(mSndData[..]) && (fresh(bd) || bd in old(mPacket.mBuffs))
      ensures fresh(bd.buf) || bd in old(mPacket.mBuffs)
    {
      hide UartClient.Tied, UartClient.Reached, UartClient.Receiving, UartClient.Framed;
      hide OnlyCommands, Closed, Sendable, Command;
      bd := Borrow();
      label Borrowed:
      Fill(bd);
      ClosedTwice(Mcu, Command(mSndData[..]));
      mUartMCU.StillValid@Borrowed();
    }

    /** A blank buffer from the shared list, which the client does not mind. */
    method Borrow() returns (bd: BuffData)
      requires Valid()
      modifies mPacket, set b | b in mPacket.mBuffs :: b`len
      ensures Valid() && bd !in old(mUartMCU.Hands()) && mUartMCU.Hands() == old(mUartMCU.Hands()) + {bd}
      ensures bd.kind == Mcu && bd.WellShaped() && bd.Contents() == Blank(Mcu)
      ensures (fresh(bd) && fresh(bd.buf)) || bd in old(mPacket.mBuffs)
    {
      hide UartClient.Tied, UartClient.Reached, UartClient.Receiving, UartClient.Framed, OnlyCommands;
      bd := mPacket.Obtain();
      mUartMCU.StillValid();
    }

    /** `send2MCU`: offers the settings, closed, to the client, and forgets that they were to be sent. */
    method Send2Mcu()
      requires Valid()
      modifies this, mSndData, mPacket, mUartMCU, mUartMCU.clock, mPacket.mBuffs, set b | b in mPacket.mBuffs :: b.buf
      ensures Valid() && mUartMCU.Hands() == old(mUartMCU.Hands())
      ensures mUartMCU.history == old(mUartMCU.history)
                + [Engine.Event.Send(Closed(Mcu, Command(old(mSndData[..]))), old(mUartMCU.connected))]
      ensures var offer := mUartMCU.history[|old(mUartMCU.history)|].packet;
              && offer.len == 32 && |offer.buf| == 32
              && offer.buf[0] == 0x02 && (forall j :: 3 <= j < 13 ==> offer.buf[j] == old(mSndData[j]))
              && offer.buf[13] == 100 && offer.buf[14] == 100
              && offer.buf[1] == 0 && offer.buf[2] == 0 && (forall j :: 15 <= j < 30 ==> offer.buf[j] == 0)
              && Crc.Register(Crc.MODBUS, 0xffff, offer.buf) == 0
      ensures mSetData == 0 && mSndData[..] == old(mSndData[..])[12 := 0]
      ensures old(mUartMCU.clock.now) <= mLastSendTime == mUartMCU.clock.now
    {
      hide UartClient.Valid, OnlyCommands, Closed, Sendable, Command, Crc.Register;
      ClosedCommandBytes(mSndData[..]);
      var bd := Prepare();
      var r := mUartMCU.Send(bd);
      label Offered:
      mSndData[12] := 0;
      mSetData := 0;
      mLastSendTime := mUartMCU.clock.UptimeMillis();
      mUartMCU.Untouched@Offered();
      ghost var offer := Engine.Event.Send(Closed(Mcu, Command(old(mSndData[..]))), old(mUartMCU.connected));
      MoreHistory(old(mUartMCU.history), [offer]);
    }

    /** The first half of `handleEvents`. */
    method TickClient() returns (now_tick: int, ghost tick: int)
      requires Valid()
      modifies mPacket`mBuffs, mPacket.mSnd, mUartMCU, mUartMCU.clock
      modifies if mUartMCU.mSendQueue == [] then {} else {mUartMCU.mSendQueue[0], mUartMCU.mSendQueue[0].buf}
      ensures Valid() && mUartMCU.Hands() == old(mUartMCU.Hands()) && mSndData[..] == old(mSndData[..])
      ensures old(mUartMCU.clock.now) <= now_tick <= tick == mUartMCU.clock.now
      ensures mUartMCU.history == old(mUartMCU.history) + [Engine.Tick(tick)]
              && mUartMCU.connected == old(mUartMCU.connected)
      ensures || mPacket.mBuffs == old(mPacket.mBuffs)
              || (old(mUartMCU.mSendQueue) != []
                 && mPacket.mBuffs == old(mPacket.mBuffs) + [old(mUartMCU.mSendQueue)[0]])
    {
      hide UartClient.Valid, OnlyCommands;
      label Start:
      now_tick := mUartMCU.clock.UptimeMillis();
      mUartMCU.Untouched@Start();
      mUartMCU.QueueIsIssued();
      mUartMCU.OnTick();
      tick := mUartMCU.clock.now;
      MoreHistory(old(mUartMCU.history), [Engine.Tick(tick)]);
    }

    /** `handleEvents`: a tick for the client, and the settings if they changed or were last sent a second ago. */
    method HandleEvents() returns (ghost tick: int, ghost again: bool)
      requires Valid()
      modifies this, mSndData, mPacket, mPacket.mSnd, mUartMCU, mUartMCU.clock
      modifies mPacket.mBuffs, set b | b in mPacket.mBuffs :: b.buf
      modifies if mUartMCU.mSendQueue == [] then {} else {mUartMCU.mSendQueue[0], mUartMCU.mSendQueue[0].buf}
      ensures Valid() && mUartMCU.Hands() == old(mUartMCU.Hands())
      ensures old(mUartMCU.clock.now) <= tick <= mUartMCU.clock.now
      ensures again <== old(mSetData) > 0 || old(mUartMCU.clock.now) - old(mLastSendTime) >= 1000
      ensures again ==> old(mSetData) > 0 || tick - old(mLastSendTime) >= 1000
      ensures mUartMCU.history == old(mUartMCU.history) + [Engine.Tick(tick)]
                + if again then [Engine.Event.Send(Closed(Mcu, Command(old(mSndData[..]))), old(mUartMCU.connected))]
                  else []
    {
      hide UartClient.Valid, OnlyCommands, Closed, Sendable, Command;
      var now_tick;
      now_tick, tick := TickClient();
      again := mSetData > 0 || now_tick - mLastSendTime >= 1000;
      if mSetData > 0 || now_tick - mLastSendTime >= 1000 {
        Send2Mcu();
      }
    }

    /** The client's own `handleEvents`: it reads what the line has brought. */
    method OnLine(data: seq<byte>) returns (count: int)
      requires Valid()
      modifies mUartMCU, mUartMCU.clock, mPacket.mRcv, mUartMCU.mLastRecv, mUartMCU.mLastRecv.buf
      modifies mUartMCU.mCurrRecv, mUartMCU.mCurrRecv.buf
      ensures Valid() && mUartMCU.Hands() == old(mUartMCU.Hands())
      ensures count == |Feed(Mcu, old(mUartMCU.mCurrRecv.stream), data).frames|
    {
      hide UartClient.Valid, OnlyCommands, Feed, Closed, Sendable, Command;
      ghost var h := mUartMCU.history;
      count := mUartMCU.OnRecvData(data);
      assert mUartMCU.history == h + mUartMCU.history[|h|..];
      MoreHistory(h, mUartMCU.history[|h|..]);
    }

    /** Over the whole life of the object: what went over the line are commands, each one byte for byte as `send2MCU`
        made it, with a check code that leaves no residue. */
    lemma OnTheWire(i: nat)
      requires Valid() && i < |mUartMCU.wire|
      ensures var w := mUartMCU.wire[i];
              && |w| == 32 && w[0] == 0x02 && w[1] == 0 && w[2] == 0 && w[13] == 100 && w[14] == 100
              && (forall j :: 15 <= j < 30 ==> w[j] == 0) && Crc.Register(Crc.MODBUS, 0xffff, w) == 0
              && CarriesCommand(w)
    {
      hide UartClient.Valid, OnlyCommands, CarriesCommand, Closed, Command, Crc.Register;
      hide Engine.Run, Engine.Inv, Engine.Wire, Engine.Handed;
      mUartMCU.HistoryLaws();
      WireCarriesCommands(mUartMCU.history, i);
      CarriedBytes(mUartMCU.wire[i]);
    }
  }
}
