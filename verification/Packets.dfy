/** Packets as values: when two count as the same, and what the check codes put on an outgoing one. */
module Packets {
  import opened Bytes
  import opened Framing
  import Crc

  /** A buffer's contents: `len` valid bytes at the start of the allocated `buf`. */
  datatype Packet = Packet(len: int, buf: seq<byte>)

  predicate WellFormed(k: Kind, p: Packet) {
    |p.buf| == BufLen(k) && 0 <= p.len <= |p.buf|
  }

  function Blank(k: Kind): (p: Packet)
    ensures WellFormed(k, p)
  {
    Packet(0, seq(BufLen(k), _ => 0))
  }

  /** Bytes 6 to 9 carry the keys; a packet with a key in it is never taken for a repetition. */
  predicate KeysClear(buf: seq<byte>)
    requires |buf| >= 10
  {
    buf[6] == 0 && buf[7] == 0 && buf[8] == 0 && buf[9] == 0
  }

  /** What `compare` decides: whether `src` repeats `dst`. */
  predicate Repeats(k: Kind, src: Packet, dst: Packet)
    requires WellFormed(k, src) && WellFormed(k, dst)
  {
    k == Mcu && src.len == dst.len && src.buf[..src.len] == dst.buf[..dst.len] && KeysClear(src.buf)
  }

  // ----- check codes -------------------------------------------------------------------------

  /** A packet the sender can close: its check code lies inside the buffer. */
  predicate Sendable(k: Kind, p: Packet) {
    && WellFormed(k, p)
    && match k
       case Mcu => p.len == 0 || p.len >= 2
       case Tuya => Val(p.buf[4]) * 256 + Val(p.buf[5]) + 7 <= 128
  }

  /** An empty packet is given its full length and its header. */
  function Opened(k: Kind, p: Packet): (q: Packet)
    requires WellFormed(k, p)
    ensures WellFormed(k, q) && q.len > 0
    ensures Sendable(k, p) ==> Sendable(k, q)
  {
    if p.len != 0 then p
    else match k
      case Mcu => Packet(32, p.buf[0 := 0x02])
      case Tuya => Packet(128, p.buf[0 := 0x55][1 := 0xaa][2 := 0x03])
  }

  /** What `check_code` makes of a packet. */
  function Closed(k: Kind, p: Packet): (q: Packet)
    requires Sendable(k, p)
    ensures WellFormed(k, q)
  {
    var o := Opened(k, p);
    match k
    case Mcu =>
      var c := Crc.Register(Crc.MODBUS, 0xffff, o.buf[..o.len - 2]);
      Packet(o.len, o.buf[o.len - 2 := Crc.LowByte(c)][o.len - 1 := Crc.HighByte(c)])
    case Tuya =>
      var n := Val(o.buf[4]) * 256 + Val(o.buf[5]) + 7;
      Packet(n, o.buf[n - 1 := Truncate(Sum(o.buf[..n - 1]))])
  }

  /** A packet that has its length already is left alone; an empty one gets its full length and its header. */
  lemma OpenedBytes(k: Kind, p: Packet)
    requires WellFormed(k, p)
    ensures var o := Opened(k, p);
            && (p.len != 0 ==> o == p)
            && (p.len == 0 && k == Mcu ==>
                  o.len == 32 && o.buf[0] == 0x02 && forall i :: 1 <= i < 32 ==> o.buf[i] == p.buf[i])
            && (p.len == 0 && k == Tuya ==>
                  && o.len == 128 && o.buf[0] == 0x55 && o.buf[1] == 0xaa && o.buf[2] == 0x03
                  && forall i :: 3 <= i < 128 ==> o.buf[i] == p.buf[i])
  {
  }

  /** Closing changes nothing but the check code; a Tuya packet also gets the length that its bytes 4 and 5 declare. */
  lemma ClosedElsewhere(k: Kind, p: Packet)
    requires Sendable(k, p)
    ensures var o, q := Opened(k, p), Closed(k, p);
            && (k == Mcu ==> q.len == o.len
                             && forall i :: 0 <= i < 32 && i != q.len - 2 && i != q.len - 1 ==> q.buf[i] == o.buf[i])
            && (k == Tuya ==> q.len == Val(o.buf[4]) * 256 + Val(o.buf[5]) + 7
                              && forall i :: 0 <= i < 128 && i != q.len - 1 ==> q.buf[i] == o.buf[i])
  {
    hide Crc.Register, Crc.LowByte, Crc.HighByte, Truncate, Val, Sum;
  }

  /** The valid bytes of a closed packet are its payload followed by the check code. */
  lemma ClosedBytes(k: Kind, p: Packet)
    requires Sendable(k, p)
    ensures var o, q := Opened(k, p), Closed(k, p);
            match k
            case Mcu => var c := Crc.Register(Crc.MODBUS, 0xffff, o.buf[..o.len - 2]);
                        q.buf[..q.len] == o.buf[..o.len - 2] + [Crc.LowByte(c), Crc.HighByte(c)]
            case Tuya => q.buf[..q.len - 1] == o.buf[..q.len - 1] &&
                         Val(q.buf[q.len - 1]) == Sum(q.buf[..q.len - 1]) % 256
  {
    hide Crc.Register, Crc.LowByte, Crc.HighByte, Truncate, Val, Sum;
    if k == Tuya {
      var o := Opened(k, p);
      var n := Val(o.buf[4]) * 256 + Val(o.buf[5]) + 7;
    }
  }

  /** A packet closed twice is closed once: the second pass changes no byte. */
  lemma ClosedTwice(k: Kind, p: Packet)
    requires Sendable(k, p)
    ensures Sendable(k, Closed(k, p)) && Closed(k, Closed(k, p)) == Closed(k, p)
  {
    hide Crc.Register, Crc.LowByte, Crc.HighByte, Truncate, Val, Sum;
    var o, q := Opened(k, p), Closed(k, p);
    assert q.len > 0 && Opened(k, q) == q;
    match k
    case Mcu => assert q.buf[..q.len - 2] == o.buf[..o.len - 2];
    case Tuya =>
      assert q.buf[4] == o.buf[4] && q.buf[5] == o.buf[5];
      assert q.buf[..q.len - 1] == o.buf[..q.len - 1];
  }

  /** A frame for the electric-control board leaves an empty register: the zero residue of section 6.2.2 of
      MODBUS over Serial Line V1.02. */
  lemma ClosedHasZeroResidue(p: Packet)
    requires Sendable(Mcu, p)
    ensures var q := Closed(Mcu, p);
            Crc.Register(Crc.MODBUS, 0xffff, q.buf[..q.len]) == 0
  {
    hide Crc.Register, Crc.LowByte, Crc.HighByte;
    var o := Opened(Mcu, p);
    ClosedBytes(Mcu, p);
    Crc.ZeroResidue(Crc.MODBUS, 0xffff, o.buf[..o.len - 2]);
  }

  /** Zero residue characterises closed packets: no other two trailing bytes give it. */
  lemma ClosedIffZeroResidue(q: Packet)
    requires WellFormed(Mcu, q) && q.len >= 2
    ensures Crc.Register(Crc.MODBUS, 0xffff, q.buf[..q.len]) == 0 <==> Closed(Mcu, q) == q
  {
    hide Crc.Register, Crc.LowByte, Crc.HighByte;
    var msg := q.buf[..q.len - 2];
    var lo, hi := q.buf[q.len - 2], q.buf[q.len - 1];
    assert q.buf[..q.len] == msg + [lo, hi];
    Crc.ResidueDecides(Crc.MODBUS, 0xffff, msg, lo, hi);
    var c := Crc.Register(Crc.MODBUS, 0xffff, msg);
    var r := q.buf[q.len - 2 := Crc.LowByte(c)][q.len - 1 := Crc.HighByte(c)];
    assert r[q.len - 2] == Crc.LowByte(c) && r[q.len - 1] == Crc.HighByte(c);
    if lo == Crc.LowByte(c) && hi == Crc.HighByte(c) { assert r == q.buf; }
  }

  /** A closed packet with two adjacent bytes damaged does not pass for a closed packet. */
  lemma DamageShows(p: Packet, q: Packet, j: nat)
    requires Sendable(Mcu, p) && Sendable(Mcu, q) && p.len == q.len > 0
    requires Closed(Mcu, p) == p
    requires p.buf[..p.len] != q.buf[..q.len]
    requires forall n :: 0 <= n < p.len && n != j && n != j + 1 ==> p.buf[n] == q.buf[n]
    ensures Closed(Mcu, q) != q
  {
    hide Crc.Register, Crc.LowByte, Crc.HighByte, Closed;
    ClosedIffZeroResidue(p);
    ClosedIffZeroResidue(q);
    Crc.AdjacentBytesDetected(Crc.MODBUS, 0xffff, p.buf[..p.len], q.buf[..q.len], j);
  }

  // ----- comparison --------------------------------------------------------------------------

  /** From ten bytes on the keys are among the compared bytes, and repetition is symmetric. */
  lemma RepeatsSymmetric(k: Kind, a: Packet, b: Packet)
    requires WellFormed(k, a) && WellFormed(k, b) && Repeats(k, a, b) && a.len >= 10
    ensures Repeats(k, b, a)
  {
    assert forall i :: 6 <= i < 10 ==> b.buf[i] == b.buf[..b.len][i] == a.buf[..a.len][i] == a.buf[i];
  }

  /** Shorter packets can differ in bytes that are not compared: repetition is symmetric on packets of `n` bytes if and
      only if `n` is ten or more. */
  lemma RepeatsSymmetricIff(n: nat)
    requires n <= 32
    ensures n >= 10 <==>
              forall a, b :: WellFormed(Mcu, a) && WellFormed(Mcu, b) && a.len == n && Repeats(Mcu, a, b)
                  ==> Repeats(Mcu, b, a)
  {
    forall a, b | WellFormed(Mcu, a) && WellFormed(Mcu, b) && a.len == n >= 10 && Repeats(Mcu, a, b)
      ensures Repeats(Mcu, b, a)
    {
      RepeatsSymmetric(Mcu, a, b);
    }
    if n < 10 {
      var a, b := Packet(n, seq(32, _ => 0)), Packet(n, seq(32, i => if i == 9 then 1 else 0));
      assert a.buf[..n] == b.buf[..n];
      assert Repeats(Mcu, a, b) && !Repeats(Mcu, b, a);
    }
  }
}
