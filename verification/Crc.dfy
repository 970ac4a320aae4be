/** The three CRC routines of the serial protocol.

    A reflected CRC is a 16-bit register.  Its reference definition here feeds the message one *bit*
    at a time; two of the routines feed one byte at a time, and the table form one nibble at a time.
    The lemmas connect the three and say which transmission errors are bound to change the register. */
module Crc {
  import opened Bytes

  /** x^16 + x^15 + x^2 + 1 with its bits reversed. */
  const MODBUS: bv16 := 0xA001

  /** x^16 + x^12 + x^5 + 1 with its bits reversed. */
  const CCITT: bv16 := 0x8408

  // ----- the register, bit by bit ------------------------------------------------------------

  function Xor(a: bv16, b: bv16): bv16 { a ^ b }

  function OneBit(b: bool): bv16 { if b then 1 else 0 }

  function BitStep(poly: bv16, c: bv16): bv16 {
    if c & 0x0001 != 0 then Xor(c >> 1, poly) else c >> 1
  }

  function BitSteps(poly: bv16, c: bv16, n: nat): bv16
    decreases n, c
  {
    if n == 0 then c else BitSteps(poly, BitStep(poly, c), n - 1)
  }

  /** The reference definition: shift the message bits into the register one after the other. */
  function FeedBits(poly: bv16, c: bv16, bits: seq<bool>): bv16
    decreases bits
  {
    if bits == [] then c else FeedBits(poly, BitStep(poly, Xor(c, OneBit(bits[0]))), bits[1..])
  }

  function Low(x: bv16): bool { x & 1 != 0 }

  function Half(x: bv16): bv16 { x >> 1 }

  /** The low `n` bits of `x` in transmission order, lowest first. */
  function LowBits(x: bv16, n: nat): (bits: seq<bool>)
    ensures |bits| == n
    decreases n, x
  {
    if n == 0 then [] else [Low(x)] + LowBits(Half(x), n - 1)
  }

  function ByteBits(b: byte): (bits: seq<bool>)
    ensures |bits| == 8
  {
    LowBits(b as bv16, 8)
  }

  function MessageBits(msg: seq<byte>): (bits: seq<bool>)
    ensures |bits| == 8 * |msg|
  {
    if msg == [] then [] else ByteBits(msg[0]) + MessageBits(msg[1..])
  }

  // ----- the register, byte by byte ----------------------------------------------------------

  function ByteStep(poly: bv16, c: bv16, b: byte): bv16 {
    BitSteps(poly, Xor(c, b as bv16), 8)
  }

  function Register(poly: bv16, c: bv16, msg: seq<byte>): bv16
    decreases msg
  {
    if msg == [] then c else Register(poly, ByteStep(poly, c, msg[0]), msg[1..])
  }

  lemma RegisterStep(poly: bv16, c: bv16, msg: seq<byte>, j: nat, len: nat)
    requires j < len <= |msg|
    ensures Register(poly, c, msg[j..len]) == Register(poly, ByteStep(poly, c, msg[j]), msg[j + 1..len])
  {
    hide ByteStep;
    assert msg[j..len][1..] == msg[j + 1..len];
  }

  lemma {:induction false} RegisterAppend(poly: bv16, c: bv16, a: seq<byte>, b: seq<byte>)
    ensures Register(poly, c, a + b) == Register(poly, Register(poly, c, a), b)
    decreases a
  {
    hide ByteStep;
    if a == [] {
      assert a + b == b;
    } else {
      assert (a + b)[1..] == a[1..] + b;
      RegisterAppend(poly, ByteStep(poly, c, a[0]), a[1..], b);
    }
  }

  /** The inner loop of both bitwise routines. */
  method ShiftByte(poly: bv16, c: bv16) returns (crc: bv16)
    ensures crc == BitSteps(poly, c, 8)
  {
    crc := c;
    var i := 0;
    while i < 8
      invariant 0 <= i <= 8
      invariant BitSteps(poly, crc, 8 - i) == BitSteps(poly, c, 8)
    {
      ghost var left: nat := 8 - i;
      assert BitSteps(poly, crc, left) == BitSteps(poly, BitStep(poly, crc), left - 1);
      if crc & 0x0001 != 0 {
        crc := Xor(crc >> 1, poly);
      } else {
        crc := crc >> 1;
      }
      i := i + 1;
    }
  }

  method Crc16Ccitt(pdata: seq<byte>, len: int) returns (crc: bv16)
    requires len <= |pdata|
    ensures crc == if len > 0 then Register(CCITT, 0, pdata[..len]) else 0
  {
    crc := 0x0000;
    var j := 0;
    while j < len
      invariant 0 <= j <= if len > 0 then len else 0
      invariant len > 0 ==> Register(CCITT, crc, pdata[j..len]) == Register(CCITT, 0, pdata[..len])
      invariant len <= 0 ==> crc == 0
    {
      RegisterStep(CCITT, crc, pdata, j, len);
      crc := Xor(crc, pdata[j] as bv16);
      crc := ShiftByte(CCITT, crc);
      j := j + 1;
    }
  }

  method Crc16Modbus(pdata: seq<byte>, len: int) returns (crc: bv16)
    requires len <= |pdata|
    ensures crc == if len > 0 then Register(MODBUS, 0xffff, pdata[..len]) else 0xffff
  {
    crc := 0xffff;
    var j := 0;
    while j < len
      invariant 0 <= j <= if len > 0 then len else 0
      invariant len > 0 ==> Register(MODBUS, crc, pdata[j..len]) == Register(MODBUS, 0xffff, pdata[..len])
      invariant len <= 0 ==> crc == 0xffff
    {
      RegisterStep(MODBUS, crc, pdata, j, len);
      crc := Xor(crc, pdata[j] as bv16);
      crc := ShiftByte(MODBUS, crc);
      j := j + 1;
    }
  }

  // ----- linearity of the bit step -----------------------------------------------------------

  lemma EvenStep(poly: bv16, x: bv16)
    requires x & 1 == 0
    ensures BitStep(poly, x) == x >> 1
  {
  }

  lemma OddStep(poly: bv16, x: bv16)
    requires x & 1 == 1
    ensures BitStep(poly, x) == Xor(x >> 1, poly)
  {
    hide Xor;
  }

  lemma XorShift(c: bv16, d: bv16)
    ensures Xor(c, d) >> 1 == Xor(c >> 1, d >> 1)
    ensures Xor(c, d) & 1 == Xor(c & 1, d & 1)
    ensures Xor(c, d) == Xor(d, c)
  {
  }

  lemma XorLow()
    ensures Xor(0, 0) == 0 && Xor(1, 0) == 1 && Xor(0, 1) == 1 && Xor(1, 1) == 0
  {
  }

  lemma XorAssociates(c: bv16, d: bv16, e: bv16)
    ensures Xor(Xor(c, d), e) == Xor(c, Xor(d, e))
    ensures Xor(Xor(c, d), Xor(d, e)) == Xor(c, e)
  {
  }

  lemma LinearOnEvens(poly: bv16, c: bv16, d: bv16)
    requires c & 1 == 0 && d & 1 == 0
    ensures BitStep(poly, Xor(c, d)) == Xor(BitStep(poly, c), BitStep(poly, d))
  {
    hide BitStep, Xor;
    XorShift(c, d);
    XorLow();
    EvenStep(poly, c);
    EvenStep(poly, d);
    EvenStep(poly, Xor(c, d));
  }

  lemma LinearOnMixed(poly: bv16, c: bv16, d: bv16)
    requires c & 1 == 0 && d & 1 == 1
    ensures BitStep(poly, Xor(c, d)) == Xor(BitStep(poly, c), BitStep(poly, d))
  {
    hide BitStep, Xor;
    XorShift(c, d);
    XorLow();
    EvenStep(poly, c);
    OddStep(poly, d);
    OddStep(poly, Xor(c, d));
    XorAssociates(c >> 1, d >> 1, poly);
  }

  lemma LinearOnOdds(poly: bv16, c: bv16, d: bv16)
    requires c & 1 == 1 && d & 1 == 1
    ensures BitStep(poly, Xor(c, d)) == Xor(BitStep(poly, c), BitStep(poly, d))
  {
    hide BitStep, Xor;
    XorShift(c, d);
    XorLow();
    OddStep(poly, c);
    OddStep(poly, d);
    EvenStep(poly, Xor(c, d));
    XorShift(poly, d >> 1);
    XorAssociates(c >> 1, poly, d >> 1);
  }

  lemma EvenOrOdd(c: bv16)
    ensures c & 1 == 0 || c & 1 == 1
  {
  }

  /** The bit step is linear over exclusive or, whatever the polynomial. */
  lemma StepLinear(poly: bv16, c: bv16, d: bv16)
    ensures BitStep(poly, Xor(c, d)) == Xor(BitStep(poly, c), BitStep(poly, d))
  {
    hide BitStep, Xor;
    EvenOrOdd(c);
    EvenOrOdd(d);
    if c & 1 == 0 {
      if d & 1 == 0 { LinearOnEvens(poly, c, d); } else { LinearOnMixed(poly, c, d); }
    } else if d & 1 == 0 {
      LinearOnMixed(poly, d, c);
      XorShift(c, d);
      XorShift(BitStep(poly, c), BitStep(poly, d));
    } else {
      LinearOnOdds(poly, c, d);
    }
  }

  lemma {:induction false} StepsLinear(poly: bv16, c: bv16, d: bv16, n: nat)
    ensures BitSteps(poly, Xor(c, d), n) == Xor(BitSteps(poly, c, n), BitSteps(poly, d, n))
    decreases n
  {
    hide BitStep, Xor;
    if n > 0 {
      StepLinear(poly, c, d);
      StepsLinear(poly, BitStep(poly, c), BitStep(poly, d), n - 1);
    }
  }

  lemma {:induction false} StepsCompose(poly: bv16, c: bv16, m: nat, n: nat)
    ensures BitSteps(poly, BitSteps(poly, c, m), n) == BitSteps(poly, c, m + n)
    decreases m
  {
    hide BitStep;
    if m > 0 { StepsCompose(poly, BitStep(poly, c), m - 1, n); }
  }

  /** Four bit steps, written out. */
  lemma FourSteps(poly: bv16, c: bv16)
    ensures BitSteps(poly, c, 4) == BitStep(poly, BitStep(poly, BitStep(poly, BitStep(poly, c))))
  {
    hide BitStep;
    var c1 := BitStep(poly, c);
    var c2 := BitStep(poly, c1);
    var c3 := BitStep(poly, c2);
    var c4 := BitStep(poly, c3);
    assert BitSteps(poly, c, 4) == BitSteps(poly, c1, 3) == BitSteps(poly, c2, 2)
        == BitSteps(poly, c3, 1) == BitSteps(poly, c4, 0);
  }

  lemma NibbleShifts(x: bv16)
    requires x & 0xf == 0
    ensures x & 1 == 0 && (x >> 1) & 1 == 0 && (x >> 2) & 1 == 0 && (x >> 3) & 1 == 0
    ensures (x >> 1) >> 1 == x >> 2 && (x >> 2) >> 1 == x >> 3 && (x >> 3) >> 1 == x >> 4
  {
  }

  /** Four steps on a register whose low nibble is clear only shift it. */
  lemma HighBitsShift(poly: bv16, x: bv16)
    requires x & 0xf == 0
    ensures BitSteps(poly, x, 4) == x >> 4
  {
    hide BitStep, BitSteps;
    NibbleShifts(x);
    EvenStep(poly, x);
    EvenStep(poly, x >> 1);
    EvenStep(poly, x >> 2);
    EvenStep(poly, x >> 3);
    FourSteps(poly, x);
  }

  // ----- the register, nibble by nibble ------------------------------------------------------

  /** `tCRCData`. */
  const CRC_DATA: seq<bv16> := [
    0x0000, 0x1081, 0x2102, 0x3183, 0x4204, 0x5285, 0x6306, 0x7387,
    0x8408, 0x9489, 0xa50a, 0xb58b, 0xc60c, 0xd68d, 0xe70e, 0xf78f]

  function Entry(i: bv16): bv16
    requires i < 16
  {
    CRC_DATA[i as int]
  }

  /** Every table entry is what four bit steps make of its index. */
  lemma EntryIsFourSteps(i: bv16)
    requires i < 16
    ensures Entry(i) == BitSteps(CCITT, i, 4)
  {
    FourSteps(CCITT, i);
    if i == 0 || i == 1 || i == 2 || i == 3 {
    } else if i == 4 || i == 5 || i == 6 || i == 7 {
    } else if i == 8 || i == 9 || i == 10 || i == 11 {
    } else {
      assert i == 12 || i == 13 || i == 14 || i == 15;
    }
  }

  lemma SplitNibble(c: bv16, nibble: bv16)
    requires nibble < 16
    ensures Xor(c & 0x0f, nibble) < 16 && (c & 0xfff0) & 0xf == 0 && (c & 0xfff0) >> 4 == c >> 4
    ensures Xor(c, nibble) == Xor(c & 0xfff0, Xor(c & 0x0f, nibble))
  {
  }

  /** One table look-up: half of the loop body of the table routine. */
  function LookUp(c: bv16, nibble: bv16): bv16
    requires nibble < 16
  {
    SplitNibble(c, nibble);
    Xor(c >> 4, Entry(Xor(c & 0x0f, nibble)))
  }

  function LowNibble(b: byte): (n: bv16)
    ensures n < 16
  {
    (b & 0x0f) as bv16
  }

  function HighNibble(b: byte): (n: bv16)
    ensures n < 16
  {
    (b >> 4) as bv16
  }

  /** One table look-up does the work of four bit steps. */
  lemma LookUpIsFourSteps(c: bv16, nibble: bv16)
    requires nibble < 16
    ensures LookUp(c, nibble) == BitSteps(CCITT, Xor(c, nibble), 4)
  {
    hide Entry, BitSteps, BitStep, Xor;
    SplitNibble(c, nibble);
    EntryIsFourSteps(Xor(c & 0x0f, nibble));
    HighBitsShift(CCITT, c & 0xfff0);
    StepsLinear(CCITT, c & 0xfff0, Xor(c & 0x0f, nibble), 4);
  }

  lemma SplitByte(c: bv16, b: byte)
    ensures Xor(c, b as bv16) == Xor(Xor(c, LowNibble(b)), (b & 0xf0) as bv16)
    ensures ((b & 0xf0) as bv16) & 0xf == 0 && ((b & 0xf0) as bv16) >> 4 == HighNibble(b)
  {
  }

  /** Two table look-ups do the work of one byte step. */
  lemma {:induction false} TwoLookUps(c: bv16, b: byte)
    ensures LookUp(LookUp(c, LowNibble(b)), HighNibble(b)) == ByteStep(CCITT, c, b)
  {
    hide LookUp, LowNibble, HighNibble, BitSteps, BitStep, Xor;
    SplitByte(c, b);
    LookUpIsFourSteps(c, LowNibble(b));
    LookUpIsFourSteps(LookUp(c, LowNibble(b)), HighNibble(b));
    StepsLinear(CCITT, Xor(c, LowNibble(b)), (b & 0xf0) as bv16, 4);
    HighBitsShift(CCITT, (b & 0xf0) as bv16);
    StepsCompose(CCITT, Xor(c, b as bv16), 4, 4);
  }

  method FucGetCrc(vInit: bv16, ptr: seq<byte>, len: byte) returns (r: bv16)
    requires len as int <= |ptr|
    ensures r == !Register(CCITT, vInit, ptr[..len as int])
  {
    hide ByteStep, LookUp, LowNibble, HighNibble;
    var vCRC := vInit;
    var count := len as int;
    var n := count;
    var i := 0;
    while n != 0
      invariant 0 <= n && 0 <= i && i + n == count
      invariant Register(CCITT, vCRC, ptr[i..count]) == Register(CCITT, vInit, ptr[..count])
    {
      RegisterStep(CCITT, vCRC, ptr, i, count);
      TwoLookUps(vCRC, ptr[i]);
      n := n - 1;
      vCRC := LookUp(vCRC, LowNibble(ptr[i]));
      vCRC := LookUp(vCRC, HighNibble(ptr[i]));
      i := i + 1;
    }
    r := !vCRC;
  }

  /** The table routine and the bitwise routine agree on every message the table routine can take. */
  method TableAgreesWithBits(p: seq<byte>, n: byte) returns (fast: bv16, slow: bv16)
    requires n as int <= |p|
    ensures fast == !slow
  {
    fast := FucGetCrc(0, p, n);
    slow := Crc16Ccitt(p, n as int);
    assert n as int == 0 ==> p[..n as int] == [];
  }

  // ----- bytes against bits ------------------------------------------------------------------

  lemma {:induction false} FeedAppend(poly: bv16, c: bv16, a: seq<bool>, b: seq<bool>)
    ensures FeedBits(poly, c, a + b) == FeedBits(poly, FeedBits(poly, c, a), b)
    decreases a
  {
    hide BitStep, Xor;
    if a == [] {
      assert a + b == b;
    } else {
      assert (a + b)[1..] == a[1..] + b;
      FeedAppend(poly, BitStep(poly, Xor(c, OneBit(a[0]))), a[1..], b);
    }
  }

  function ShiftedOut(x: bv16, n: nat): bv16
    decreases n, x
  {
    if n == 0 then x else ShiftedOut(Half(x), n - 1)
  }

  lemma PeelLow(c: bv16, x: bv16)
    ensures (x & 0xfffe) >> 1 == x >> 1 && (x & 0xfffe) & 1 == 0 && Xor(c, x) == Xor(Xor(c, x & 1), x & 0xfffe)
  {
    hide Xor;
    LowAndRest(x);
    XorAssociates(c, x & 1, x & 0xfffe);
  }

  lemma LowAndRest(x: bv16)
    ensures (x & 0xfffe) >> 1 == x >> 1 && (x & 0xfffe) & 1 == 0 && Xor(x & 1, x & 0xfffe) == x
  {
  }

  /** The bits of `x` above the lowest one only move down by one place. */
  lemma StepPeel(poly: bv16, c: bv16, x: bv16)
    ensures BitStep(poly, Xor(c, x)) == Xor(BitStep(poly, Xor(c, OneBit(Low(x)))), Half(x))
  {
    hide BitStep, Xor, Low, Half, OneBit;
    PeelLow(c, x);
    LowBitOf(x);
    EvenStep(poly, x & 0xfffe);
    StepLinear(poly, Xor(c, x & 1), x & 0xfffe);
  }

  lemma LowBitOf(x: bv16)
    ensures OneBit(Low(x)) == x & 1 && Half(x) == x >> 1
  {
  }

  /** A register that got `x` at once differs from one that got its bits singly by the bits still to come. */
  lemma {:induction false} FeedsBehind(poly: bv16, c: bv16, x: bv16, n: nat)
    ensures BitSteps(poly, Xor(c, x), n) == Xor(FeedBits(poly, c, LowBits(x, n)), ShiftedOut(x, n))
    decreases n
  {
    hide BitStep, Xor, OneBit, Low, Half;
    if n > 0 {
      StepPeel(poly, c, x);
      FeedsBehind(poly, BitStep(poly, Xor(c, OneBit(Low(x)))), Half(x), n - 1);
      assert LowBits(x, n)[1..] == LowBits(Half(x), n - 1);
    }
  }

  lemma ByteShiftsOut(b: byte)
    ensures ShiftedOut(b as bv16, 8) == 0
  {
    var x := b as bv16;
    assert ShiftedOut(x, 8) == ShiftedOut(Half(x), 7) == ShiftedOut(Half(Half(x)), 6)
        == ShiftedOut(Half(Half(Half(x))), 5);
    var y := Half(Half(Half(x)));
    assert ShiftedOut(y, 5) == ShiftedOut(Half(y), 4) == ShiftedOut(Half(Half(y)), 3)
        == ShiftedOut(Half(Half(Half(y))), 2);
    var z := Half(Half(Half(y)));
    assert ShiftedOut(z, 2) == ShiftedOut(Half(z), 1) == ShiftedOut(Half(Half(z)), 0);
  }

  lemma XorZero(c: bv16)
    ensures Xor(c, 0) == c && Xor(c, c) == 0
    ensures forall d :: Xor(c, d) == 0 ==> c == d
  {
  }

  lemma ByteIsEightBits(poly: bv16, c: bv16, b: byte)
    ensures ByteStep(poly, c, b) == FeedBits(poly, c, ByteBits(b))
  {
    hide BitSteps, BitStep, Xor, FeedBits, LowBits, ShiftedOut;
    FeedsBehind(poly, c, b as bv16, 8);
    ByteShiftsOut(b);
    XorZero(FeedBits(poly, c, ByteBits(b)));
  }

  /** The byte loops compute the reference definition. */
  lemma {:induction false} RegisterIsBits(poly: bv16, c: bv16, msg: seq<byte>)
    ensures Register(poly, c, msg) == FeedBits(poly, c, MessageBits(msg))
    decreases msg
  {
    hide ByteStep, ByteBits, FeedBits;
    if msg == [] {
      FeedNothing(poly, c);
    } else {
      ByteIsEightBits(poly, c, msg[0]);
      FeedAppend(poly, c, ByteBits(msg[0]), MessageBits(msg[1..]));
      RegisterIsBits(poly, ByteStep(poly, c, msg[0]), msg[1..]);
    }
  }

  lemma FeedNothing(poly: bv16, c: bv16)
    ensures FeedBits(poly, c, []) == c
  {
  }

  // ----- bursts ------------------------------------------------------------------------------

  /** The single bit at place `m`. */
  function Place(m: nat): bv16
    requires m <= 15
  {
    if m == 0 then 0x0001 else if m == 1 then 0x0002 else if m == 2 then 0x0004 else if m == 3 then 0x0008
    else if m == 4 then 0x0010 else if m == 5 then 0x0020 else if m == 6 then 0x0040 else if m == 7 then 0x0080
    else if m == 8 then 0x0100 else if m == 9 then 0x0200 else if m == 10 then 0x0400 else if m == 11 then 0x0800
    else if m == 12 then 0x1000 else if m == 13 then 0x2000 else if m == 14 then 0x4000 else 0x8000
  }

  /** The difference `d` of two registers reaches up to place `m` at least. */
  predicate Reaches(d: bv16, m: nat)
    requires m <= 15
  {
    AtLeast(d, Place(m))
  }

  predicate AtLeast(d: bv16, t: bv16) { d >= t }

  /** `u` is the single bit `t`, one place lower. */
  predicate Halves(t: bv16, u: bv16) {
    t & 1 == 0 && t != 0 && t >> 1 == u
  }

  lemma PlaceHalves(m: nat)
    requires 0 < m <= 15
    ensures Halves(Place(m), Place(m - 1))
  {
  }

  lemma SinkByOne(poly: bv16, d: bv16, e: bool, t: bv16, u: bv16)
    requires poly & 0x8000 != 0 && Halves(t, u) && AtLeast(d, t)
    ensures AtLeast(BitStep(poly, Xor(d, OneBit(e))), u)
  {
    var f := OneBit(e);
    if Xor(d, f) & 1 == 0 { EvenStep(poly, Xor(d, f)); }
  }

  /** A difference sinks by one place at most, whatever the two next bits are. */
  lemma DifferenceSinks(poly: bv16, d: bv16, e: bool, m: nat)
    requires poly & 0x8000 != 0 && 0 < m <= 15 && Reaches(d, m)
    ensures Reaches(BitStep(poly, Xor(d, OneBit(e))), m - 1)
  {
    hide BitStep, Place, OneBit, Xor, Halves, AtLeast;
    PlaceHalves(m);
    SinkByOne(poly, d, e, Place(m), Place(m - 1));
  }

  /** Any difference survives a step on equal bits. */
  lemma DifferenceStays(poly: bv16, d: bv16)
    requires poly & 0x8000 != 0 && Reaches(d, 0)
    ensures Reaches(BitStep(poly, Xor(d, OneBit(false))), 0)
  {
    XorZero(d);
  }

  lemma ReachingIsDiffering(m: nat)
    requires m <= 15
    ensures !Reaches(0, m)
  {
  }

  lemma XorSwap(x: bv16, y: bv16, e: bv16, f: bv16)
    ensures Xor(Xor(x, e), Xor(y, f)) == Xor(Xor(x, y), Xor(e, f))
  {
    hide Xor;
    XorAssociates(x, e, Xor(y, f));
    XorAssociates(e, y, f);
    XorShift(e, y);
    XorAssociates(y, e, f);
    XorAssociates(x, y, Xor(e, f));
  }

  lemma OneBitXor(p: bool, q: bool)
    ensures Xor(OneBit(p), OneBit(q)) == OneBit(p != q)
  {
  }

  /** Two registers fed one bit each: their difference is fed the difference of the bits. */
  lemma DifferenceStep(poly: bv16, x: bv16, y: bv16, p: bool, q: bool)
    ensures Xor(BitStep(poly, Xor(x, OneBit(p))), BitStep(poly, Xor(y, OneBit(q))))
         == BitStep(poly, Xor(Xor(x, y), OneBit(p != q)))
  {
    hide BitStep, Xor, OneBit;
    StepLinear(poly, Xor(x, OneBit(p)), Xor(y, OneBit(q)));
    XorSwap(x, y, OneBit(p), OneBit(q));
    OneBitXor(p, q);
  }

  /** Registers that differ at place `m` or above stay apart if the streams agree from bit `m` on. */
  lemma {:induction false} StayApart(poly: bv16, x: bv16, y: bv16, a: seq<bool>, b: seq<bool>, m: nat)
    requires poly & 0x8000 != 0 && m <= 15 && Reaches(Xor(x, y), m)
    requires |a| == |b| && forall i :: m <= i < |a| ==> a[i] == b[i]
    ensures FeedBits(poly, x, a) != FeedBits(poly, y, b)
    decreases a
  {
    hide BitStep, Xor, OneBit, Reaches;
    if a == [] {
      ReachingIsDiffering(m);
      XorZero(x);
    } else {
      var x', y' := BitStep(poly, Xor(x, OneBit(a[0]))), BitStep(poly, Xor(y, OneBit(b[0])));
      DifferenceStep(poly, x, y, a[0], b[0]);
      if m > 0 {
        DifferenceSinks(poly, Xor(x, y), a[0] != b[0], m);
        StayApart(poly, x', y', a[1..], b[1..], m - 1);
      } else {
        DifferenceStays(poly, Xor(x, y));
        StayApart(poly, x', y', a[1..], b[1..], 0);
      }
    }
  }

  lemma FirstDifference(poly: bv16, c: bv16)
    requires poly & 0x8000 != 0
    ensures Reaches(BitStep(poly, Xor(Xor(c, c), OneBit(true))), 15)
  {
    XorZero(c);
  }

  /** Every burst of at most sixteen bits is detected: two streams of one length that differ, but only
      within sixteen consecutive bits, never leave the same register behind. */
  lemma {:induction false} BurstDetected(poly: bv16, c: bv16, a: seq<bool>, b: seq<bool>, k: nat)
    requires poly & 0x8000 != 0
    requires |a| == |b| && a != b
    requires forall i :: 0 <= i < |a| && (i < k || k + 16 <= i) ==> a[i] == b[i]
    ensures FeedBits(poly, c, a) != FeedBits(poly, c, b)
    decreases a
  {
    hide BitStep, Xor, OneBit, Reaches;
    if a[0] == b[0] {
      assert a == [a[0]] + a[1..] && b == [b[0]] + b[1..];
      BurstDetected(poly, BitStep(poly, Xor(c, OneBit(a[0]))), a[1..], b[1..], if k > 0 then k - 1 else 0);
    } else {
      var x, y := BitStep(poly, Xor(c, OneBit(a[0]))), BitStep(poly, Xor(c, OneBit(b[0])));
      DifferenceStep(poly, c, c, a[0], b[0]);
      FirstDifference(poly, c);
      StayApart(poly, x, y, a[1..], b[1..], 15);
    }
  }

  lemma {:induction false} LowBitsInjective(x: bv16, y: bv16, n: nat)
    requires LowBits(x, n) == LowBits(y, n) && ShiftedOut(x, n) == ShiftedOut(y, n)
    ensures x == y
    decreases n
  {
    hide Low, Half;
    if n > 0 {
      assert LowBits(x, n)[0] == LowBits(y, n)[0];
      assert LowBits(x, n)[1..] == LowBits(Half(x), n - 1) && LowBits(y, n)[1..] == LowBits(Half(y), n - 1);
      LowBitsInjective(Half(x), Half(y), n - 1);
      SameHalves(x, y);
    }
  }

  lemma SameHalves(x: bv16, y: bv16)
    requires Half(x) == Half(y) && Low(x) == Low(y)
    ensures x == y
  {
  }

  lemma ByteBitsInjective(a: byte, b: byte)
    requires ByteBits(a) == ByteBits(b)
    ensures a == b
  {
    hide LowBits, ShiftedOut;
    ByteShiftsOut(a);
    ByteShiftsOut(b);
    LowBitsInjective(a as bv16, b as bv16, 8);
  }

  lemma {:induction false} MessageBitsInjective(p: seq<byte>, q: seq<byte>)
    requires |p| == |q| && MessageBits(p) == MessageBits(q)
    ensures p == q
    decreases p
  {
    hide ByteBits;
    if p != [] {
      assert MessageBits(p)[..8] == ByteBits(p[0]) && MessageBits(p)[8..] == MessageBits(p[1..]);
      assert MessageBits(q)[..8] == ByteBits(q[0]) && MessageBits(q)[8..] == MessageBits(q[1..]);
      ByteBitsInjective(p[0], q[0]);
      MessageBitsInjective(p[1..], q[1..]);
    }
  }

  /** Equal bytes give equal bits in the same places. */
  lemma {:induction false} SameBitsOutside(p: seq<byte>, q: seq<byte>, j: nat, i: nat)
    requires |p| == |q| && forall n :: 0 <= n < |p| && n != j && n != j + 1 ==> p[n] == q[n]
    requires i < 8 * |p| && (i < 8 * j || 8 * j + 16 <= i)
    ensures MessageBits(p)[i] == MessageBits(q)[i]
    decreases p
  {
    hide ByteBits;
    if i < 8 {
      assert p[0] == q[0];
    } else if j > 0 {
      SameBitsOutside(p[1..], q[1..], j - 1, i - 8);
    } else {
      SameTail(p, q, i);
    }
  }

  lemma SameTail(p: seq<byte>, q: seq<byte>, i: nat)
    requires |p| == |q| && forall n :: 0 <= n < |p| && n != 0 && n != 1 ==> p[n] == q[n]
    requires 16 <= i < 8 * |p|
    ensures MessageBits(p)[i] == MessageBits(q)[i]
  {
    hide ByteBits;
    assert p[1..][1..] == q[1..][1..];
    assert MessageBits(p[1..])[i - 8] == MessageBits(p[1..][1..])[i - 16];
    assert MessageBits(q[1..])[i - 8] == MessageBits(q[1..][1..])[i - 16];
  }

  /** A change confined to two adjacent bytes always changes the value of both bitwise routines. */
  lemma AdjacentBytesDetected(poly: bv16, c: bv16, p: seq<byte>, q: seq<byte>, j: nat)
    requires poly == MODBUS || poly == CCITT
    requires |p| == |q| && p != q && forall n :: 0 <= n < |p| && n != j && n != j + 1 ==> p[n] == q[n]
    ensures Register(poly, c, p) != Register(poly, c, q)
  {
    hide Register, FeedBits, MessageBits;
    if MessageBits(p) == MessageBits(q) { MessageBitsInjective(p, q); }
    forall i | 0 <= i < 8 * |p| && (i < 8 * j || 8 * j + 16 <= i) ensures MessageBits(p)[i] == MessageBits(q)[i] {
      SameBitsOutside(p, q, j, i);
    }
    BurstDetected(poly, c, MessageBits(p), MessageBits(q), 8 * j);
    RegisterIsBits(poly, c, p);
    RegisterIsBits(poly, c, q);
  }

  // ----- odd numbers of wrong bits -----------------------------------------------------------

  /** Whether an odd number of the low `n` bits of the register is set. */
  function OddOnes(c: bv16, n: nat): bool
    decreases n, c
  {
    n > 0 && (Low(c) != OddOnes(Half(c), n - 1))
  }

  /** The number of places at which two streams differ. */
  function Differences(a: seq<bool>, b: seq<bool>): nat
    requires |a| == |b|
  {
    if a == [] then 0 else (if a[0] != b[0] then 1 else 0) + Differences(a[1..], b[1..])
  }

  lemma XorHalves(c: bv16, d: bv16)
    ensures Half(Xor(c, d)) == Xor(Half(c), Half(d)) && Low(Xor(c, d)) == (Low(c) != Low(d))
  {
    hide Xor;
    XorShift(c, d);
    XorLow();
    assert c & 1 == 0 || c & 1 == 1;
    assert d & 1 == 0 || d & 1 == 1;
  }

  lemma {:induction false} OddOnesXor(c: bv16, d: bv16, n: nat)
    ensures OddOnes(Xor(c, d), n) == (OddOnes(c, n) != OddOnes(d, n))
    decreases n
  {
    hide Xor, Half, Low;
    if n > 0 {
      XorHalves(c, d);
      OddOnesXor(Half(c), Half(d), n - 1);
    }
  }

  lemma {:induction false} TopBit(c: bv16, n: nat)
    ensures OddOnes(c, n + 1) == (OddOnes(c, n) != Low(ShiftedOut(c, n)))
    decreases n
  {
    hide Half, Low;
    if n > 0 {
      TopBit(Half(c), n - 1);
    } else {
      assert OddOnes(Half(c), 0) == false;
    }
  }

  lemma {:induction false} ShiftsCompose(c: bv16, m: nat, n: nat)
    ensures ShiftedOut(ShiftedOut(c, m), n) == ShiftedOut(c, m + n)
    decreases m
  {
    hide Half;
    if m > 0 { ShiftsCompose(Half(c), m - 1, n); }
  }

  lemma FourShifts(c: bv16)
    ensures ShiftedOut(c, 4) == c >> 4
  {
    var h2 := Half(Half(c));
    assert ShiftedOut(c, 4) == ShiftedOut(Half(c), 3) == ShiftedOut(h2, 2);
    assert ShiftedOut(h2, 2) == ShiftedOut(Half(h2), 1) == ShiftedOut(Half(Half(h2)), 0);
  }

  lemma AllShiftsOut(c: bv16)
    ensures ShiftedOut(c, 16) == 0
  {
    hide ShiftedOut;
    FourShifts(c);
    FourShifts(c >> 4);
    FourShifts((c >> 4) >> 4);
    FourShifts(((c >> 4) >> 4) >> 4);
    ShiftsCompose(c, 4, 4);
    ShiftsCompose(c, 8, 4);
    ShiftsCompose(c, 12, 4);
    assert ((((c >> 4) >> 4) >> 4) >> 4) == 0;
  }

  lemma OddOnesHalf(c: bv16)
    ensures OddOnes(Half(c), 16) == (OddOnes(c, 16) != Low(c))
  {
    hide Half, Low;
    TopBit(Half(c), 15);
    AllShiftsOut(c);
    assert ShiftedOut(c, 16) == ShiftedOut(Half(c), 15);
    LowOfZero();
  }

  lemma LowOfZero()
    ensures !Low(0)
  {
  }

  lemma HalfStep(poly: bv16, c: bv16)
    ensures BitStep(poly, c) == if Low(c) then Xor(Half(c), poly) else Half(c)
  {
    hide Xor;
  }

  /** The generators have an even number of terms, so a step preserves the parity of the register. */
  lemma ParityStep(poly: bv16, c: bv16)
    requires OddOnes(poly, 16)
    ensures OddOnes(BitStep(poly, c), 16) == OddOnes(c, 16)
  {
    hide Xor, Half, Low, BitStep, OddOnes;
    HalfStep(poly, c);
    OddOnesHalf(c);
    OddOnesXor(Half(c), poly, 16);
  }

  lemma OneBitParity(e: bool)
    ensures OddOnes(OneBit(e), 16) == e
  {
    hide OddOnes;
    OddOnesHalf(OneBit(e));
    assert Half(OneBit(e)) == 0 && Low(OneBit(e)) == e;
    OddOnesHalf(0);
    OddOnesXor(0, 0, 16);
    XorZero(0);
  }

  lemma GeneratorParity()
    ensures OddOnes(MODBUS, 16) && OddOnes(CCITT, 16)
  {
    assert OddOnes(0xA001, 16);
    assert OddOnes(0x8408, 16);
  }

  lemma {:induction false} ParityOfFeeds(poly: bv16, x: bv16, y: bv16, a: seq<bool>, b: seq<bool>)
    requires OddOnes(poly, 16) && |a| == |b|
    ensures (OddOnes(FeedBits(poly, x, a), 16) != OddOnes(FeedBits(poly, y, b), 16))
        <==> ((OddOnes(x, 16) != OddOnes(y, 16)) != (Differences(a, b) % 2 == 1))
    decreases a
  {
    hide BitStep, Xor, OneBit, OddOnes;
    if a != [] {
      ParityStep(poly, Xor(x, OneBit(a[0])));
      ParityStep(poly, Xor(y, OneBit(b[0])));
      OddOnesXor(x, OneBit(a[0]), 16);
      OddOnesXor(y, OneBit(b[0]), 16);
      OneBitParity(a[0]);
      OneBitParity(b[0]);
      ParityOfFeeds(poly, BitStep(poly, Xor(x, OneBit(a[0]))), BitStep(poly, Xor(y, OneBit(b[0]))), a[1..], b[1..]);
    }
  }

  /** An odd number of wrong bits, wherever they are, always changes the value of both bitwise routines. */
  lemma OddErrorsDetected(poly: bv16, c: bv16, p: seq<byte>, q: seq<byte>)
    requires (poly == MODBUS || poly == CCITT) && |p| == |q|
    requires Differences(MessageBits(p), MessageBits(q)) % 2 == 1
    ensures Register(poly, c, p) != Register(poly, c, q)
  {
    hide Register, FeedBits, MessageBits, OddOnes, Differences;
    GeneratorParity();
    ParityOfFeeds(poly, c, c, MessageBits(p), MessageBits(q));
    RegisterIsBits(poly, c, p);
    RegisterIsBits(poly, c, q);
  }

  // ----- residues ----------------------------------------------------------------------------

  function LowByte(c: bv16): byte { (c & 0xff) as bv8 }

  function HighByte(c: bv16): byte { (c >> 8) as bv8 }

  lemma SplitRegister(c: bv16)
    ensures Xor(c, LowByte(c) as bv16) & 0xf == 0 && (Xor(c, LowByte(c) as bv16) >> 4) & 0xf == 0
    ensures ((Xor(c, LowByte(c) as bv16) >> 4) >> 4) == c >> 8
    ensures Xor(c >> 8, HighByte(c) as bv16) == 0
  {
  }

  lemma ShiftOutLow(poly: bv16, x: bv16)
    requires x & 0xf == 0 && (x >> 4) & 0xf == 0
    ensures BitSteps(poly, x, 8) == (x >> 4) >> 4
  {
    hide BitSteps, BitStep;
    HighBitsShift(poly, x);
    HighBitsShift(poly, x >> 4);
    StepsCompose(poly, x, 4, 4);
  }

  lemma LowByteStep(poly: bv16, c: bv16)
    ensures ByteStep(poly, c, LowByte(c)) == c >> 8
  {
    hide BitSteps, BitStep, Xor, LowByte, HighByte;
    SplitRegister(c);
    ShiftOutLow(poly, Xor(c, LowByte(c) as bv16));
  }

  lemma HighByteStep(poly: bv16, c: bv16)
    ensures ByteStep(poly, c >> 8, HighByte(c)) == 0
  {
    hide BitSteps, BitStep, Xor, LowByte, HighByte;
    SplitRegister(c);
    assert (0 as bv16) & 0xf == 0 && (0 as bv16) >> 4 == 0;
    ShiftOutLow(poly, 0);
  }

  lemma TwoBytes(poly: bv16, c: bv16, a: byte, b: byte)
    ensures Register(poly, c, [a, b]) == ByteStep(poly, ByteStep(poly, c, a), b)
  {
    hide ByteStep;
    var c1 := ByteStep(poly, c, a);
    assert [a, b][1..] == [b] && [b][1..] == [];
    assert Register(poly, c1, [b]) == Register(poly, ByteStep(poly, c1, b), []);
  }

  /** Zero residue: a message followed by its own register, low byte first, leaves an empty register. */
  lemma ZeroResidue(poly: bv16, init: bv16, msg: seq<byte>)
    ensures var c := Register(poly, init, msg);
            Register(poly, init, msg + [LowByte(c), HighByte(c)]) == 0
  {
    hide Register, ByteStep, LowByte, HighByte;
    var c := Register(poly, init, msg);
    RegisterAppend(poly, init, msg, [LowByte(c), HighByte(c)]);
    TwoBytes(poly, c, LowByte(c), HighByte(c));
    LowByteStep(poly, c);
    HighByteStep(poly, c);
  }

  /** Residue zero is earned by the right trailer only: the two check bytes are determined by the message. */
  lemma ResidueDecides(poly: bv16, init: bv16, msg: seq<byte>, lo: byte, hi: byte)
    requires poly == MODBUS || poly == CCITT
    ensures var c := Register(poly, init, msg);
            Register(poly, init, msg + [lo, hi]) == 0 <==> lo == LowByte(c) && hi == HighByte(c)
  {
    hide Register, LowByte, HighByte;
    var c := Register(poly, init, msg);
    ZeroResidue(poly, init, msg);
    var p, q := msg + [lo, hi], msg + [LowByte(c), HighByte(c)];
    if p != q {
      AdjacentBytesDetected(poly, init, p, q, |msg|);
    }
    assert p[|msg|] == lo && p[|msg| + 1] == hi && q[|msg|] == LowByte(c) && q[|msg| + 1] == HighByte(c);
  }
}
