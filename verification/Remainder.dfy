/** What the check values are: remainders of polynomial division.

    A sequence of bits, first transmitted first, is a polynomial over the two-element field, its highest power first. A
    register is empty after a message if and only if the generator divides the message. */
module Remainder {
  import opened Bytes
  import opened Crc

  // ----- polynomials as bits -----------------------------------------------------------------

  function Zeros(n: nat): (z: seq<bool>)
    ensures |z| == n && forall i :: 0 <= i < n ==> !z[i]
  {
    seq(n, _ => false)
  }

  /** The sum of two polynomials. */
  function Plus(a: seq<bool>, b: seq<bool>): (s: seq<bool>)
    requires |a| == |b|
    ensures |s| == |a| && forall i :: 0 <= i < |s| ==> s[i] == (a[i] != b[i])
  {
    seq(|a|, i requires 0 <= i < |a| => a[i] != b[i])
  }

  /** The product of two polynomials, the second of degree 16: the sum of its shifts to the places set in the first. */
  function Times(q: seq<bool>, g: seq<bool>): (p: seq<bool>)
    requires |g| == 17
    ensures |p| == |q| + 16
    decreases q
  {
    if q == [] then Zeros(16)
    else Plus(if q[0] then g + Zeros(|q| - 1) else Zeros(|q| + 16), [false] + Times(q[1..], g))
  }

  ghost predicate Divides(g: seq<bool>, m: seq<bool>)
    requires |g| == 17
  {
    exists q: seq<bool> :: |q| + 16 == |m| && Times(q, g) == m
  }

  /** The generator of a reflected register: the power 16, and the register's bits from the lowest on. */
  function Generator(poly: bv16): (g: seq<bool>)
    ensures |g| == 17
  {
    [true] + LowBits(poly, 16)
  }

  /** The polynomial with the coefficient 1 at the powers in `powers`, and 0 at all others up to 16. */
  function Terms(powers: set<nat>): (g: seq<bool>)
    ensures |g| == 17
  {
    seq(17, i requires 0 <= i < 17 => 16 - i in powers)
  }

  lemma LowBitsStep(x: bv16, n: nat)
    requires n > 0
    ensures LowBits(x, n) == [Low(x)] + LowBits(Half(x), n - 1)
  {
  }

  /** The lowest four bits, and the others moved down. */
  function Four(x: bv16): (bits: seq<bool>)
    ensures |bits| == 4
  {
    [Low(x), Low(x >> 1), Low(x >> 2), Low(x >> 3)]
  }

  function Down(x: bv16): bv16 { x >> 4 }

  lemma FourBits(x: bv16, n: nat)
    requires n >= 4
    ensures LowBits(x, n) == Four(x) + LowBits(Down(x), n - 4)
  {
    HalvesAreShifts(x);
    hide LowBits, Low, Half;
    LowBitsStep(x, n);
    LowBitsStep(Half(x), n - 1);
    LowBitsStep(Half(Half(x)), n - 2);
    LowBitsStep(Half(Half(Half(x))), n - 3);
  }

  lemma HalvesAreShifts(x: bv16)
    ensures Half(x) == x >> 1 && Half(Half(x)) == x >> 2 && Half(Half(Half(x))) == x >> 3
    ensures Half(Half(Half(Half(x)))) == Down(x)
  {
  }

  lemma SixteenBits(x: bv16)
    ensures LowBits(x, 16) == Four(x) + Four(Down(x)) + Four(Down(Down(x))) + Four(Down(Down(Down(x))))
  {
    hide LowBits, Four, Down;
    FourBits(x, 16);
    FourBits(Down(x), 12);
    FourBits(Down(Down(x)), 8);
    FourBits(Down(Down(Down(x))), 4);
    assert LowBits(Down(Down(Down(Down(x)))), 0) == [];
  }

  /** x^16 + x^15 + x^2 + 1. */
  lemma ModbusGenerator()
    ensures Generator(MODBUS) == Terms({16, 15, 2, 0})
  {
    SixteenBits(MODBUS);
  }

  /** x^16 + x^12 + x^5 + 1. */
  lemma CcittGenerator()
    ensures Generator(CCITT) == Terms({16, 12, 5, 0})
  {
    SixteenBits(CCITT);
  }

  // ----- the register is linear in the message -----------------------------------------------

  lemma {:induction false} FeedsAdd(poly: bv16, x: bv16, y: bv16, a: seq<bool>, b: seq<bool>)
    requires |a| == |b|
    ensures FeedBits(poly, Xor(x, y), Plus(a, b)) == Xor(FeedBits(poly, x, a), FeedBits(poly, y, b))
    decreases a
  {
    hide BitStep, Xor, OneBit;
    if a == [] {
      assert Plus(a, b) == [];
    } else {
      DifferenceStep(poly, x, y, a[0], b[0]);
      assert Plus(a, b)[1..] == Plus(a[1..], b[1..]);
      FeedsAdd(poly, BitStep(poly, Xor(x, OneBit(a[0]))), BitStep(poly, Xor(y, OneBit(b[0]))), a[1..], b[1..]);
    }
  }

  lemma ZeroStep(poly: bv16)
    ensures BitStep(poly, Xor(0, OneBit(false))) == 0 && BitStep(poly, Xor(0, OneBit(true))) == poly
  {
  }

  lemma {:induction false} ZerosFeedZero(poly: bv16, n: nat)
    ensures FeedBits(poly, 0, Zeros(n)) == 0
    decreases n
  {
    hide BitStep, Xor, OneBit;
    if n > 0 {
      ZeroStep(poly);
      assert Zeros(n)[1..] == Zeros(n - 1);
      ZerosFeedZero(poly, n - 1);
    }
  }

  lemma {:induction false} StepsOnZero(poly: bv16, n: nat)
    ensures BitSteps(poly, 0, n) == 0
    decreases n
  {
    hide BitStep;
    if n > 0 {
      assert BitStep(poly, 0) == 0 by { EvenStep(poly, 0); }
      StepsOnZero(poly, n - 1);
    }
  }

  /** A register that is fed its own bits is empty. */
  lemma OwnBits(poly: bv16, c: bv16)
    ensures FeedBits(poly, c, LowBits(c, 16)) == 0
  {
    hide BitSteps, BitStep, Xor, FeedBits, LowBits, ShiftedOut;
    FeedsBehind(poly, c, c, 16);
    AllShiftsOut(c);
    XorZero(c);
    XorZero(FeedBits(poly, c, LowBits(c, 16)));
    StepsOnZero(poly, 16);
  }

  lemma GeneratorFeedsZero(poly: bv16, n: nat)
    ensures FeedBits(poly, 0, Generator(poly) + Zeros(n)) == 0
  {
    hide BitStep, Xor, OneBit, LowBits;
    var g := Generator(poly);
    ZeroStep(poly);
    assert g[1..] == LowBits(poly, 16);
    OwnBits(poly, poly);
    FeedAppend(poly, 0, g, Zeros(n));
    ZerosFeedZero(poly, n);
  }

  lemma {:induction false} MultiplesFeedZero(poly: bv16, q: seq<bool>)
    ensures FeedBits(poly, 0, Times(q, Generator(poly))) == 0
    decreases q
  {
    hide BitStep, Xor, OneBit, Generator;
    var g := Generator(poly);
    if q == [] {
      ZerosFeedZero(poly, 16);
    } else {
      var first := if q[0] then g + Zeros(|q| - 1) else Zeros(|q| + 16);
      var rest := Times(q[1..], g);
      MultiplesFeedZero(poly, q[1..]);
      ZeroStep(poly);
      assert ([false] + rest)[1..] == rest;
      if q[0] { GeneratorFeedsZero(poly, |q| - 1); } else { ZerosFeedZero(poly, |q| + 16); }
      FeedsAdd(poly, 0, 0, first, [false] + rest);
      XorZero(0);
    }
  }

  // ----- division ----------------------------------------------------------------------------

  /** Sixteen bits leave an empty register only if none is set. */
  lemma SixteenBitsTell(poly: bv16, m: seq<bool>)
    requires poly & 0x8000 != 0 && |m| == 16 && FeedBits(poly, 0, m) == 0
    ensures m == Zeros(16)
  {
    hide FeedBits;
    ZerosFeedZero(poly, 16);
    if m != Zeros(16) { BurstDetected(poly, 0, m, Zeros(16), 0); }
  }

  lemma PlusTwice(a: seq<bool>, b: seq<bool>)
    requires |a| == |b|
    ensures Plus(a, Plus(a, b)) == b
  {
  }

  lemma {:induction false} LongDivision(poly: bv16, m: seq<bool>) returns (q: seq<bool>)
    requires poly & 0x8000 != 0 && |m| >= 16 && FeedBits(poly, 0, m) == 0
    ensures |q| + 16 == |m| && Times(q, Generator(poly)) == m
    decreases |m|
  {
    hide BitStep, Xor, OneBit, Generator;
    if |m| == 16 {
      SixteenBitsTell(poly, m);
      q := [];
    } else {
      var n := |m| - 17;
      var g := Generator(poly);
      assert g[0] by { GeneratorStarts(poly); }
      var first := if m[0] then g + Zeros(n) else Zeros(n + 17);
      var rest := Plus(first, m);
      if m[0] { GeneratorFeedsZero(poly, n); } else { ZerosFeedZero(poly, n + 17); }
      FeedsAdd(poly, 0, 0, first, m);
      XorZero(0);
      ZeroStep(poly);
      assert !rest[0] && rest == [false] + rest[1..];
      var more := LongDivision(poly, rest[1..]);
      q := [m[0]] + more;
      assert q[1..] == more;
      PlusTwice(first, m);
    }
  }

  lemma GeneratorStarts(poly: bv16)
    ensures Generator(poly)[0]
  {
  }

  /** From an empty register, a message leaves an empty register if and only if the generator divides it. */
  lemma EmptyIffDivides(poly: bv16, m: seq<bool>)
    requires poly & 0x8000 != 0 && |m| >= 16
    ensures FeedBits(poly, 0, m) == 0 <==> Divides(Generator(poly), m)
  {
    hide FeedBits, Generator, Times;
    if FeedBits(poly, 0, m) == 0 {
      var q := LongDivision(poly, m);
    }
    if Divides(Generator(poly), m) {
      var q: seq<bool> :| |q| + 16 == |m| && Times(q, Generator(poly)) == m;
      MultiplesFeedZero(poly, q);
    }
  }

  // ----- start values ------------------------------------------------------------------------

  /** The message with the bits of a start value added to its first sixteen bits. */
  function Started(c: bv16, m: seq<bool>): (s: seq<bool>)
    requires |m| >= 16
    ensures |s| == |m|
  {
    Plus(LowBits(c, 16) + Zeros(|m| - 16), m)
  }

  lemma StartIsAdded(poly: bv16, c: bv16, m: seq<bool>)
    requires |m| >= 16
    ensures FeedBits(poly, c, m) == FeedBits(poly, 0, Started(c, m))
  {
    hide BitStep, Xor, OneBit, FeedBits, LowBits;
    var p := LowBits(c, 16) + Zeros(|m| - 16);
    OwnBits(poly, c);
    FeedAppend(poly, c, LowBits(c, 16), Zeros(|m| - 16));
    ZerosFeedZero(poly, |m| - 16);
    FeedsAdd(poly, c, c, p, m);
    XorZero(c);
    XorShift(0, FeedBits(poly, c, m));
    XorZero(FeedBits(poly, c, m));
  }

  /** Start value 0xffff: the first sixteen bits are inverted. */
  lemma AllOnes(m: seq<bool>)
    requires |m| >= 16
    ensures forall i :: 0 <= i < |m| ==> Started(0xffff, m)[i] == if i < 16 then !m[i] else m[i]
  {
    SixteenBits(0xffff);
    assert forall i :: 0 <= i < 16 ==> LowBits(0xffff, 16)[i];
  }

  lemma NoStart(m: seq<bool>)
    requires |m| >= 16
    ensures Started(0, m) == m
  {
    SixteenBits(0);
    assert forall i :: 0 <= i < 16 ==> !LowBits(0, 16)[i];
  }

  /** The bits of a byte, lowest first. */
  lemma BitsOfByte(b: byte)
    ensures ByteBits(b) == [b & 1 != 0, b & 2 != 0, b & 4 != 0, b & 8 != 0]
                           + [b & 16 != 0, b & 32 != 0, b & 64 != 0, b & 128 != 0]
  {
    hide LowBits, Four, Down;
    var x := b as bv16;
    FourBits(x, 8);
    FourBits(Down(x), 4);
    assert LowBits(Down(Down(x)), 0) == [];
    BitsAgree(b);
  }

  lemma BitsAgree(b: byte)
    ensures Four(b as bv16) == [b & 1 != 0, b & 2 != 0, b & 4 != 0, b & 8 != 0]
    ensures Four(Down(b as bv16)) == [b & 16 != 0, b & 32 != 0, b & 64 != 0, b & 128 != 0]
  {
  }

  // ----- the check values --------------------------------------------------------------------

  /** The two bytes, low byte first, that make a message divisible are the register over it, and no others do. */
  lemma CheckIsRemainder(poly: bv16, c: bv16, msg: seq<byte>, lo: byte, hi: byte)
    requires poly == MODBUS || poly == CCITT
    ensures Divides(Generator(poly), Started(c, MessageBits(msg + [lo, hi]))) <==>
              lo == LowByte(Register(poly, c, msg)) && hi == HighByte(Register(poly, c, msg))
  {
    hide Register, FeedBits, MessageBits, LowByte, HighByte, Divides, Generator, Started;
    var m := MessageBits(msg + [lo, hi]);
    ResidueDecides(poly, c, msg, lo, hi);
    RegisterIsBits(poly, c, msg + [lo, hi]);
    StartIsAdded(poly, c, m);
    EmptyIffDivides(poly, Started(c, m));
  }

  /** The message with its first sixteen bits inverted. */
  function Inverted(m: seq<bool>): (s: seq<bool>)
    requires |m| >= 16
    ensures |s| == |m|
  {
    seq(|m|, i requires 0 <= i < |m| => if i < 16 then !m[i] else m[i])
  }

  /** `CRC16_Modbus` over a whole message: with its value behind it, low byte first, and its first sixteen bits
      inverted, the message is a multiple of x^16 + x^15 + x^2 + 1; with any other two bytes behind it, it is not. */
  method ModbusRemainder(pdata: seq<byte>) returns (crc: bv16)
    ensures forall lo: byte, hi: byte ::
              Divides(Terms({16, 15, 2, 0}), Inverted(MessageBits(pdata + [lo, hi]))) <==>
              lo == LowByte(crc) && hi == HighByte(crc)
  {
    hide Register, MessageBits, LowByte, HighByte, Divides, Generator, Started, Terms;
    crc := Crc16Modbus(pdata, |pdata|);
    assert pdata[..|pdata|] == pdata;
    WholeModbus(pdata);
    forall lo: byte, hi: byte
      ensures Divides(Terms({16, 15, 2, 0}), Inverted(MessageBits(pdata + [lo, hi]))) <==>
              lo == LowByte(crc) && hi == HighByte(crc)
    {
      CheckIsRemainder(MODBUS, 0xffff, pdata, lo, hi);
      ModbusGenerator();
      AllOnes(MessageBits(pdata + [lo, hi]));
      assert Started(0xffff, MessageBits(pdata + [lo, hi])) == Inverted(MessageBits(pdata + [lo, hi]));
    }
  }

  /** So a packet for the board, as it is on the wire, leaves an empty register if and only if it is such a multiple. */
  lemma EmptyRegisterIff(w: seq<byte>)
    requires |w| >= 2
    ensures Register(MODBUS, 0xffff, w) == 0 <==> Divides(Terms({16, 15, 2, 0}), Inverted(MessageBits(w)))
  {
    hide Register, MessageBits, FeedBits, Divides, Generator, Started, Terms;
    var m := MessageBits(w);
    RegisterIsBits(MODBUS, 0xffff, w);
    StartIsAdded(MODBUS, 0xffff, m);
    EmptyIffDivides(MODBUS, Started(0xffff, m));
    ModbusGenerator();
    AllOnes(m);
    assert Started(0xffff, m) == Inverted(m);
  }

  lemma WholeModbus(pdata: seq<byte>)
    ensures |pdata| == 0 ==> Register(MODBUS, 0xffff, pdata) == 0xffff
  {
  }

  /** `CRC16_CCITT` likewise, with x^16 + x^12 + x^5 + 1 and nothing inverted. */
  method CcittRemainder(pdata: seq<byte>) returns (crc: bv16)
    ensures forall lo: byte, hi: byte ::
              Divides(Terms({16, 12, 5, 0}), MessageBits(pdata + [lo, hi])) <==>
              lo == LowByte(crc) && hi == HighByte(crc)
  {
    hide Register, MessageBits, LowByte, HighByte, Divides, Generator, Started, Terms;
    crc := Crc16Ccitt(pdata, |pdata|);
    assert pdata[..|pdata|] == pdata;
    WholeCcitt(pdata);
    forall lo: byte, hi: byte
      ensures Divides(Terms({16, 12, 5, 0}), MessageBits(pdata + [lo, hi])) <==>
              lo == LowByte(crc) && hi == HighByte(crc)
    {
      CheckIsRemainder(CCITT, 0, pdata, lo, hi);
      CcittGenerator();
      NoStart(MessageBits(pdata + [lo, hi]));
    }
  }

  lemma WholeCcitt(pdata: seq<byte>)
    ensures |pdata| == 0 ==> Register(CCITT, 0, pdata) == 0
  {
  }
}
