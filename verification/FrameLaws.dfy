/** What a frame is, byte by byte: when a stream completes one, and when one passes its check. */
module FrameLaws {
  import opened Bytes
  import opened Framing

  predicate BoardHead(s: seq<byte>, i: nat) { i + 1 < |s| && s[i] == 0x02 && s[i + 1] == 0x10 }

  predicate TuyaHead(s: seq<byte>, i: nat) { i + 2 < |s| && s[i] == 0x55 && s[i + 1] == 0xaa && s[i + 2] == 0x00 }

  /** Sixteen bytes from the first 0x02 0x10 on, which is at `h`. */
  predicate BoardFrameAt(s: seq<byte>, h: nat) {
    BoardHead(s, h) && h + 16 <= |s| && forall i: nat :: i < h ==> !BoardHead(s, i)
  }

  /** As many bytes as are declared there, at most 128, from the first 0x55 0xaa 0x00 on, which is at `h`. */
  predicate TuyaFrameAt(s: seq<byte>, h: nat) {
    && TuyaHead(s, h) && h + 7 <= |s|
    && Val(s[h + 4]) * 256 + Val(s[h + 5]) + 7 <= 128 && h + Val(s[h + 4]) * 256 + Val(s[h + 5]) + 7 <= |s|
    && forall i: nat :: i < h ==> !TuyaHead(s, i)
  }

  /** A board frame is complete as soon as sixteen bytes from the first 0x02 0x10 on are there. */
  lemma BoardCompletesIff(s: seq<byte>)
    ensures Completes(Mcu, s) <==> exists h: nat :: BoardFrameAt(s, h)
  {
    assert Val(0x10) == 16;
    assert forall i: nat :: HeadAt(Mcu, s, i) <==> BoardHead(s, i);
    var f := FirstHead(Mcu, s);
    if f >= 0 {
      ReadableHead(Mcu, s);
      var w := Window(Mcu, s);
      assert |w| == if f + 32 < |s| then 32 else |s| - f;
      assert forall i :: 0 <= i < |w| ==> w[i] == s[f + i];
      assert Completes(Mcu, s) <==> BoardFrameAt(s, f);
    }
    if h: nat :| BoardFrameAt(s, h) {
      FirstHeadIs(Mcu, s, h);
    }
  }

  /** A Tuya frame is complete as soon as the length that it declares, which must not exceed 128, is there from the
      first 0x55 0xaa 0x00 on. */
  lemma TuyaCompletesIff(s: seq<byte>)
    ensures Completes(Tuya, s) <==> exists h: nat :: TuyaFrameAt(s, h)
  {
    hide Val;
    assert forall i: nat :: HeadAt(Tuya, s, i) <==> TuyaHead(s, i);
    var f := FirstHead(Tuya, s);
    if f >= 0 {
      ReadableHead(Tuya, s);
      var w := Window(Tuya, s);
      assert |w| == if f + 128 < |s| then 128 else |s| - f;
      assert forall i :: 0 <= i < |w| ==> w[i] == s[f + i];
      assert Completes(Tuya, s) <==> TuyaFrameAt(s, f);
    }
    if h: nat :| TuyaFrameAt(s, h) {
      FirstHeadIs(Tuya, s, h);
    }
  }

  /** The sum of one byte is its value. */
  lemma SumOfOne(b: byte)
    ensures Sum([b]) == Val(b) && Sum([]) == 0
  {
    hide Val;
    assert [b][..0] == [];
  }

  /** The sum takes every byte once: it is additive. */
  lemma {:induction false} SumAdds(a: seq<byte>, b: seq<byte>)
    ensures Sum(a + b) == Sum(a) + Sum(b)
    decreases b
  {
    hide Val;
    if b == [] {
      assert a + b == a;
    } else {
      var n := |b| - 1;
      SumAdds(a, b[..n]);
      assert (a + b)[..|a| + n] == a + b[..n];
    }
  }

  function Five(w: seq<byte>, i: nat): nat
    requires i + 5 <= |w|
  {
    Val(w[i]) + Val(w[i + 1]) + Val(w[i + 2]) + Val(w[i + 3]) + Val(w[i + 4])
  }

  lemma FiveBytes(w: seq<byte>, i: nat)
    requires i + 5 <= |w|
    ensures Sum(w[..i + 5]) == Sum(w[..i]) + Five(w, i)
  {
    hide Val, Sum;
    OneByte(w, i);
    OneByte(w, i + 1);
    OneByte(w, i + 2);
    OneByte(w, i + 3);
    OneByte(w, i + 4);
  }

  lemma OneByte(w: seq<byte>, i: nat)
    requires i < |w|
    ensures Sum(w[..i + 1]) == Sum(w[..i]) + Val(w[i])
  {
    hide Val, Sum;
    SumAdds(w[..i], [w[i]]);
    SumOfOne(w[i]);
    assert w[..i + 1] == w[..i] + [w[i]];
  }

  lemma ThreeFives(w: seq<byte>)
    requires |w| >= 15
    ensures Sum(w[..15]) == Five(w, 0) + Five(w, 5) + Five(w, 10)
  {
    hide Val, Sum, Five;
    SumOfOne(w[0]);
    assert w[..0] == [];
    FiveBytes(w, 0);
    FiveBytes(w, 5);
    FiveBytes(w, 10);
  }

  lemma FifteenBytes(w: seq<byte>)
    requires |w| >= 15
    ensures Sum(w[..15]) == Val(w[0]) + Val(w[1]) + Val(w[2]) + Val(w[3]) + Val(w[4])
                            + Val(w[5]) + Val(w[6]) + Val(w[7]) + Val(w[8]) + Val(w[9])
                            + Val(w[10]) + Val(w[11]) + Val(w[12]) + Val(w[13]) + Val(w[14])
  {
    hide Val, Sum;
    ThreeFives(w);
  }

  /** A frame of the electric-control board is sixteen bytes long, and passes if and only if its last byte is the sum of
      the fifteen before it, the header's included. */
  lemma BoardSumIff(w: seq<byte>)
    requires HoldsFrame(Mcu, w)
    ensures |w| >= 16
    ensures SumOk(Mcu, w) <==>
              Val(w[15]) == (Val(w[0]) + Val(w[1]) + Val(w[2]) + Val(w[3]) + Val(w[4])
                             + Val(w[5]) + Val(w[6]) + Val(w[7]) + Val(w[8]) + Val(w[9])
                             + Val(w[10]) + Val(w[11]) + Val(w[12]) + Val(w[13]) + Val(w[14])) % 256
  {
    DeclaredPositive(Mcu, w);
    FifteenBytes(w);
    hide Val, Sum, HoldsFrame, Declared;
  }

  /** A Tuya frame is as long as bytes 4 and 5 say and seven more, and passes if and only if its last byte is the sum of
      all bytes before it. */
  lemma TuyaSumIff(w: seq<byte>)
    requires HoldsFrame(Tuya, w)
    ensures var n := Val(w[4]) * 256 + Val(w[5]) + 7;
            n <= |w| && (SumOk(Tuya, w) <==> Val(w[n - 1]) == Sum(w[..n - 1]) % 256)
  {
    hide Val, Sum, HeadAt;
  }

  /** Every frame can be made sound by its last byte, and by one value of it only. */
  lemma LastByteDecides(k: Kind, w: seq<byte>, b: byte)
    requires HoldsFrame(k, w)
    ensures var n := Declared(k, w);
            7 <= n <= |w| && HoldsFrame(k, w[n - 1 := b]) && Declared(k, w[n - 1 := b]) == n
            && (SumOk(k, w[n - 1 := b]) <==> b == Truncate(Sum(w[..n - 1])))
  {
    hide Val, Sum, Truncate;
    DeclaredPositive(k, w);
    var n := Declared(k, w);
    var v := w[n - 1 := b];
    assert v[..n - 1] == w[..n - 1];
    if Val(b) == Sum(w[..n - 1]) % 256 { ValInjective(b, Truncate(Sum(w[..n - 1]))); }
  }
}
