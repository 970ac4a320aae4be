/** Bytes, their values as numbers, and the eight-bit sums of the protocol. */
module Bytes {

  /** `uchar` in the program. */
  type byte = bv8

  function Val(b: byte): (v: nat)
    ensures v < 256
  {
    b as int
  }

  lemma NextVal(b: byte)
    requires Val(b) < 255
    ensures Val(b + 1) == Val(b) + 1
  {
  }

  /** The byte with the value `m`. */
  function ByteOf(m: nat): (b: byte)
    requires m < 256
    ensures Val(b) == m
  {
    if m == 0 then 0
    else
      NextVal(ByteOf(m - 1));
      ByteOf(m - 1) + 1
  }

  /** The conversion of an `int` to `uchar`. */
  function Truncate(n: nat): (b: byte)
    ensures Val(b) == n % 256
  {
    ByteOf(n % 256)
  }

  lemma ValInjective(a: byte, b: byte)
    requires Val(a) == Val(b)
    ensures a == b
  {
    assert (a as int) as bv8 == a;
    assert (b as int) as bv8 == b;
  }

  /** The sum of the bytes; check bytes hold it modulo 256. */
  function Sum(s: seq<byte>): nat {
    if s == [] then 0 else Sum(s[..|s| - 1]) + Val(s[|s| - 1])
  }

  lemma SumSteps(s: seq<byte>, i: nat)
    requires i <= |s|
    ensures Sum(s[..0]) == 0
    ensures i < |s| ==> Sum(s[..i + 1]) == Sum(s[..i]) + Val(s[i])
  {
    hide Val;
    if i < |s| { assert s[..i + 1][..i] == s[..i]; }
  }

  /** `DataCheck::Sum`: the running total is an `unsigned char`. */
  method SumBytes(ptr: seq<byte>, len: nat) returns (sum: nat)
    requires len <= |ptr| && len < 256
    ensures sum == Sum(ptr[..len]) % 256
  {
    hide Sum, Val;
    sum := 0;
    SumSteps(ptr, 0);
    for i := 0 to len
      invariant sum == Sum(ptr[..i]) % 256
    {
      SumSteps(ptr, i);
      sum := (sum + Val(ptr[i])) % 256;
    }
  }

  /** Exchanging a byte moves the sum by the difference of the two bytes. */
  lemma {:induction false} SumChange(s: seq<byte>, i: nat, b: byte)
    requires i < |s|
    ensures Sum(s[i := b]) == Sum(s) - Val(s[i]) + Val(b)
  {
    hide Val;
    var t := s[i := b];
    if i < |s| - 1 {
      SumChange(s[..|s| - 1], i, b);
      assert t[..|s| - 1] == s[..|s| - 1][i := b];
    } else {
      assert t[..|s| - 1] == s[..|s| - 1];
    }
  }

  /** Every one-byte error changes the check sum. */
  lemma SumDetects(s: seq<byte>, i: nat, b: byte)
    requires i < |s| && b != s[i]
    ensures Sum(s[i := b]) % 256 != Sum(s) % 256
  {
    hide Val, Sum;
    SumChange(s, i, b);
    if Val(b) == Val(s[i]) { ValInjective(b, s[i]); }
    var t := Sum(s[i := b]);
    var k := t / 256 - Sum(s) / 256;
    assert t - Sum(s) == 256 * k + (t % 256 - Sum(s) % 256);
  }
}
