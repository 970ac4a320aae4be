/** What the receiver is meant to do with a byte stream.

    The two receivers scan a stream for a header, collect at most one buffer of bytes from there on, and
    hand the buffer over once it holds the frame its own bytes declare.  This module says so about whole
    streams, without a buffer, and proves what follows for every way of cutting a stream into chunks. */
module Framing {
  import opened Bytes

  datatype Kind = Mcu | Tuya

  function BufLen(k: Kind): (n: nat)
    ensures n > |Head(k)|
  {
    match k
    case Mcu => 32
    case Tuya => 128
  }

  function Head(k: Kind): (h: seq<byte>)
    ensures 2 <= |h| <= 3
  {
    match k
    case Mcu => [0x02, 0x10]
    case Tuya => [0x55, 0xaa, 0x00]
  }

  // ----- headers -----------------------------------------------------------------------------

  predicate HeadAt(k: Kind, s: seq<byte>, i: nat) {
    i + |Head(k)| <= |s| && s[i] == Head(k)[0] && s[i + 1] == Head(k)[1] && (k == Tuya ==> s[i + 2] == Head(k)[2])
  }

  /** No header starts at `i`, however `s` goes on. */
  predicate DeadAt(k: Kind, s: seq<byte>, i: nat)
    requires i < |s|
  {
    || s[i] != Head(k)[0]
    || (i + 1 < |s| && s[i + 1] != Head(k)[1])
    || (k == Tuya && i + 2 < |s| && s[i + 2] != Head(k)[2])
  }

  /** The first place where a header starts, or -1. */
  function FirstHead(k: Kind, s: seq<byte>): (h: int)
    ensures h >= 0 ==> HeadAt(k, s, h) && forall i: nat :: i < h ==> !HeadAt(k, s, i)
    ensures h < 0 ==> h == -1 && forall i: nat :: !HeadAt(k, s, i)
  {
    FirstHeadFrom(k, s, 0)
  }

  function FirstHeadFrom(k: Kind, s: seq<byte>, from: nat): (h: int)
    requires from <= |s|
    ensures h >= 0 ==> from <= h && HeadAt(k, s, h) && forall i: nat :: from <= i < h ==> !HeadAt(k, s, i)
    ensures h < 0 ==> h == -1 && forall i: nat :: from <= i ==> !HeadAt(k, s, i)
    decreases |s| - from
  {
    if from == |s| then -1
    else if HeadAt(k, s, from) then from
    else FirstHeadFrom(k, s, from + 1)
  }

  lemma FirstHeadIs(k: Kind, s: seq<byte>, h: nat)
    requires HeadAt(k, s, h) && forall i: nat :: i < h ==> !HeadAt(k, s, i)
    ensures FirstHead(k, s) == h
  {
  }

  /** A found header stays the first one when more bytes arrive, or when bytes behind it are cut off. */
  lemma FirstHeadStable(k: Kind, s: seq<byte>, t: seq<byte>)
    requires FirstHead(k, s) >= 0
    ensures FirstHead(k, s + t) == FirstHead(k, s)
  {
    var h := FirstHead(k, s);
    forall i: nat | i < h ensures !HeadAt(k, s + t, i) {
      assert !HeadAt(k, s, i);
    }
    FirstHeadIs(k, s + t, h);
  }

  // ----- frames ------------------------------------------------------------------------------

  /** The frame length that bytes starting with a header declare; never less than what must be read to know it. */
  function Declared(k: Kind, w: seq<byte>): nat
    requires k == Tuya ==> |w| >= 6
    requires k == Mcu ==> |w| >= 2
  {
    match k
    case Mcu => Val(w[1])
    case Tuya => Val(w[4]) * 256 + Val(w[5]) + 7
  }

  /** `w` starts with a header and holds the whole frame it declares. */
  predicate HoldsFrame(k: Kind, w: seq<byte>) {
    && HeadAt(k, w, 0)
    && (k == Tuya ==> |w| >= 7)
    && |w| >= Declared(k, w)
  }

  /** The last byte of the frame at the start of `w` is the sum of the bytes before it. */
  predicate SumOk(k: Kind, w: seq<byte>)
    requires HoldsFrame(k, w)
  {
    var n := Declared(k, w);
    DeclaredPositive(k, w);
    Val(w[n - 1]) == Sum(w[..n - 1]) % 256
  }

  lemma DeclaredPositive(k: Kind, w: seq<byte>)
    requires HoldsFrame(k, w)
    ensures 7 <= Declared(k, w) <= |w|
    ensures k == Mcu ==> Declared(k, w) == 16
  {
    if k == Mcu { assert Val(0x10) == 16; }
  }

  /** Every one-byte error in a frame breaks its check, unless it changes where the frame ends. */
  lemma OneByteErrorDetected(k: Kind, w: seq<byte>, i: nat, b: byte)
    requires HoldsFrame(k, w) && SumOk(k, w)
    requires i < Declared(k, w) && b != w[i]
    requires HoldsFrame(k, w[i := b]) && Declared(k, w[i := b]) == Declared(k, w)
    ensures !SumOk(k, w[i := b])
  {
    hide Declared, Val, Sum;
    var n := Declared(k, w);
    var v := w[i := b];
    if i < n - 1 {
      assert v[..n - 1] == w[..n - 1][i := b];
      SumDetects(w[..n - 1], i, b);
    } else {
      assert v[..n - 1] == w[..n - 1];
      if Val(b) == Val(w[i]) { ValInjective(b, w[i]); }
    }
  }

  // ----- feeding chunks ----------------------------------------------------------------------

  /** The part of a stream the receiver reads before it must hand over or give up. */
  function Readable(k: Kind, s: seq<byte>): (r: seq<byte>)
    ensures r <= s
  {
    var h := FirstHead(k, s);
    if h >= 0 && h + BufLen(k) < |s| then s[..h + BufLen(k)] else s
  }

  /** What the buffer holds once a header was seen: the stream from the header on. */
  function Window(k: Kind, s: seq<byte>): (w: seq<byte>)
    requires FirstHead(k, s) >= 0
    ensures |w| <= BufLen(k)
  {
    var h := FirstHead(k, s);
    var r := Readable(k, s);
    ReadableHead(k, s);
    r[h..]
  }

  lemma ReadableHead(k: Kind, s: seq<byte>)
    requires FirstHead(k, s) >= 0
    ensures FirstHead(k, Readable(k, s)) == FirstHead(k, s) <= |Readable(k, s)|
  {
    var h := FirstHead(k, s);
    var r := Readable(k, s);
    forall i: nat | i < h ensures !HeadAt(k, r, i) {
      assert !HeadAt(k, s, i);
    }
    assert HeadAt(k, r, h);
  }

  /** The stream, as far as it is read, completes a frame. */
  predicate Completes(k: Kind, s: seq<byte>) {
    FirstHead(k, s) >= 0 && HoldsFrame(k, Window(k, s))
  }

  /** The buffer is full and still does not hold the declared frame. */
  predicate Stuck(k: Kind, s: seq<byte>) {
    FirstHead(k, s) >= 0 && |Window(k, s)| == BufLen(k) && !HoldsFrame(k, Window(k, s))
  }

  /** `frames`: the buffers handed over, in order; `pending`: the bytes read since the last of them;
      `unread`: input the receiver never looked at. */
  datatype Fed = Fed(frames: seq<seq<byte>>, pending: seq<byte>, unread: seq<byte>)

  /** One chunk, after the bytes `pending`. */
  function Feed(k: Kind, pending: seq<byte>, chunk: seq<byte>): Fed
    decreases |pending| + |chunk|
  {
    var s := pending + chunk;
    var r := Readable(k, s);
    if Completes(k, s) then
      ReadableHead(k, s);
      var rest := Feed(k, [], s[|r|..]);
      rest.(frames := [Window(k, s)] + rest.frames)
    else
      Fed([], r, s[|r|..])
  }

  /** A whole run: one chunk after the other. */
  function FeedAll(k: Kind, pending: seq<byte>, chunks: seq<seq<byte>>): Fed
    decreases chunks
  {
    if chunks == [] then Fed([], pending, [])
    else
      var first := Feed(k, pending, chunks[0]);
      var rest := FeedAll(k, first.pending, chunks[1..]);
      Fed(first.frames + rest.frames, rest.pending, first.unread + rest.unread)
  }

  function Flatten(chunks: seq<seq<byte>>): seq<byte> {
    if chunks == [] then [] else chunks[0] + Flatten(chunks[1..])
  }

  // ----- facts about windows -----------------------------------------------------------------

  /** Cutting a stream off behind what is read changes nothing for the receiver. */
  lemma ReadableIsReadable(k: Kind, s: seq<byte>)
    ensures Readable(k, Readable(k, s)) == Readable(k, s)
    ensures Completes(k, Readable(k, s)) <==> Completes(k, s)
    ensures Stuck(k, Readable(k, s)) <==> Stuck(k, s)
  {
    if FirstHead(k, s) >= 0 {
      ReadableHead(k, s);
    }
  }

  /** A frame that is complete stays complete when more bytes follow, and keeps its bytes. */
  lemma CompletesMonotone(k: Kind, s: seq<byte>, t: seq<byte>)
    requires Completes(k, s)
    ensures Completes(k, s + t) && Window(k, s) <= Window(k, s + t)
    ensures Declared(k, Window(k, s + t)) == Declared(k, Window(k, s))
  {
    FirstHeadStable(k, s, t);
    var h := FirstHead(k, s);
    var w, v := Window(k, s), Window(k, s + t);
    assert forall i :: 0 <= i < |w| ==> w[i] == s[h + i] == (s + t)[h + i] == v[i];
    DeclaredPositive(k, w);
  }

  /** Once stuck, always stuck: later bytes are not even read. */
  lemma StuckStays(k: Kind, s: seq<byte>, t: seq<byte>)
    requires Stuck(k, s)
    ensures Stuck(k, s + t) && Readable(k, s + t) == Readable(k, s)
  {
    FirstHeadStable(k, s, t);
    var h := FirstHead(k, s);
    assert (s + t)[..h + BufLen(k)] == s[..h + BufLen(k)];
  }

  /** The electric-control receiver never gets stuck; the Tuya one does exactly when a header is followed by
      a full buffer that declares more than 121 bytes of payload. */
  lemma StuckIff(k: Kind, s: seq<byte>)
    ensures Stuck(k, s) <==>
            && k == Tuya && FirstHead(k, s) >= 0 && FirstHead(k, s) + 128 <= |s|
            && Val(s[FirstHead(k, s) + 4]) * 256 + Val(s[FirstHead(k, s) + 5]) > 121
  {
    var h := FirstHead(k, s);
    if h >= 0 {
      var w := Window(k, s);
      if |w| == BufLen(k) {
        assert forall i :: 0 <= i < |w| ==> w[i] == s[h + i];
        assert HeadAt(k, w, 0);
        assert Val(0x10) == 16;
      }
    }
  }
}
