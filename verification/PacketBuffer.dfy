/** Buffers, and the two receivers that fill them. */
module PacketBuffer {
  import opened Bytes
  import opened Framing
  import opened Packets

  /** `BuffData`. The ghost field is the stream of bytes read into the buffer since its length was last reset. */
  class BuffData {
    const kind: Kind
    const slen: nat
    const buf: array<byte>
    var len: int
    ghost var stream: seq<byte>

    /** `calloc`. */
    constructor (k: Kind)
      ensures kind == k && fresh(buf) && WellShaped() && Contents() == Blank(k) && stream == []
    {
      kind, slen := k, BufLen(k);
      buf := new byte[BufLen(k)](_ => 0);
      len, stream := 0, [];
      new;
      assert buf[..] == Blank(k).buf;
    }

    ghost predicate WellShaped()
      reads this
    {
      slen == BufLen(kind) == buf.Length && 0 <= len <= slen
    }

    function Contents(): (p: Packet)
      requires WellShaped()
      reads this, buf
      ensures WellFormed(kind, p)
    {
      Packet(len, buf[..])
    }
  }

  // ----- what a buffer holds of its stream ---------------------------------------------------

  /** `c` is what is left of the stream `s` once only bytes that cannot open a header were dropped from its
      front; as soon as `c` is longer than a header, it starts with one. */
  predicate Collects(k: Kind, s: seq<byte>, c: seq<byte>) {
    && Trails(k, s, c)
    && (|c| > |Head(k)| ==> HeadAt(k, c, 0))
  }

  /** The same while a header has yet to be looked for. */
  predicate Trails(k: Kind, s: seq<byte>, w: seq<byte>) {
    && |w| <= |s| && |w| <= BufLen(k)
    && w == s[|s| - |w|..]
    && forall i: nat :: i < |s| - |w| ==> DeadAt(k, s, i)
  }

  lemma CollectsHead(k: Kind, s: seq<byte>, c: seq<byte>)
    requires Collects(k, s, c)
    ensures FirstHead(k, s) >= 0 ==> FirstHead(k, s) == |s| - |c| && HeadAt(k, c, 0)
    ensures FirstHead(k, s) < 0 ==> !HeadAt(k, c, 0)
  {
    var d := |s| - |c|;
    forall i: nat | i < d ensures !HeadAt(k, s, i) { assert DeadAt(k, s, i); }
    assert HeadAt(k, s, d) <==> HeadAt(k, c, 0);
    if HeadAt(k, s, d) {
      FirstHeadIs(k, s, d);
    } else {
      assert forall i: nat :: d < i ==> !HeadAt(k, s, i);
    }
  }

  /** The buffer tells what the stream tells: the window, what may still be read, and whether a frame is complete. */
  lemma CollectsTells(k: Kind, s: seq<byte>, c: seq<byte>)
    requires Collects(k, s, c)
    ensures FirstHead(k, s) >= 0 ==> c == Window(k, s)
    ensures Readable(k, s) == s
    ensures HoldsFrame(k, c) <==> Completes(k, s)
    ensures |c| == BufLen(k) ==> HoldsFrame(k, c) || Stuck(k, s)
  {
    CollectsHead(k, s, c);
  }

  /** When the buffer is full, or the input used up, exactly the readable part has been read. */
  lemma CollectsAll(k: Kind, s: seq<byte>, t: seq<byte>, c: seq<byte>)
    requires s <= t && Collects(k, s, c) && (s == t || |c| == BufLen(k))
    ensures Readable(k, t) == s
  {
    CollectsTells(k, s, c);
    CollectsHead(k, s, c);
    if s != t {
      assert HeadAt(k, c, 0);
      assert t == s + t[|s|..];
      FirstHeadStable(k, s, t[|s|..]);
    }
  }

  // ----- header search -----------------------------------------------------------------------

  /** What the header search must find in the bytes `w`: a header at `j`, or the first byte worth keeping. */
  predicate Located(k: Kind, w: seq<byte>, j: int, found: bool) {
    && -1 <= j < |w|
    && (found ==> j >= 0 && HeadAt(k, w, j))
    && (!found && j >= 0 ==> |w| - j < |Head(k)|)
    && (forall i: nat :: i < (if j >= 0 then j else |w|) ==> DeadAt(k, w, i))
  }

  method FindHeadMcu(mBuf: array<byte>, mDlen: int) returns (j: int, find_head: bool)
    requires 0 <= mDlen <= mBuf.Length
    ensures Located(Mcu, mBuf[..mDlen], j, find_head)
  {
    find_head := false;
    var i := 0;
    j := -1;
    ghost var w := mBuf[..mDlen];
    while i < mDlen
      invariant 0 <= i <= mDlen && !find_head
      invariant j == -1 || (j == mDlen - 1 && i == mDlen)
      invariant forall n: nat :: n < i && n != j ==> DeadAt(Mcu, w, n)
    {
      if mBuf[i] == 0x02 {
        if i < mDlen - 1 && mBuf[i + 1] == 0x10 {
          j := i;
          find_head := true;
          break;
        } else {
          if i == mDlen - 1 {
            j := i;
          }
        }
      }
      i := i + 1;
    }
  }

  method FindHeadTuya(mBuf: array<byte>, mDlen: int) returns (j: int, find_head: bool)
    requires 0 <= mDlen <= mBuf.Length
    ensures Located(Tuya, mBuf[..mDlen], j, find_head)
  {
    find_head := false;
    var i := 0;
    j := -1;
    ghost var w := mBuf[..mDlen];
    while i < mDlen
      invariant 0 <= i <= mDlen && !find_head
      invariant j == -1 || (mDlen - 2 <= j < i && (j == mDlen - 2 ==> mBuf[mDlen - 1] == 0xaa))
      invariant forall n: nat :: n < i && (j == -1 || n < j) ==> DeadAt(Tuya, w, n)
    {
      if mBuf[i] == 0x55 {
        if i < mDlen - 1 && mBuf[i + 1] == 0xaa {
          if i < mDlen - 2 && mBuf[i + 2] == 0x00 {
            j := i;
            find_head := true;
            break;
          } else {
            if i == mDlen - 2 {
              j := i;
            }
          }
        } else {
          if i == mDlen - 1 {
            j := i;
          }
        }
      }
      i := i + 1;
    }
  }

  /** Dropping what the search gave up keeps the buffer a faithful rest of the stream. */
  lemma DropsDead(k: Kind, s: seq<byte>, w: seq<byte>, j: int, found: bool)
    requires Trails(k, s, w) && Located(k, w, j, found)
    ensures var c := if j < 0 then [] else w[j..];
            Collects(k, s, c) && (found ==> HeadAt(k, c, 0))
  {
    var d := |s| - |w|;
    var c := if j < 0 then [] else w[j..];
    forall i: nat | i < |s| - |c| ensures DeadAt(k, s, i) {
      if i >= d { assert DeadAt(k, w, i - d); }
    }
  }

  lemma Extended(k: Kind, s: seq<byte>, c: seq<byte>, more: seq<byte>, found: bool)
    requires Collects(k, s, c) && (found ==> HeadAt(k, c, 0)) && |c + more| <= BufLen(k)
    ensures Trails(k, s + more, c + more) && (found ==> HeadAt(k, c + more, 0))
  {
    var t, w := s + more, c + more;
    forall i: nat | i < |t| - |w| ensures DeadAt(k, t, i) {
      assert DeadAt(k, s, i);
    }
  }

  lemma Joined(before: seq<byte>, bf: seq<byte>, i: nat, j: nat)
    requires i <= j <= |bf|
    ensures before + bf[..i] + bf[i..j] == before + bf[..j]
    ensures before + bf[..i] <= before + bf && bf[..|bf|] == bf
  {
  }

  // ----- receivers ---------------------------------------------------------------------------

  /** `MCU2UI` and `TUYA2UI`, which differ in their constants, in the header search and in the frame length. */
  class Receiver {
    const kind: Kind
    var mDlen: int
    var mBf: BuffData?

    constructor (k: Kind)
      ensures kind == k
    {
      kind, mDlen, mBf := k, 0, null;
    }

    /** The receiver looks at `bf`, and `bf` is a faithful rest of its stream. */
    ghost predicate On(bf: BuffData)
      reads this, bf, bf.buf
    {
      && mBf == bf && bf.kind == kind && bf.WellShaped() && mDlen == bf.len
      && Collects(kind, bf.stream, bf.buf[..bf.len])
    }

    method Parse(bf: BuffData)
      modifies this
      ensures mBf == bf && mDlen == bf.len
    {
      mDlen := bf.len;
      mBf := bf;
    }

    /** Read from `bf` until the input is used up or the buffer is full; the result is the number of bytes read. */
    method Add(bf: seq<byte>) returns (rlen: int)
      requires mBf != null && On(mBf)
      modifies this`mDlen, mBf, mBf.buf
      ensures On(mBf)
      ensures 0 <= rlen <= |bf| && mBf.stream == old(mBf.stream) + bf[..rlen]
      ensures mBf.stream == Readable(kind, old(mBf.stream) + bf)
      ensures rlen == |bf| || mDlen == BufLen(kind)
      ensures old(mDlen) < BufLen(kind) && bf != [] ==> rlen > 0
    {
      hide Collects, HeadAt, Readable;
      ghost var before := mBf.stream;
      var find_head := false;
      rlen := 0;
      while mDlen < BufLen(kind) && rlen < |bf|
        invariant On(mBf) && mBf == old(mBf)
        invariant 0 <= rlen <= |bf| && mBf.stream == before + bf[..rlen]
        invariant find_head ==> HeadAt(kind, mBf.buf[..mDlen], 0)
        invariant rlen == 0 ==> mDlen == old(mDlen)
        decreases |bf| - rlen
      {
        ghost var r := rlen;
        rlen, find_head := Round(bf, rlen, find_head);
        Joined(before, bf, r, rlen);
      }
      Joined(before, bf, rlen, |bf|);
      CollectsAll(kind, mBf.stream, before + bf, mBf.buf[..mDlen]);
    }

    /** One round of the loop of `add`. */
    method Round(bf: seq<byte>, rlen: int, found: bool) returns (next: int, find_head: bool)
      requires mBf != null && On(mBf)
      requires 0 <= rlen < |bf| && mDlen < BufLen(kind)
      requires found ==> HeadAt(kind, mBf.buf[..mDlen], 0)
      modifies this`mDlen, mBf, mBf.buf
      ensures On(mBf) && rlen < next <= |bf| && mBf.stream == old(mBf.stream) + bf[rlen..next]
      ensures find_head ==> HeadAt(kind, mBf.buf[..mDlen], 0)
    {
      hide Collects, HeadAt, Trails;
      ghost var c := mBf.buf[..mDlen];
      next := Take(bf, rlen);
      Extended(kind, mBf.stream, c, bf[rlen..next], found);
      mBf.stream := mBf.stream + bf[rlen..next];
      find_head := Resync(found);
      mBf.len := mDlen;
    }

    /** The first half of the loop body of `add`: copy as much as fits. */
    method Take(bf: seq<byte>, rlen: int) returns (next: int)
      requires mBf != null && mBf.buf.Length == BufLen(kind)
      requires 0 <= rlen < |bf| && 0 <= mDlen < BufLen(kind)
      modifies this`mDlen, mBf.buf
      ensures rlen < next <= |bf| && mDlen == old(mDlen) + (next - rlen) <= BufLen(kind)
      ensures mBf.buf[..mDlen] == old(mBf.buf[..mDlen]) + bf[rlen..next]
      ensures next == |bf| || mDlen == BufLen(kind)
    {
      var len := |bf|;
      if BufLen(kind) - mDlen >= len - rlen {
        Copy(bf[rlen..], len - rlen);
        mDlen := mDlen + (len - rlen);
        next := len;
      } else {
        Copy(bf[rlen..], BufLen(kind) - mDlen);
        next := rlen + (BufLen(kind) - mDlen);
        mDlen := BufLen(kind);
      }
      assert bf[rlen..][..next - rlen] == bf[rlen..next];
    }

    /** The second half: look for a header once there are more bytes than one has, and move it to the front. */
    method Resync(found: bool) returns (find_head: bool)
      requires mBf != null && mBf.buf.Length == BufLen(kind) && 0 <= mDlen <= BufLen(kind)
      requires Trails(kind, mBf.stream, mBf.buf[..mDlen])
      requires found ==> HeadAt(kind, mBf.buf[..mDlen], 0)
      modifies this`mDlen, mBf.buf
      ensures 0 <= mDlen <= BufLen(kind) && Collects(kind, mBf.stream, mBf.buf[..mDlen])
      ensures find_head ==> HeadAt(kind, mBf.buf[..mDlen], 0)
    {
      hide HeadAt, DeadAt;
      ghost var w := mBf.buf[..mDlen];
      find_head := found;
      if !find_head && mDlen > |Head(kind)| {
        var j;
        match kind {
          case Mcu => j, find_head := FindHeadMcu(mBf.buf, mDlen);
          case Tuya => j, find_head := FindHeadTuya(mBf.buf, mDlen);
        }
        DropsDead(kind, mBf.stream, w, j, find_head);
        if j == -1 {
          mDlen := 0;
        } else if j > 0 {
          MoveDown(j);
          mDlen := mDlen - j;
        }
        assert mBf.buf[..mDlen] == if j < 0 then [] else w[j..];
      }
    }

    /** `memcpy` behind the bytes already held. */
    method Copy(src: seq<byte>, n: nat)
      requires mBf != null && 0 <= mDlen && mDlen + n <= mBf.buf.Length && n <= |src|
      modifies mBf.buf
      ensures mBf.buf[..mDlen + n] == old(mBf.buf[..mDlen]) + src[..n]
    {
      forall i | 0 <= i < n { mBf.buf[mDlen + i] := src[i]; }
    }

    /** `memmove` to the front. */
    method MoveDown(j: nat)
      requires mBf != null && j <= mDlen <= mBf.buf.Length
      modifies mBf.buf
      ensures mBf.buf[..mDlen - j] == old(mBf.buf[j..mDlen])
    {
      forall i | 0 <= i < mDlen - j { mBf.buf[i] := mBf.buf[i + j]; }
    }

    /** Stale bytes behind `mDlen` are read here, and never matter. */
    method Complete() returns (ok: bool)
      requires mBf != null && On(mBf)
      ensures ok == HoldsFrame(kind, mBf.buf[..mBf.len]) == Completes(kind, mBf.stream)
    {
      ghost var c := mBf.buf[..mDlen];
      CollectsTells(kind, mBf.stream, c);
      CollectsHead(kind, mBf.stream, c);
      assert Val(0x10) == 16;
      match kind {
        case Mcu =>
          ok := mBf.buf[0] == 0x02 && mBf.buf[1] == 0x10 && mDlen >= Val(mBf.buf[1]);
        case Tuya =>
          ok := mDlen >= Val(mBf.buf[4]) * 256 + Val(mBf.buf[5]) + 7
                && mBf.buf[0] == 0x55 && mBf.buf[1] == 0xaa && mBf.buf[2] == 0x00;
      }
    }

    method Check() returns (ok: bool)
      requires mBf != null && On(mBf) && HoldsFrame(kind, mBf.buf[..mBf.len])
      ensures ok == SumOk(kind, mBf.buf[..mBf.len])
    {
      ghost var c := mBf.buf[..mDlen];
      DeclaredPositive(kind, c);
      var n: nat;
      match kind {
        case Mcu => n := Val(mBf.buf[1]);
        case Tuya => n := Val(mBf.buf[4]) * 256 + Val(mBf.buf[5]) + 7;
      }
      var sum := SumBytes(mBf.buf[..], n - 1);
      assert mBf.buf[..][..n - 1] == c[..n - 1];
      ok := Val(mBf.buf[n - 1]) == sum;
    }
  }
}
