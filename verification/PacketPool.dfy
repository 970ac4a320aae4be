/** `SDHWPacketBuffer`: the free list that lends buffers, and the calls it passes on to its receiver and sender. */
module PacketPool {
  import opened Bytes
  import opened Collections
  import opened Framing
  import opened Packets
  import opened PacketBuffer
  import Crc

  /** `UI2MCU` and `UI2TUYA`, as far as `check_code` uses them. */
  class Sender {
    const kind: Kind
    var mBf: BuffData?

    constructor (k: Kind)
      ensures kind == k
    {
      kind, mBf := k, null;
    }

    /** An empty packet gets its length and header. */
    method Parse(buf: BuffData)
      requires buf.kind == kind && buf.WellShaped()
      modifies this, buf`len, buf.buf
      ensures mBf == buf && buf.WellShaped()
      ensures buf.Contents() == Opened(kind, old(buf.Contents()))
    {
      mBf := buf;
      if mBf.len == 0 {
        match kind {
          case Mcu =>
            mBf.len := 32;
            mBf.buf[0] := 0x02;
          case Tuya =>
            mBf.len := 128;
            mBf.buf[0] := 0x55;
            mBf.buf[1] := 0xaa;
            mBf.buf[2] := 0x03;
        }
      }
      assert buf.buf[..] == Opened(kind, old(buf.Contents())).buf;
    }

    method Checkcode()
      requires mBf != null && mBf.kind == kind && mBf.WellShaped() && Sendable(kind, mBf.Contents()) && mBf.len != 0
      modifies mBf`len, mBf.buf
      ensures mBf.WellShaped() && mBf.Contents() == Closed(kind, old(mBf.Contents()))
    {
      hide Closed, Sendable;
      match kind {
        case Mcu => CheckcodeMcu();
        case Tuya => CheckcodeTuya();
      }
    }

    /** `UI2MCU::checkcode`. */
    method CheckcodeMcu()
      requires mBf != null && mBf.kind == kind == Mcu && mBf.WellShaped() && Sendable(Mcu, mBf.Contents())
               && mBf.len != 0
      modifies mBf`len, mBf.buf
      ensures mBf.WellShaped() && mBf.Contents() == Closed(Mcu, old(mBf.Contents()))
    {
      hide Crc.Register, Crc.LowByte, Crc.HighByte;
      ghost var was := mBf.Contents();
      var n := mBf.len;
      var cyc16 := Crc.Crc16Modbus(mBf.buf[..], n - 2);
      if n == 2 {
        EmptyRegister();
        assert was.buf[..n - 2] == [];
      }
      assert cyc16 == Crc.Register(Crc.MODBUS, 0xffff, was.buf[..n - 2]);
      mBf.buf[n - 2] := Crc.LowByte(cyc16);
      mBf.buf[n - 1] := Crc.HighByte(cyc16);
      assert mBf.buf[..] == was.buf[n - 2 := Crc.LowByte(cyc16)][n - 1 := Crc.HighByte(cyc16)];
    }

    /** `UI2TUYA::checkcode`. */
    method CheckcodeTuya()
      requires mBf != null && mBf.kind == kind == Tuya && mBf.WellShaped() && Sendable(Tuya, mBf.Contents())
               && mBf.len != 0
      modifies mBf`len, mBf.buf
      ensures mBf.WellShaped() && mBf.Contents() == Closed(Tuya, old(mBf.Contents()))
    {
      hide Truncate, Val, Sum;
      ghost var was := mBf.Contents();
      var len := Val(mBf.buf[4]) * 256 + Val(mBf.buf[5]) + 7;
      var sum := SumBytes(mBf.buf[..], len - 1);
      SameResidue(Sum(was.buf[..len - 1]), sum);
      mBf.buf[len - 1] := Truncate(sum);
      mBf.len := len;
      assert mBf.buf[..] == was.buf[len - 1 := Truncate(sum)];
    }
  }

  lemma EmptyRegister()
    ensures Crc.Register(Crc.MODBUS, 0xffff, []) == 0xffff
  {
  }

  lemma SameResidue(n: nat, m: nat)
    requires m == n % 256
    ensures Truncate(m) == Truncate(n)
  {
    hide ByteOf, Val;
    assert Val(Truncate(m)) == Val(Truncate(n));
    ValInjective(Truncate(m), Truncate(n));
  }

  // ----- the free list -----------------------------------------------------------------------

  class SdhwPacketBuffer {
    const mType: Kind
    const mSnd: Sender
    const mRcv: Receiver
    var mBuffs: seq<BuffData>

    /** Every buffer that was ever allocated here. */
    ghost var issued: set<BuffData>

    constructor (k: Kind)
      ensures Valid() && mType == k && mBuffs == [] && issued == {} && fresh(mSnd) && fresh(mRcv)
    {
      mType := k;
      mSnd := new Sender(k);
      mRcv := new Receiver(k);
      mBuffs, issued := [], {};
    }

    ghost predicate Valid()
      reads this, issued, set b | b in issued :: b.buf
    {
      && mSnd.kind == mType && mRcv.kind == mType
      && (forall b :: b in issued ==> b.WellShaped())
      && (forall b, c :: b in issued && c in issued && b != c ==> b.buf != c.buf)
      && (forall b :: b in mBuffs ==> b in issued && b.Contents() == Blank(b.kind) && b.stream == [])
      && Distinct(mBuffs)
    }

    /** The buffers somebody holds. */
    ghost function Lent(): set<BuffData>
      reads this
    {
      set b | b in issued && b !in mBuffs
    }

    /** The buffer handed out is blank, was in nobody's hands, and nothing else changes. */
    method Obtain() returns (bf: BuffData)
      requires Valid()
      modifies this, set b | b in mBuffs :: b`len
      ensures Valid()
      ensures forall b :: b in mBuffs ==> b in old(mBuffs)
      ensures bf !in old(Lent()) && Lent() == old(Lent()) + {bf}
      ensures old(issued) <= issued && fresh(issued - old(issued))
      ensures (exists b :: b in old(mBuffs) && b.kind == mType) ==> issued == old(issued)
      ensures forall b :: b in issued - old(issued) ==> fresh(b.buf)
      ensures bf.kind == mType && bf.Contents() == Blank(mType) && bf.stream == []
      ensures bf.len == 0 && bf.buf.Length == (if mType == Mcu then 32 else 128)
      ensures forall i :: 0 <= i < bf.buf.Length ==> bf.buf[i] == 0
      ensures forall b :: b in old(issued) ==> b.len == old(b.len)
    {
      var it := FindFree();
      if it >= 0 {
        bf := TakeFree(it);
      } else {
        bf := Allocate();
      }
      assert forall i :: 0 <= i < bf.buf.Length ==> bf.buf[i] == Blank(mType).buf[i];
    }

    method TakeFree(it: nat) returns (bf: BuffData)
      requires Valid() && it < |mBuffs|
      modifies this`mBuffs, {mBuffs[it]}`len
      ensures Valid() && bf == old(mBuffs)[it] && mBuffs == old(mBuffs)[..it] + old(mBuffs)[it + 1..]
      ensures Lent() == old(Lent()) + {bf}
      ensures bf.Contents() == Blank(bf.kind) && bf.stream == [] && bf.len == old(bf.len)
    {
      bf := mBuffs[it];
      bf.len := 0;
      mBuffs := mBuffs[..it] + mBuffs[it + 1..];
      assert forall b: BuffData :: b in old(mBuffs) <==> b == bf || b in mBuffs;
      assert bf !in mBuffs;
    }

    /** `calloc` of a new buffer. */
    method Allocate() returns (bf: BuffData)
      requires Valid()
      modifies this`issued
      ensures Valid() && fresh(bf) && fresh(bf.buf) && issued == old(issued) + {bf}
      ensures Lent() == old(Lent()) + {bf}
      ensures bf.kind == mType && bf.WellShaped() && bf.Contents() == Blank(mType) && bf.stream == []
    {
      bf := new BuffData(mType);
      issued := issued + {bf};
    }

    /** The loop of `obtain`: the first free buffer of the right kind and size, or -1. */
    method FindFree() returns (it: int)
      ensures it == -1 || (0 <= it < |mBuffs| && mBuffs[it].kind == mType && mBuffs[it].slen == BufLen(mType))
      ensures forall i :: 0 <= i < (if it < 0 then |mBuffs| else it) ==>
                mBuffs[i].kind != mType || mBuffs[i].slen != BufLen(mType)
    {
      var len := BufLen(mType);
      it := 0;
      while it < |mBuffs|
        invariant 0 <= it <= |mBuffs|
        invariant forall i :: 0 <= i < it ==> mBuffs[i].kind != mType || mBuffs[i].slen != len
      {
        if mBuffs[it].kind == mType && mBuffs[it].slen == len { return; }
        it := it + 1;
      }
      it := -1;
    }

    method Recycle(buf: BuffData)
      requires Valid() && buf in Lent()
      modifies this`mBuffs, buf, buf.buf
      ensures Valid()
      ensures mBuffs == old(mBuffs) + [buf] && Lent() == old(Lent()) - {buf}
      ensures buf.len == 0 && forall i :: 0 <= i < buf.buf.Length ==> buf.buf[i] == 0
    {
      forall i | 0 <= i < buf.buf.Length { buf.buf[i] := 0; }
      buf.len := 0;
      buf.stream := [];
      mBuffs := mBuffs + [buf];
      assert buf.buf[..] == Blank(buf.kind).buf;
    }

    /** A loop of `recycle` over buffers that are all lent. */
    method RecycleAll(queue: seq<BuffData>)
      requires Valid() && Distinct(queue) && forall b: BuffData :: b in queue ==> b in Lent()
      modifies this`mBuffs, queue, set b | b in queue :: b.buf
      ensures Valid() && mBuffs == old(mBuffs) + queue
      ensures Lent() == set b | b in old(Lent()) && b !in queue
    {
      var i := 0;
      while i < |queue|
        invariant 0 <= i <= |queue| && Valid() && mBuffs == old(mBuffs) + queue[..i]
        invariant forall b :: b in queue ==> b in issued && b !in old(mBuffs)
      {
        assert queue[i] in queue;
        assert queue[i] !in queue[..i];
        Recycle(queue[i]);
        i := i + 1;
      }
    }

    method Compare(src: BuffData, dst: BuffData) returns (same: bool)
      requires src.kind == mType && src.WellShaped() && dst.kind == mType && dst.WellShaped()
      ensures same == Repeats(mType, src.Contents(), dst.Contents())
      ensures same <==>
                && mType == Mcu && src.len == dst.len && src.buf[..src.len] == dst.buf[..dst.len]
                && src.buf[6] == 0 && src.buf[7] == 0 && src.buf[8] == 0 && src.buf[9] == 0
    {
      if mType == Mcu {
        if src.kind != dst.kind { return false; }
        if src.len != dst.len { return false; }
        var i := 0;
        while i < src.len
          invariant 0 <= i <= src.len && src.buf[..i] == dst.buf[..i]
        {
          if src.buf[i] != dst.buf[i] {
            assert src.buf[..src.len][i] != dst.buf[..dst.len][i];
            return false;
          }
          i := i + 1;
        }
        if src.buf[6] != 0 || src.buf[7] != 0 || src.buf[8] != 0 || src.buf[9] != 0 { return false; }
      } else if mType == Tuya {
        return false;
      }
      return true;
    }

    method Add(buf: BuffData, in_buf: seq<byte>) returns (rlen: int)
      requires buf.kind == mType == mRcv.kind && buf.WellShaped() && Collects(mType, buf.stream, buf.buf[..buf.len])
      modifies mRcv, buf, buf.buf
      ensures buf.WellShaped() && Collects(mType, buf.stream, buf.buf[..buf.len])
      ensures 0 <= rlen <= |in_buf| && buf.stream == old(buf.stream) + in_buf[..rlen]
      ensures buf.stream == Readable(mType, old(buf.stream) + in_buf)
      ensures rlen == |in_buf| || buf.len == BufLen(mType)
      ensures old(buf.len) < BufLen(mType) && in_buf != [] ==> rlen > 0
    {
      mRcv.Parse(buf);
      rlen := mRcv.Add(in_buf);
    }

    method Complete(buf: BuffData) returns (ok: bool)
      requires buf.kind == mType == mRcv.kind && buf.WellShaped() && Collects(mType, buf.stream, buf.buf[..buf.len])
      modifies mRcv
      ensures ok == HoldsFrame(mType, buf.buf[..buf.len]) == Completes(mType, buf.stream)
    {
      mRcv.Parse(buf);
      ok := mRcv.Complete();
    }

    method Check(buf: BuffData) returns (ok: bool)
      requires buf.kind == mType == mRcv.kind && buf.WellShaped() && Collects(mType, buf.stream, buf.buf[..buf.len])
      requires HoldsFrame(mType, buf.buf[..buf.len])
      modifies mRcv
      ensures ok == SumOk(mType, buf.buf[..buf.len])
    {
      mRcv.Parse(buf);
      ok := mRcv.Check();
    }

    method CheckCode(buf: BuffData)
      requires buf.kind == mType == mSnd.kind && buf.WellShaped() && Sendable(mType, buf.Contents())
      modifies mSnd, buf`len, buf.buf
      ensures buf.WellShaped() && buf.Contents() == Closed(mType, old(buf.Contents()))
    {
      mSnd.Parse(buf);
      mSnd.Checkcode();
    }
  }
}
