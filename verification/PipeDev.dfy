/** pipe.c: a ring buffer with free-running 32-bit counters. */
module PipeDev {
  import opened PipeMachine
  import Blocks

  const U32 := Blocks.U32

  /** The counters tell full from empty although they wrap. */
  lemma Counters(a: nat, b: nat)
    requires b <= a <= b + PIPESIZE
    ensures a % U32 == (b % U32 + PIPESIZE) % U32 <==> a == b + PIPESIZE
    ensures a % U32 == b % U32 <==> a == b
  {
  }

  lemma Slot(a: nat)
    ensures a % U32 % PIPESIZE == a % PIPESIZE && (a % U32 + 1) % U32 == (a + 1) % U32
  {
  }

  lemma SlotsDiffer(k: nat, a: nat)
    requires k < a < k + PIPESIZE
    ensures k % PIPESIZE != a % PIPESIZE
  {
  }

  class PipeDev {
    const data: array<Byte>
    var nread: nat
    var nwrite: nat
    var readopen: bool
    var writeopen: bool
    var readers: set<nat>  // asleep on &nread
    var writers: set<nat>  // asleep on &nwrite

    ghost var stored: seq<Byte>
    ghost var taken: nat

    ghost predicate Valid()
      reads this, data
    {
      && data.Length == PIPESIZE && taken <= |stored| <= taken + PIPESIZE
      && nwrite == |stored| % U32 && nread == taken % U32
      && forall k :: taken <= k < |stored| ==> data[k % PIPESIZE] == stored[k]
    }

    ghost function Abs(): Pipe
      requires Valid()
      reads this, data
    {
      Raw(stored, taken, readopen, writeopen, readers, writers)
    }

    /** pipealloc. */
    constructor ()
      ensures Valid() && fresh(data) && Abs() == Raw([], 0, true, true, {}, {}) && Inv(Abs())
    {
      data := new Byte[PIPESIZE];
      nread, nwrite, readopen, writeopen, readers, writers := 0, 0, true, true, {}, {};
      stored, taken := [], 0;
    }

    method StoreByte(b: Byte)
      requires Valid() && |stored| < taken + PIPESIZE
      modifies this`nwrite, this`stored, data
      ensures Valid() && stored == old(stored) + [b]
    {
      Slot(|stored|);
      forall k | taken <= k < |stored| ensures k % PIPESIZE != |stored| % PIPESIZE {
        SlotsDiffer(k, |stored|);
      }
      data[nwrite % PIPESIZE] := b;
      nwrite := (nwrite + 1) % U32;
      stored := stored + [b];
    }

    /** pipewrite from byte i0 of addr up to its return or its next sleep; i is the byte it has
        reached. */
    method Write(me: nat, addr: seq<Byte>, i0: nat, killed: bool) returns (i: nat, out: Outcome)
      requires Valid() && i0 <= |addr|
      modifies this, data
      ensures Valid() && var e := Event.Write(me, addr[i0..], killed);
        && Abs() == Apply(old(Abs()), e) && out == Result(old(Abs()), e)
      ensures i0 <= i <= |addr| && stored == old(stored) + addr[i0..i] && taken == old(taken)
      ensures i < |addr| ==> |stored| == taken + PIPESIZE
      ensures out.Done? <==> i == |addr|
      ensures out.Fail? <==> i < |addr| && (!old(readopen) || killed)
      ensures readers == (if out.Fail? then old(readers) else {})
      ensures writers == if out.Sleep? then old(writers) + {me} else old(writers)
      ensures readopen == old(readopen) && writeopen == old(writeopen)
    {
      i := i0;
      ghost var room := PIPESIZE - (|stored| - taken);
      assert addr[i0..i0] == [];
      while i < |addr|
        invariant i0 <= i <= |addr| && i - i0 <= room && Valid() && stored == old(stored) + addr[i0..i]
        invariant taken == old(taken) && readopen == old(readopen) && writeopen == old(writeopen)
        invariant readers == old(readers) && writers == old(writers)
      {
        Counters(|stored|, taken);
        if nwrite == (nread + PIPESIZE) % U32 {
          assert addr[i0..][..i - i0] == addr[i0..i];
          if !readopen || killed {
            return i, Fail;
          }
          readers := {};
          writers := writers + {me};
          return i, Sleep;
        }
        StoreByte(addr[i]);
        assert addr[i0..i + 1] == addr[i0..i] + [addr[i]];
        i := i + 1;
      }
      assert addr[i0..][..i - i0] == addr[i0..i];
      readers := {};
      out := Done;
    }

    method TakeByte() returns (b: Byte)
      requires Valid() && taken < |stored|
      modifies this`nread, this`taken
      ensures Valid() && taken == old(taken) + 1 && b == stored[old(taken)]
    {
      Slot(taken);
      b := data[nread % PIPESIZE];
      nread := (nread + 1) % U32;
      taken := taken + 1;
    }

    /** piperead up to its return or its sleep. */
    method Read(me: nat, n: nat, killed: bool) returns (got: seq<Byte>, out: Outcome)
      requires Valid()
      modifies this
      ensures Valid() && var e := Event.Read(me, n, killed);
        && Abs() == Apply(old(Abs()), e) && out == Result(old(Abs()), e) && got == Returned(old(Abs()), e)
      ensures stored == old(stored) && old(taken) <= taken <= |stored| && got == stored[old(taken)..taken]
      ensures out.Sleep? <==> old(taken) == |stored| && old(writeopen) && !killed
      ensures out.Fail? <==> old(taken) == |stored| && old(writeopen) && killed
      ensures out.Done? ==> taken == if old(taken) + n < |stored| then old(taken) + n else |stored|
      ensures !out.Done? ==> got == []
      ensures readers == (if out.Sleep? then old(readers) + {me} else old(readers))
      ensures writers == if out.Done? then {} else old(writers)
      ensures readopen == old(readopen) && writeopen == old(writeopen)
    {
      Counters(|stored|, taken);
      got := [];
      if nread == nwrite && writeopen {
        if killed {
          return [], Fail;
        }
        readers := readers + {me};
        return [], Sleep;
      }
      var i := 0;
      while i < n
        invariant i <= n && Valid() && i <= |stored| - old(taken) && taken == old(taken) + i
        invariant got == stored[old(taken)..taken]
        invariant stored == old(stored) && readopen == old(readopen) && writeopen == old(writeopen)
        invariant readers == old(readers) && writers == old(writers)
      {
        Counters(|stored|, taken);
        if nread == nwrite {
          break;
        }
        var b := TakeByte();
        got := got + [b];
        i := i + 1;
      }
      Counters(|stored|, taken);
      writers := {};
      out := Done;
    }

    /** pipeclose of one end.  The page goes back to the allocator when the other end is closed
        too, and then no process is asleep in it. */
    method Close(writable: bool) returns (freed: bool)
      requires Valid()
      modifies this
      ensures Valid() && Abs() == Apply(old(Abs()), Event.Close(writable))
      ensures freed <==> if writable then !old(readopen) else !old(writeopen)
      ensures stored == old(stored) && taken == old(taken)
      ensures writable ==> !writeopen && readopen == old(readopen) && readers == {} && writers == old(writers)
      ensures !writable ==> !readopen && writeopen == old(writeopen) && writers == {} && readers == old(readers)
      ensures freed && Inv(old(Abs())) ==> readers == {} && writers == {}
    {
      if writable {
        writeopen, readers := false, {};
      } else {
        readopen, writers := false, {};
      }
      freed := !readopen && !writeopen;
    }
  }
}
