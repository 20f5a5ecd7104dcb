/**
The up-buffer of the debug channel (SEGGER_RTT.c): one producer, the target, and one
consumer, the debug host, which may advance `rdOff` between any two target steps.
Every method calls HostStep wherever the host may cut in, so each contract holds for
all interleavings.
*/
module RttRing {
  import opened Prelude
  import opened CircularBuffer

  const MODE_SKIP := 0
  const MODE_TRIM := 1
  const MODE_BLOCK := 2

  class UpRing {
    const buf: array<Byte>
    var wrOff: nat
    var rdOff: nat
    var flags: nat
    /** Every byte the host has taken so far. */
    ghost var consumed: seq<Byte>

    constructor (size: nat, mode: nat)
      requires 0 < size < 0x1_0000_0000
      ensures Valid() && fresh(buf) && buf.Length == size
      ensures flags == mode && Published() == [] && Free() == size - 1
    {
      buf := new Byte[size](_ => 0);
      wrOff, rdOff, flags, consumed := 0, 0, mode, [];
    }

    ghost predicate Valid()
      reads this
    {
      0 < buf.Length < 0x1_0000_0000 && wrOff < buf.Length && rdOff < buf.Length
    }

    ghost function Unread(): seq<Byte>
      requires Valid()
      reads this, buf
    {
      Content(buf[..], rdOff, wrOff)
    }

    ghost function Free(): nat
      requires Valid()
      reads this
    {
      buf.Length - 1 - Distance(rdOff, wrOff, buf.Length)
    }

    /** All bytes ever made visible to the host, in order. */
    ghost function Published(): seq<Byte>
      requires Valid()
      reads this, buf
    {
      consumed + Unread()
    }

    /** The host takes any number of the unread bytes, straight out of the buffer. */
    method HostStep()
      requires Valid()
      modifies this`rdOff, this`consumed
      ensures Valid() && Published() == old(Published()) && Free() >= old(Free())
    {
      var used := Distance(rdOff, wrOff, buf.Length);
      var k: nat :| k <= used;
      ghost var slots, taken := buf[..], Window(buf[..], rdOff, k);
      TakeFront(slots, rdOff, wrOff, k);
      assert consumed + (taken + Content(slots, Wrap(rdOff + k, |slots|), wrOff))
          == consumed + taken + Content(slots, Wrap(rdOff + k, |slots|), wrOff);
      consumed := consumed + taken;
      rdOff := Wrap(rdOff + k, buf.Length);
      assert buf[..] == slots;
    }

    method StoreByte(slot: nat, x: Byte)
      requires Valid() && slot < buf.Length && Distance(wrOff, slot, buf.Length) <= Free()
      modifies buf
      ensures Published() == old(Published()) && buf[..] == old(buf[..])[slot := x]
    {
      StoreVacant(buf[..], rdOff, wrOff, slot, x);
      ghost var before := buf[..];
      buf[slot] := x;
      assert buf[..] == before[slot := x];
    }

    /** memcpy into the buffer, with the host running between any two bytes. */
    method CopyIn(dst: nat, src: seq<Byte>)
      requires Valid() && dst < buf.Length && dst + |src| <= buf.Length
      requires Distance(wrOff, dst, buf.Length) + |src| <= Free()
      modifies this`rdOff, this`consumed, buf
      ensures Valid() && Published() == old(Published()) && Free() >= old(Free())
      ensures buf[..] == Blit(old(buf[..]), dst, src)
    {
      ghost var b0 := buf[..];
      for i := 0 to |src|
        invariant Valid() && Published() == old(Published()) && Free() >= old(Free())
        invariant Distance(wrOff, dst, buf.Length) + |src| <= Free()
        invariant buf[..] == Blit(b0, dst, src[..i])
      {
        HostStep();
        BlitStep(b0, dst, src, i);
        StoreByte(dst + i, src[i]);
      }
      assert src[..|src|] == src;
      HostStep();
    }

    /** Storing WrOff: from here on the host sees the `n` bytes placed behind it. */
    method Publish(n: nat)
      requires Valid() && n <= Free()
      modifies this`wrOff
      ensures Valid() && wrOff == Wrap(old(wrOff) + n, buf.Length)
      ensures Published() == old(Published()) + Window(buf[..], old(wrOff), n)
      ensures Free() == old(Free()) - n
    {
      AppendBack(buf[..], rdOff, wrOff, n);
      wrOff := Wrap(wrOff + n, buf.Length);
    }

    /** _GetAvailWriteSpace: a snapshot that later host progress can only make too small. */
    method GetAvail() returns (avail: nat)
      requires Valid()
      modifies this`rdOff, this`consumed
      ensures Valid() && Published() == old(Published())
      ensures old(Free()) <= avail <= Free()
    {
      HostStep();
      var rd := rdOff;
      ghost var room := Free();
      HostStep();
      var wr := wrOff;
      if rd <= wr {
        avail := buf.Length - 1 - wr + rd;
      } else {
        avail := rd - wr - 1;
      }
      assert avail == room;
      HostStep();
    }

    /** Copy to the write position without reaching past the last slot, then publish. */
    method Store(data: seq<Byte>)
      requires Valid() && |data| <= Free() && wrOff + |data| <= buf.Length
      modifies this`wrOff, this`rdOff, this`consumed, buf
      ensures Valid() && wrOff == Wrap(old(wrOff) + |data|, buf.Length)
      ensures Published() == old(Published()) + data
      ensures Free() >= old(Free()) - |data|
    {
      WindowOfBlit(buf[..], wrOff, data);
      CopyIn(wrOff, data);
      Publish(|data|);
    }

    /** The same in two chunks, the second one at slot 0. */
    method StoreWrapped(data: seq<Byte>)
      requires Valid() && |data| <= Free() && wrOff + |data| >= buf.Length
      modifies this`wrOff, this`rdOff, this`consumed, buf
      ensures Valid() && wrOff == old(wrOff) + |data| - buf.Length
      ensures Published() == old(Published()) + data
      ensures Free() >= old(Free()) - |data|
    {
      var rem := buf.Length - wrOff;
      WindowOfSplitBlit(buf[..], wrOff, data);
      CopyIn(wrOff, data[..rem]);
      CopyIn(0, data[rem..]);
      Publish(|data|);
    }

    /** _WriteNoCheck */
    method WriteNoCheck(data: seq<Byte>)
      requires Valid() && |data| <= Free()
      modifies this`wrOff, this`rdOff, this`consumed, buf
      ensures Valid() && Published() == old(Published()) + data
      ensures Free() >= old(Free()) - |data|
    {
      if buf.Length - wrOff > |data| {
        Store(data);
      } else {
        StoreWrapped(data);
      }
      HostStep();
    }

    /** One round of the _WriteBlocking loop: store what fits before the host's offset and the last slot. */
    method Poll(rest: seq<Byte>) returns (n: nat)
      requires Valid()
      modifies this`wrOff, this`rdOff, this`consumed, buf
      ensures Valid() && n <= |rest| && n <= buf.Length - old(wrOff)
      ensures wrOff == Wrap(old(wrOff) + n, buf.Length)
      ensures Published() == old(Published()) + rest[..n]
      ensures Free() >= old(Free()) - n
      ensures |rest| <= old(Free()) ==> n == Min(|rest|, buf.Length - old(wrOff))
      ensures n == 0 < |rest| ==> old(Free()) == 0
    {
      var wr := wrOff;
      HostStep();
      var rd := rdOff;
      ghost var room := Free();
      HostStep();
      n := if rd > wr then rd - wr - 1 else buf.Length - (wr - rd + 1);
      assert n == room;
      n := Min(n, buf.Length - wr);
      n := Min(n, |rest|);
      Store(rest[..n]);
    }

    /**
    _WriteBlocking. The original spins while the host leaves the ring full; observation
    stops after more than `patience` polls that found no room, with `written < |data|`.
    */
    method WriteBlocking(data: seq<Byte>, patience: nat) returns (written: nat, polls: nat, stalls: nat)
      requires Valid()
      modifies this`wrOff, this`rdOff, this`consumed, buf
      ensures Valid() && written <= |data|
      ensures Published() == old(Published()) + data[..written]
      ensures Free() >= old(Free()) - written
      ensures written < |data| ==> stalls == patience + 1 && old(Free()) <= written
      ensures polls <= written + stalls + 1
      ensures |data| <= old(Free()) ==> written == |data| && stalls == 0 && polls <= 2
    {
      written, polls, stalls := 0, 0, 0;
      var again := true;
      while again
        invariant Valid() && written <= |data|
        invariant Published() == old(Published()) + data[..written]
        invariant Free() >= old(Free()) - written
        invariant polls <= written + stalls + (if |data| == 0 then 1 else 0)
        invariant again ==> stalls <= patience && (polls == 0 || written < |data|)
        invariant !again ==> written == |data| || stalls == patience + 1
        invariant stalls > 0 ==> old(Free()) <= written
        invariant |data| <= old(Free()) ==> stalls == 0 && polls <= 2
        invariant |data| <= old(Free()) && again ==> polls == 0 || (polls == 1 && wrOff == 0)
        decreases |data| - written + patience + 1 - stalls, again
      {
        var n := Poll(data[written..]);
        assert data[..written] + data[written..][..n] == data[..written + n];
        written, polls := written + n, polls + 1;
        if n == 0 && written < |data| {
          stalls := stalls + 1;
        }
        again := written < |data| && stalls <= patience;
      }
      HostStep();
    }

    /** SEGGER_RTT_WriteSkipNoLock; its byte loop counts down from a nonzero length. */
    method WriteSkipNoLock(data: seq<Byte>) returns (stored: bool)
      requires Valid() && |data| > 0
      modifies this`wrOff, this`rdOff, this`consumed, buf
      ensures Valid()
      ensures Published() == old(Published()) + if stored then data else []
      ensures |data| <= old(Free()) ==> stored
      ensures Free() >= old(Free()) - if stored then |data| else 0
    {
      HostStep();
      var rd := rdOff;
      ghost var room := Free();
      HostStep();
      var wr := wrOff;
      if rd <= wr {
        var avail := buf.Length - 1 - wr;
        if avail >= |data| {
          Store(data);
          return true;
        }
        avail := avail + rd;
        if avail >= |data| {
          if buf.Length - wr > |data| {
            assert false;  // the data did not fit before the end
          }
          StoreWrapped(data);
          return true;
        }
      } else {
        var avail := rd - wr - 1;
        if avail >= |data| {
          Store(data);
          return true;
        }
      }
      return false;
    }

    /**
    SEGGER_RTT_WriteNoLock: the mode is compared unmasked, other flag words store nothing.
    `avail` is the free space the skip and trim modes sample.
    */
    method WriteNoLock(data: seq<Byte>, patience: nat) returns (status: nat, done: bool, ghost avail: nat)
      requires Valid()
      modifies this`wrOff, this`rdOff, this`consumed, buf
      ensures Valid() && status <= |data| && old(Free()) <= avail < buf.Length
      ensures Published() == old(Published()) + data[..status]
      ensures Free() >= old(Free()) - status
      ensures flags == MODE_SKIP ==> done && status == if |data| <= avail then |data| else 0
      ensures flags == MODE_TRIM ==> done && status == Min(|data|, avail)
      ensures flags == MODE_BLOCK && (done || |data| <= old(Free())) ==> done && status == |data|
      ensures flags > MODE_BLOCK ==> done && status == 0
    {
      done := true;
      avail := Free();
      if flags == MODE_SKIP {
        var room := GetAvail();
        avail := room;
        if room < |data| {
          status := 0;
        } else {
          status := |data|;
          WriteNoCheck(data);
        }
        assert data[..|data|] == data;
      } else if flags == MODE_TRIM {
        var room := GetAvail();
        avail := room;
        status := if room < |data| then room else |data|;
        WriteNoCheck(data[..status]);
      } else if flags == MODE_BLOCK {
        var polls, stalls;
        status, polls, stalls := WriteBlocking(data, patience);
        done := status == |data|;
      } else {
        status := 0;
      }
    }
  }
}
