/**
The down-buffer of the debug channel (SEGGER_RTT.c): the host writes, the target reads with
SEGGER_RTT_ReadNoLock. The host may write vacant slots and advance `wrOff` between any two
target steps.
*/
module RttRead {
  import opened Prelude
  import opened CircularBuffer
  import opened RttRing

  /** Length of the first chunk, up to the end of the ring, and the read offset after it. */
  function FirstChunk(rd: nat, wr: nat, ring: nat, size: nat): (r: (nat, nat))
    requires rd < ring && wr < ring
  {
    if rd > wr then
      var n := Min(ring - rd, size);
      (n, if rd + n == ring then 0 else rd + n)
    else (0, rd)
  }

  /**
  The two chunks together are the oldest bytes and no more. With the caller's buffer full
  after the first one, WrOff - RdOff is negative, wraps to a huge count, and is cut to zero.
  */
  lemma ChunksCover(rd: nat, wr: nat, ring: nat, size: nat)
    requires rd < ring && wr < ring < 0x1_0000_0000
    ensures var used := Distance(rd, wr, ring);
      var (first, at) := FirstChunk(rd, wr, ring, size);
      var second := Min(U32(wr - at), size - first);
      && first + second == Min(size, used) && at + second <= ring
      && (0 < second ==> at == Wrap(rd + first, ring))
      && (0 < first + second ==> at + second == Wrap(rd + first + second, ring))
  {
  }

  lemma Handover(ready: seq<Byte>, unread: seq<Byte>, received: seq<Byte>, delivered: nat, n: nat)
    requires ready <= unread && delivered <= |received| && unread == received[delivered..] && n <= |ready|
    ensures delivered + n <= |received| && ready[..n] == received[delivered..delivered + n]
  {
  }

  class DownRing {
    const buf: array<Byte>
    var wrOff: nat
    var rdOff: nat
    /** Every byte the host has made visible, and how many of them the target has taken. */
    ghost var received: seq<Byte>
    ghost var delivered: nat

    ghost predicate Valid()
      reads this, buf
    {
      && 0 < buf.Length < 0x1_0000_0000 && wrOff < buf.Length && rdOff < buf.Length
      && delivered <= |received| && Unread() == received[delivered..]
    }

    ghost function Unread(): seq<Byte>
      requires 0 < buf.Length && wrOff < buf.Length && rdOff < buf.Length
      reads this, buf
    {
      Content(buf[..], rdOff, wrOff)
    }

    constructor (size: nat)
      requires 0 < size < 0x1_0000_0000
      ensures Valid() && fresh(buf) && buf.Length == size && received == [] && delivered == 0
    {
      buf := new Byte[size](_ => 0);
      wrOff, rdOff, received, delivered := 0, 0, [], 0;
    }

    /** The host stores one byte somewhere it is allowed to. */
    method HostStore()
      requires Valid()
      modifies buf
      ensures Valid() && Unread() == old(Unread())
    {
      var used := Distance(rdOff, wrOff, buf.Length);
      assert Distance(wrOff, wrOff, buf.Length) < buf.Length - used;
      var slot: nat :| slot < buf.Length && Distance(wrOff, slot, buf.Length) < buf.Length - used;
      var x: Byte :| true;
      StoreVacant(buf[..], rdOff, wrOff, slot, x);
      ghost var before := buf[..];
      buf[slot] := x;
      assert buf[..] == before[slot := x];
    }

    /** The host stores any number of bytes and makes any number of the stored ones visible. */
    method HostStep()
      requires Valid()
      modifies this`wrOff, this`received, buf
      ensures Valid() && old(Unread()) <= Unread() && old(received) <= received
    {
      var stores: nat :| true;
      for i := 0 to stores
        invariant Valid() && Unread() == old(Unread()) && received == old(received) && wrOff == old(wrOff)
      {
        HostStore();
      }
      HostPublish();
    }

    method HostPublish()
      requires Valid()
      modifies this`wrOff, this`received
      ensures Valid() && old(Unread()) <= Unread() && old(received) <= received
    {
      var k: nat :| k <= buf.Length - 1 - Distance(rdOff, wrOff, buf.Length);
      AppendBack(buf[..], rdOff, wrOff, k);
      ghost var more := Window(buf[..], wrOff, k);
      assert (received + more)[delivered..] == received[delivered..] + more;
      received := received + more;
      wrOff := Wrap(wrOff + k, buf.Length);
    }

    /**
    memcpy out of the ring: `dest` already shows the first `at` bytes of `ready` on top of `d0`,
    and the next `n` are taken from slot `src` on.
    */
    method CopyOut(dest: array<Byte>, at: nat, src: nat, n: nat, ghost d0: seq<Byte>, ghost ready: seq<Byte>)
      requires Valid() && dest != buf && ready <= Unread() && at + n <= |ready|
      requires at + n <= dest.Length == |d0| && dest[..] == Blit(d0, 0, ready[..at])
      requires src + n <= buf.Length && (0 < n ==> src == Wrap(rdOff + at, buf.Length))
      modifies this`wrOff, this`received, buf, dest
      ensures Valid() && ready <= Unread() && old(received) <= received
      ensures dest[..] == Blit(d0, 0, ready[..at + n])
    {
      for i := 0 to n
        invariant Valid() && ready <= Unread() && old(received) <= received
        invariant dest[..] == Blit(d0, 0, ready[..at + i])
      {
        HostStep();
        WindowAt(buf[..], rdOff, |Unread()|, at + i);
        BlitStep(d0, 0, ready, at + i);
        dest[at + i] := buf[src + i];
      }
      HostStep();
    }

    /** Storing RdOff. */
    method Release(rd: nat, ghost n: nat)
      requires Valid() && n <= |Unread()| && rd == Wrap(rdOff + n, buf.Length)
      modifies this`rdOff, this`delivered
      ensures Valid() && delivered == old(delivered) + n && rdOff == rd
      ensures received == old(received)
    {
      TakeFront(buf[..], rdOff, wrOff, n);
      assert received[delivered..][n..] == received[delivered + n..];
      rdOff, delivered := rd, delivered + n;
    }

    /** From the read position up to the wrap, when the host's offset is behind it. */
    method ReadFirst(dest: array<Byte>, size: nat, wr: nat, ghost ready: seq<Byte>)
      returns (read: nat, rd: nat)
      requires Valid() && dest != buf && size <= dest.Length
      requires wr < buf.Length && ready <= Unread() && |ready| == Distance(rdOff, wr, buf.Length)
      modifies this`wrOff, this`received, buf, dest
      ensures Valid() && ready <= Unread() && old(received) <= received
      ensures (read, rd) == FirstChunk(rdOff, wr, buf.Length, size) && read <= |ready|
      ensures dest[..] == Blit(old(dest[..]), 0, ready[..read])
    {
      rd, read := rdOff, 0;
      ghost var d0 := dest[..];
      assert d0 == Blit(d0, 0, ready[..0]);
      if rd > wr {
        read := Min(buf.Length - rd, size);
        CopyOut(dest, 0, rd, read, d0, ready);
        rd := rd + read;
        if rd == buf.Length {
          rd := 0;
        }
      }
    }

    /** Both chunks. */
    method ReadChunks(dest: array<Byte>, size: nat, wr: nat, ghost ready: seq<Byte>)
      returns (read: nat, rd: nat)
      requires Valid() && dest != buf && size <= dest.Length
      requires wr < buf.Length && ready <= Unread() && |ready| == Distance(rdOff, wr, buf.Length)
      modifies this`wrOff, this`received, buf, dest
      ensures Valid() && ready <= Unread() && old(received) <= received
      ensures read == Min(size, |ready|) && (0 < read ==> rd == Wrap(rdOff + read, buf.Length))
      ensures dest[..] == Blit(old(dest[..]), 0, ready[..read])
    {
      ghost var d0 := dest[..];
      ChunksCover(rdOff, wr, buf.Length, size);
      read, rd := ReadFirst(dest, size, wr, ready);
      var n := Min(U32(wr as int - rd), size - read);
      if n > 0 {
        CopyOut(dest, read, rd, n, d0, ready);
        read, rd := read + n, rd + n;
      }
    }

    /**
    SEGGER_RTT_ReadNoLock. `avail` is the number of unread bytes when WrOff was sampled; the
    caller gets the oldest min(size, avail) of them. When the first chunk fills the caller's
    buffer, WrOff - RdOff wraps below zero and must not let anything more through.
    */
    method ReadNoLock(dest: array<Byte>, size: nat) returns (read: nat, ghost avail: nat)
      requires Valid() && dest != buf && size <= dest.Length
      modifies this`wrOff, this`rdOff, this`received, this`delivered, buf, dest
      ensures Valid() && old(received) <= received
      ensures old(|Unread()|) <= avail <= |received| - old(delivered)
      ensures read == Min(size, avail) && delivered == old(delivered) + read
      ensures dest[..] == Blit(old(dest[..]), 0, received[old(delivered)..delivered])
    {
      HostStep();
      ghost var ready := Unread();
      avail := |ready|;
      var rd;
      read, rd := ReadChunks(dest, size, wrOff, ready);
      Handover(ready, Unread(), received, delivered, read);
      if read != 0 {
        Release(rd, read);
      }
    }
  }
}
