/**
SEGGER_RTT_WriteWithOverwriteNoLock (SEGGER_RTT.c): the writer that moves the host's own
offset to make room. No host runs beside it. Its last loop takes Size - 1 bytes per turn
once it has wrapped, one short of the ring, so long writes go wrong; OverwriteExact says
exactly which lengths are safe.
*/
module RttOverwrite {
  import opened Prelude
  import opened CircularBuffer
  import opened RttRing

  datatype Ring = Ring(buf: seq<Byte>, rd: nat, wr: nat) {
    ghost predicate Valid() {
      2 <= |buf| && rd < |buf| && wr < |buf|
    }

    function Avail(): nat
      requires Valid()
    {
      |buf| - 1 - Distance(rd, wr, |buf|)
    }

    function Unread(): seq<Byte>
      requires Valid()
    {
      Content(buf, rd, wr)
    }
  }

  /** The write loop: `avail` bytes up to the wrap, then from slot 0 with Size - 1. */
  function Fill(buf: seq<Byte>, wr: nat, data: seq<Byte>, avail: nat): (r: (seq<Byte>, nat))
    requires 2 <= |buf| && 0 < avail && wr + avail <= |buf|
    ensures |r.0| == |buf| && r.1 < |buf|
    decreases |data|
  {
    if avail > |data| then (Blit(buf, wr, data), wr + |data|)
    else
      var wrapped := Blit(buf, wr, data[..avail]);
      if avail == |data| then (wrapped, 0) else Fill(wrapped, 0, data[avail..], |buf| - 1)
  }

  /** The offset adjustment loop: subtract the size until it fits. */
  function Reduce(x: nat, size: nat): (y: nat)
    requires 0 < size
    ensures y < size
  {
    if x < size then x else Reduce(x - size, size)
  }

  /** The ring after a write of `data`. */
  function Overwrite(r: Ring, data: seq<Byte>): (s: Ring)
    requires r.Valid()
    ensures s.Valid() && |s.buf| == |r.buf|
  {
    var rd := if |data| > r.Avail() then Reduce(r.rd + |data| - r.Avail(), |r.buf|) else r.rd;
    var (buf, wr) := Fill(r.buf, r.wr, data, |r.buf| - r.wr);
    Ring(buf, rd, wr)
  }

  function Newest(s: seq<Byte>, n: nat): seq<Byte> {
    if |s| <= n then s else s[|s| - n..]
  }

  /** What the caller wants: the host finds the newest bytes, as many as the ring can hold. */
  ghost predicate KeepsNewest(r: Ring, data: seq<Byte>)
    requires r.Valid()
  {
    Overwrite(r, data).Unread() == Newest(r.Unread() + data, |r.buf| - 1)
  }

  /** What slot `s` holds after a write that wraps at most once. */
  function Landed(buf: seq<Byte>, wr: nat, data: seq<Byte>, s: nat): Byte
    requires wr < |buf| && s < |buf| && |data| < 2 * |buf| - wr
  {
    if s + |buf| < wr + |data| then data[s + |buf| - wr]
    else if wr <= s < wr + |data| then data[s - wr]
    else buf[s]
  }

  /** The ring contents slot by slot, for a write that wraps at most once. */
  lemma FillOnce(buf: seq<Byte>, wr: nat, data: seq<Byte>)
    requires 2 <= |buf| && wr < |buf| && |data| < 2 * |buf| - 1 - wr
    ensures var (b, w) := Fill(buf, wr, data, |buf| - wr);
      && w == Wrap(wr + |data|, |buf|)
      && forall s :: 0 <= s < |buf| ==> b[s] == Landed(buf, wr, data, s)
  {
    var rem := |buf| - wr;
    if rem < |data| {
      var wrapped := Blit(buf, wr, data[..rem]);
      assert Fill(wrapped, 0, data[rem..], |buf| - 1) == (Blit(wrapped, 0, data[rem..]), |data| - rem);
    }
  }

  /** Byte `t` of old content ++ data sits `t` slots after the old read offset, if it is new enough. */
  lemma LandedAt(r: Ring, data: seq<Byte>, t: nat, slot: nat)
    requires r.Valid() && |data| < 2 * |r.buf| - 1 - r.wr && slot < |r.buf|
    requires t < |r.Unread()| + |data| < t + |r.buf|
    requires slot == r.rd + t || slot + |r.buf| == r.rd + t || slot + 2 * |r.buf| == r.rd + t
    ensures Landed(r.buf, r.wr, data, slot) == (r.Unread() + data)[t]
  {
    if t < |r.Unread()| {
      WindowAt(r.buf, r.rd, |r.Unread()|, t);
    }
  }

  /**
  `s` is `r` after a write that wraps at most once: the read offset moved past `gone` bytes,
  the unread length follows, and every slot holds what landed there.
  */
  ghost predicate WrittenOnce(r: Ring, data: seq<Byte>, s: Ring, gone: nat)
    requires r.Valid() && s.Valid()
  {
    && |s.buf| == |r.buf|
    && (s.rd == r.rd + gone || s.rd + |r.buf| == r.rd + gone)
    && |s.Unread()| == |r.Unread()| + |data| - gone
    && |data| < 2 * |r.buf| - 1 - r.wr
    && forall j :: 0 <= j < |s.buf| ==> s.buf[j] == Landed(r.buf, r.wr, data, j)
  }

  function Gone(r: Ring, n: nat): nat
    requires r.Valid()
  {
    if n > r.Avail() then n - r.Avail() else 0
  }

  lemma WritesOnce(r: Ring, data: seq<Byte>)
    requires r.Valid() && |data| < 2 * |r.buf| - 1 - r.wr
    ensures WrittenOnce(r, data, Overwrite(r, data), Gone(r, |data|))
  {
    FillOnce(r.buf, r.wr, data);
    if |data| > r.Avail() {
      var moved := r.rd + |data| - r.Avail();
      assert moved < 2 * |r.buf| && Reduce(moved, |r.buf|) == Wrap(moved, |r.buf|);
    }
  }

  lemma NewestAt(r: Ring, data: seq<Byte>, s: Ring, gone: nat, j: nat)
    requires r.Valid() && s.Valid() && WrittenOnce(r, data, s, gone) && j < |s.Unread()|
    ensures gone + j < |r.Unread()| + |data| && s.Unread()[j] == (r.Unread() + data)[gone + j]
  {
    WindowAt(s.buf, s.rd, |s.Unread()|, j);
    LandedAt(r, data, gone + j, Wrap(s.rd + j, |r.buf|));
  }

  lemma KeepsNewestShort(r: Ring, data: seq<Byte>)
    requires r.Valid() && |data| < 2 * |r.buf| - 1 - r.wr
    ensures KeepsNewest(r, data)
  {
    var s := Overwrite(r, data);
    WritesOnce(r, data);
    forall j | 0 <= j < |s.Unread()|
      ensures s.Unread()[j] == Newest(r.Unread() + data, |r.buf| - 1)[j]
    {
      NewestAt(r, data, s, Gone(r, |data|), j);
    }
  }

  /** After the first wrap the last slot is never written again, and WrOff never reaches it. */
  lemma {:induction false} LastSlotStuck(buf: seq<Byte>, data: seq<Byte>)
    requires 2 <= |buf|
    ensures var (b, w) := Fill(buf, 0, data, |buf| - 1);
      b[|buf| - 1] == buf[|buf| - 1] && w < |buf| - 1
    decreases |data|
  {
    if |data| <= |buf| - 1 {
    } else {
      LastSlotStuck(Blit(buf, 0, data[..|buf| - 1]), data[|buf| - 1..]);
    }
  }

  /** All zero but for the byte that lands in the last slot of the ring. */
  function Probe(size: nat, wr: nat, n: nat): (data: seq<Byte>)
    requires wr < size
    ensures |data| == n
  {
    seq(n, i => if i == size - 1 - wr then 1 else 0)
  }

  lemma LongWriteLeavesProbe(r: Ring, n: nat)
    requires r.Valid() && n >= 2 * |r.buf| - 1 - r.wr
    ensures var s := Overwrite(r, Probe(|r.buf|, r.wr, n));
      s.buf[|r.buf| - 1] == 1 && s.wr < |r.buf| - 1
  {
    var rem, data := |r.buf| - r.wr, Probe(|r.buf|, r.wr, n);
    var wrapped := Blit(r.buf, r.wr, data[..rem]);
    assert data[..rem][rem - 1] == data[rem - 1] == 1;
    assert wrapped[r.wr + rem - 1] == data[..rem][rem - 1];
    LastSlotStuck(wrapped, data[rem..]);
  }

  lemma LosesNewestLong(r: Ring, n: nat)
    requires r.Valid() && n >= 2 * |r.buf| - 1 - r.wr
    ensures !KeepsNewest(r, Probe(|r.buf|, r.wr, n))
  {
    var size, data := |r.buf|, Probe(|r.buf|, r.wr, n);
    var s := Overwrite(r, data);
    LongWriteLeavesProbe(r, n);
    var want := Newest(r.Unread() + data, size - 1);
    assert want == data[n - (size - 1)..];
    if |s.Unread()| == size - 1 {
      var j := Distance(s.rd, size - 1, size);
      WindowAt(s.buf, s.rd, size - 1, j);
      assert s.Unread()[j] == 1 && want[j] == 0;
    }
  }

  /** The writer keeps the newest bytes of every write of length n if and only if n is this short. */
  lemma OverwriteExact(r: Ring, n: nat)
    requires r.Valid() && 0 < n
    ensures (forall data: seq<Byte> | |data| == n :: KeepsNewest(r, data)) <==> n < 2 * |r.buf| - 1 - r.wr
  {
    if n < 2 * |r.buf| - 1 - r.wr {
      forall data: seq<Byte> | |data| == n
        ensures KeepsNewest(r, data)
      {
        KeepsNewestShort(r, data);
      }
    } else {
      LosesNewestLong(r, n);
      assert |Probe(|r.buf|, r.wr, n)| == n;
    }
  }

  /**
  The routine itself, in unsigned 32-bit arithmetic. Ring and data are separate objects in
  one 32-bit address space, so their sizes add up to at most 2^32; a zero length would make
  the byte loop count down from zero.
  */
  method WriteWithOverwriteNoLock(ring: UpRing, data: seq<Byte>)
    requires ring.Valid() && 2 <= ring.buf.Length
    requires 0 < |data| && ring.buf.Length + |data| <= 0x1_0000_0000
    modifies ring`wrOff, ring`rdOff, ring.buf
    ensures ring.Valid()
    ensures Ring(ring.buf[..], ring.rdOff, ring.wrOff)
         == Overwrite(Ring(old(ring.buf[..]), old(ring.rdOff), old(ring.wrOff)), data)
  {
    MakeRoom(ring, |data|);
    WriteAll(ring, data);
  }

  /** The three ways to compute the free space, one of them through an unsigned wrap. */
  method SpaceLeft(ring: UpRing) returns (avail: nat)
    requires ring.Valid()
    ensures avail == ring.buf.Length - 1 - Distance(ring.rdOff, ring.wrOff, ring.buf.Length)
  {
    if ring.wrOff == ring.rdOff {
      avail := ring.buf.Length - 1;
    } else if ring.wrOff < ring.rdOff {
      avail := ring.rdOff - ring.wrOff - 1;
    } else {
      avail := U32(U32(U32(ring.rdOff - ring.wrOff) - 1) + ring.buf.Length);
    }
  }

  /** Move the host's offset past the bytes that are about to be overwritten. */
  method MakeRoom(ring: UpRing, n: nat)
    requires ring.Valid() && ring.buf.Length + n <= 0x1_0000_0000
    modifies ring`rdOff
    ensures var avail := ring.buf.Length - 1 - Distance(old(ring.rdOff), ring.wrOff, ring.buf.Length);
      ring.rdOff == if n > avail then Reduce(old(ring.rdOff) + n - avail, ring.buf.Length) else old(ring.rdOff)
  {
    var size := ring.buf.Length;
    var avail := SpaceLeft(ring);
    if n > avail {
      ghost var moved := ring.rdOff + n - avail;
      ring.rdOff := U32(ring.rdOff + n - avail);
      while ring.rdOff >= size
        invariant Reduce(ring.rdOff, size) == Reduce(moved, size)
      {
        ring.rdOff := ring.rdOff - size;
      }
    }
  }

  /** The write loop. */
  method WriteAll(ring: UpRing, data: seq<Byte>)
    requires 2 <= ring.buf.Length && ring.wrOff < ring.buf.Length && 0 < |data|
    modifies ring`wrOff, ring.buf
    ensures (ring.buf[..], ring.wrOff)
         == Fill(old(ring.buf[..]), old(ring.wrOff), data, ring.buf.Length - old(ring.wrOff))
  {
    var rest, avail := data, ring.buf.Length - ring.wrOff;
    ghost var goal := Fill(ring.buf[..], ring.wrOff, data, avail);
    while rest != []
      invariant rest != [] ==> 0 < avail && ring.wrOff + avail <= ring.buf.Length
      invariant if rest == [] then (ring.buf[..], ring.wrOff) == goal
                else Fill(ring.buf[..], ring.wrOff, rest, avail) == goal
      decreases |rest|
    {
      if avail > |rest| {
        CopyBytes(ring.buf, ring.wrOff, rest);
        ring.wrOff := ring.wrOff + |rest|;
        rest := [];
      } else {
        CopyBytes(ring.buf, ring.wrOff, rest[..avail]);
        ring.wrOff := 0;
        rest := rest[avail..];
        avail := ring.buf.Length - 1;
      }
    }
  }
}
