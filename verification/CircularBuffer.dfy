/**
Circular storage shared by every queue of the firmware: a window of `n` slots that
starts at `start` and continues at slot 0 after the last one. `start` may rest one past
the end, because the bulk pop of the pointer ring can leave it there.
*/
module CircularBuffer {

  type Byte = b: int | 0 <= b < 0x100

  /** Slot number `x`, counted from slot 0 and wrapped once. */
  function Wrap(x: nat, size: nat): (slot: nat)
    requires x < 2 * size
    ensures slot < size
  {
    if x < size then x else x - size
  }

  /** Number of slots from `from` up to `to`, going round the end when `to` is behind. */
  function Distance(from: nat, to: nat, size: nat): (d: nat)
    requires from <= size && to < size
  {
    if from <= to then to - from else to + size - from
  }

  function Window<T>(buf: seq<T>, start: nat, n: nat): (w: seq<T>)
    requires start <= |buf| && n <= |buf|
    ensures |w| == n
  {
    seq(n, j requires 0 <= j < n => buf[Wrap(start + j, |buf|)])
  }

  lemma WindowAt<T>(buf: seq<T>, start: nat, n: nat, j: nat)
    requires start <= |buf| && j < n <= |buf|
    ensures Window(buf, start, n)[j] == buf[Wrap(start + j, |buf|)]
  {
  }

  lemma WindowSplit<T>(buf: seq<T>, start: nat, m: nat, n: nat)
    requires 0 < |buf| && start <= |buf| && m <= n <= |buf| && start + m < 2 * |buf|
    ensures Window(buf, start, n) == Window(buf, start, m) + Window(buf, Wrap(start + m, |buf|), n - m)
  {
    var tail := Window(buf, Wrap(start + m, |buf|), n - m);
    forall j | 0 <= j < n
      ensures Window(buf, start, n)[j] == (Window(buf, start, m) + tail)[j]
    {
      WindowAt(buf, start, n, j);
      if j < m {
        WindowAt(buf, start, m, j);
      } else {
        WindowAt(buf, Wrap(start + m, |buf|), n - m, j - m);
      }
    }
  }

  /** The elements from the read offset up to the write offset. */
  function Content<T>(buf: seq<T>, rd: nat, wr: nat): (c: seq<T>)
    requires rd <= |buf| && wr < |buf|
    ensures |c| == Distance(rd, wr, |buf|)
  {
    Window(buf, rd, Distance(rd, wr, |buf|))
  }

  lemma TakeFront<T>(buf: seq<T>, rd: nat, wr: nat, k: nat)
    requires rd <= |buf| && wr < |buf| && k <= Distance(rd, wr, |buf|) && rd + k < 2 * |buf|
    ensures Content(buf, rd, wr) == Window(buf, rd, k) + Content(buf, Wrap(rd + k, |buf|), wr)
  {
    WindowSplit(buf, rd, k, Distance(rd, wr, |buf|));
  }

  lemma AppendBack<T>(buf: seq<T>, rd: nat, wr: nat, n: nat)
    requires rd <= |buf| && wr < |buf| && Distance(rd, wr, |buf|) + n < |buf|
    ensures Content(buf, rd, Wrap(wr + n, |buf|)) == Content(buf, rd, wr) + Window(buf, wr, n)
  {
    var used := Distance(rd, wr, |buf|);
    WindowSplit(buf, rd, used, used + n);
  }

  /** Storing into a slot that holds no element leaves the content alone. */
  lemma StoreVacant<T>(buf: seq<T>, rd: nat, wr: nat, slot: nat, x: T)
    requires rd <= |buf| && wr < |buf| && slot < |buf|
    requires Distance(wr, slot, |buf|) + Distance(rd, wr, |buf|) < |buf|
    ensures Content(buf[slot := x], rd, wr) == Content(buf, rd, wr)
  {
    var n := Distance(rd, wr, |buf|);
    forall j | 0 <= j < n
      ensures Window(buf[slot := x], rd, n)[j] == Window(buf, rd, n)[j]
    {
      assert Wrap(rd + j, |buf|) != slot;
    }
  }

  /** `buf` after memcpy of `src` to slot `dst`. */
  function Blit<T>(buf: seq<T>, dst: nat, src: seq<T>): (r: seq<T>)
    requires dst + |src| <= |buf|
    ensures |r| == |buf|
  {
    buf[..dst] + src + buf[dst + |src|..]
  }

  lemma BlitStep<T>(buf: seq<T>, dst: nat, src: seq<T>, i: nat)
    requires i < |src| && dst + i < |buf|
    ensures Blit(buf, dst, src[..i])[dst + i := src[i]] == Blit(buf, dst, src[..i + 1])
  {
  }

  /** memcpy into an array. */
  method CopyBytes<T>(buf: array<T>, dst: nat, src: seq<T>)
    requires dst + |src| <= buf.Length
    modifies buf
    ensures buf[..] == Blit(old(buf[..]), dst, src)
  {
    ghost var b0 := buf[..];
    for i := 0 to |src|
      invariant buf[..] == Blit(b0, dst, src[..i])
    {
      BlitStep(b0, dst, src, i);
      buf[dst + i] := src[i];
    }
    assert src[..|src|] == src;
  }

  /** What was copied to `start`, in one piece or continued at slot 0, is what the window shows. */
  lemma WindowOfBlit<T>(buf: seq<T>, start: nat, data: seq<T>)
    requires start + |data| <= |buf|
    ensures Window(Blit(buf, start, data), start, |data|) == data
  {
    forall j | 0 <= j < |data|
      ensures Window(Blit(buf, start, data), start, |data|)[j] == data[j]
    {
      assert Wrap(start + j, |buf|) == start + j;
    }
  }

  lemma WindowOfSplitBlit<T>(buf: seq<T>, start: nat, data: seq<T>)
    requires start <= |buf| <= start + |data| && |data| <= |buf|
    ensures var rem := |buf| - start;
      Window(Blit(Blit(buf, start, data[..rem]), 0, data[rem..]), start, |data|) == data
  {
    var rem := |buf| - start;
    var both := Blit(Blit(buf, start, data[..rem]), 0, data[rem..]);
    forall j | 0 <= j < |data|
      ensures Window(both, start, |data|)[j] == data[j]
    {
      WindowAt(both, start, |data|, j);
      assert j < rem ==> both[start + j] == data[j];
      assert j >= rem ==> both[j - rem] == data[j];
    }
  }

  /** Copying into slots that hold no element leaves the content alone. */
  lemma BlitVacant<T>(buf: seq<T>, rd: nat, wr: nat, dst: nat, src: seq<T>)
    requires rd <= |buf| && wr < |buf| && dst < |buf| && dst + |src| <= |buf|
    requires Distance(wr, dst, |buf|) + |src| + Distance(rd, wr, |buf|) <= |buf|
    ensures Content(Blit(buf, dst, src), rd, wr) == Content(buf, rd, wr)
  {
    var n := Distance(rd, wr, |buf|);
    forall j | 0 <= j < n
      ensures Window(Blit(buf, dst, src), rd, n)[j] == Window(buf, rd, n)[j]
    {
      var k := Wrap(rd + j, |buf|);
      assert k < dst || dst + |src| <= k;
    }
  }

  /** memcpy behind the content, then moving the write offset, appends. */
  lemma AppendBlit<T>(buf: seq<T>, rd: nat, wr: nat, data: seq<T>)
    requires rd <= |buf| && wr < |buf| && wr + |data| <= |buf|
    requires Distance(rd, wr, |buf|) + |data| < |buf|
    ensures Content(Blit(buf, wr, data), rd, Wrap(wr + |data|, |buf|)) == Content(buf, rd, wr) + data
  {
    BlitVacant(buf, rd, wr, wr, data);
    AppendBack(Blit(buf, wr, data), rd, wr, |data|);
    WindowOfBlit(buf, wr, data);
  }

  lemma AppendSplitBlit<T>(buf: seq<T>, rd: nat, wr: nat, data: seq<T>)
    requires rd <= |buf| && wr < |buf| <= wr + |data|
    requires Distance(rd, wr, |buf|) + |data| < |buf|
    ensures var rem := |buf| - wr;
      Content(Blit(Blit(buf, wr, data[..rem]), 0, data[rem..]), rd, |data| - rem) == Content(buf, rd, wr) + data
  {
    var rem := |buf| - wr;
    var once := Blit(buf, wr, data[..rem]);
    BlitVacant(buf, rd, wr, wr, data[..rem]);
    BlitVacant(once, rd, wr, 0, data[rem..]);
    AppendBack(Blit(once, 0, data[rem..]), rd, wr, |data|);
    WindowOfSplitBlit(buf, wr, data);
  }

  /** A window is one slice of the buffer or two. */
  lemma WindowSlices<T>(buf: seq<T>, start: nat, n: nat)
    requires start <= |buf| && n <= |buf|
    ensures start + n <= |buf| ==> Window(buf, start, n) == buf[start..start + n]
    ensures start + n >= |buf| ==> Window(buf, start, n) == buf[start..] + buf[..start + n - |buf|]
  {
    forall j | 0 <= j < n
      ensures start + n <= |buf| ==> Window(buf, start, n)[j] == buf[start..start + n][j]
      ensures start + n >= |buf| ==> Window(buf, start, n)[j] == (buf[start..] + buf[..start + n - |buf|])[j]
    {
      WindowAt(buf, start, n, j);
    }
  }

  /** After rotating the whole buffer left by `start`, a window at `start` begins at slot 0. */
  lemma WindowOfRotation<T>(buf: seq<T>, start: nat, n: nat)
    requires start <= |buf| && n <= |buf|
    ensures Window(Window(buf, start, |buf|), 0, n) == Window(buf, start, n)
  {
    forall j | 0 <= j < n
      ensures Window(Window(buf, start, |buf|), 0, n)[j] == Window(buf, start, n)[j]
    {
      WindowAt(Window(buf, start, |buf|), 0, n, j);
      WindowAt(buf, start, |buf|, j);
      WindowAt(buf, start, n, j);
    }
  }

  /** A read offset one past the end is as good as slot 0. */
  lemma ParkedFront<T>(buf: seq<T>, wr: nat)
    requires wr < |buf|
    ensures Content(buf, |buf|, wr) == Content(buf, 0, wr)
  {
    forall j | 0 <= j < wr
      ensures Content(buf, |buf|, wr)[j] == Content(buf, 0, wr)[j]
    {
      WindowAt(buf, |buf|, wr, j);
      WindowAt(buf, 0, wr, j);
    }
  }

  lemma BlitJoin<T>(buf: seq<T>, a: seq<T>, b: seq<T>)
    requires |a| + |b| <= |buf|
    ensures Blit(Blit(buf, 0, a), |a|, b) == Blit(buf, 0, a + b)
  {
  }
}
