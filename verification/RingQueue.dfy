/**
The pointer ring behind every software queue of the firmware (ringque.h). Offsets stand for
the pointers. `back` always names a slot, but a bulk pop that ends at the end of the array
leaves `front` one past it, and every operation must live with that; `guard` is the foreign
memory cell it then points to. Bulk operations copy byte counts, so they are meant for
one-byte elements.
*/
module RingQueue {
  import opened Prelude
  import opened CircularBuffer

  /** Abstract bounded FIFO: operations, their effect, and what goes in and out. */
  datatype Op<T> = Push(x: T) | Pop | PushArray(xs: seq<T>) | PopArray(n: nat)

  datatype Effect<T> = Effect(queue: seq<T>, taken: seq<T>, given: seq<T>)

  function Apply<T>(q: seq<T>, cap: nat, op: Op<T>): Effect<T>
    requires |q| <= cap
  {
    match op
    case Push(x) => if |q| == cap then Effect(q, [], []) else Effect(q + [x], [x], [])
    case Pop => if q == [] then Effect(q, [], []) else Effect(q[1..], [], [q[0]])
    case PushArray(xs) => var k := Min(|xs|, cap - |q|); Effect(q + xs[..k], xs[..k], [])
    case PopArray(n) => var k := Min(n, |q|); Effect(q[k..], [], q[..k])
  }

  /** A run: the final queue, all elements accepted and all elements handed out. */
  function Run<T>(q: seq<T>, cap: nat, ops: seq<Op<T>>): (e: Effect<T>)
    requires |q| <= cap
    ensures |e.queue| <= cap
    decreases |ops|
  {
    if ops == [] then Effect(q, [], [])
    else
      var before := Run(q, cap, ops[..|ops| - 1]);
      var last := Apply(before.queue, cap, ops[|ops| - 1]);
      Effect(last.queue, before.taken + last.taken, before.given + last.given)
  }

  lemma ApplyConserves<T>(q: seq<T>, cap: nat, op: Op<T>)
    requires |q| <= cap
    ensures var e := Apply(q, cap, op); q + e.taken == e.given + e.queue && |e.queue| <= cap
  {
  }

  /** First in, first out, nothing lost or invented, over any run. */
  lemma {:induction false} RunConserves<T>(q: seq<T>, cap: nat, ops: seq<Op<T>>)
    requires |q| <= cap
    ensures var e := Run(q, cap, ops); q + e.taken == e.given + e.queue
    decreases |ops|
  {
    if ops == [] {
      assert q + [] == [] + q;
    } else {
      var before := Run(q, cap, ops[..|ops| - 1]);
      RunConserves(q, cap, ops[..|ops| - 1]);
      ApplyConserves(before.queue, cap, ops[|ops| - 1]);
      var last := Apply(before.queue, cap, ops[|ops| - 1]);
      Chain(q, before.taken, before.given, before.queue, last.taken, last.given, last.queue);
    }
  }

  lemma Chain<T>(a: seq<T>, in1: seq<T>, out1: seq<T>, b: seq<T>, in2: seq<T>, out2: seq<T>, c: seq<T>)
    requires a + in1 == out1 + b && b + in2 == out2 + c
    ensures a + (in1 + in2) == (out1 + out2) + c
  {
    assert a + (in1 + in2) == (a + in1) + in2;
    assert (out1 + b) + in2 == out1 + (b + in2);
    assert out1 + (out2 + c) == (out1 + out2) + c;
  }

  /** `s` with the slots lo..hi reversed. */
  function Flip<T>(s: seq<T>, lo: nat, hi: nat): (r: seq<T>)
    requires lo <= hi < |s|
    ensures |r| == |s|
  {
    seq(|s|, k requires 0 <= k < |s| => if lo <= k <= hi then s[lo + hi - k] else s[k])
  }

  /** The first and last `n` slots of lo..hi exchanged. */
  function HalfFlip<T>(s: seq<T>, lo: nat, hi: nat, n: nat): (r: seq<T>)
    requires lo <= hi < |s|
    ensures |r| == |s|
  {
    seq(|s|, k requires 0 <= k < |s| => if lo <= k <= hi && (k < lo + n || hi - n < k) then s[lo + hi - k] else s[k])
  }

  lemma HalfFlipStep<T>(s: seq<T>, lo: nat, hi: nat, n: nat)
    requires lo <= hi < |s| && lo + n < hi - n
    ensures var h, i, j := HalfFlip(s, lo, hi, n), lo + n, hi - n;
      HalfFlip(s, lo, hi, n + 1) == h[i := h[j]][j := h[i]]
  {
  }

  lemma WholeFlip<T>(s: seq<T>, lo: nat, hi: nat, n: nat)
    requires lo <= hi < |s| && lo + n >= hi - n
    ensures HalfFlip(s, lo, hi, n) == Flip(s, lo, hi)
  {
  }

  /** Three reversals are a left rotation by `m`. */
  lemma TripleFlip<T>(s: seq<T>, m: nat)
    requires 0 < m < |s|
    ensures Flip(Flip(Flip(s, 0, m - 1), m, |s| - 1), 0, |s| - 1) == Window(s, m, |s|)
  {
    var a := Flip(s, 0, m - 1);
    var b := Flip(a, m, |s| - 1);
    var c := Flip(b, 0, |s| - 1);
    forall k | 0 <= k < |s|
      ensures c[k] == s[Wrap(m + k, |s|)]
    {
      assert c[k] == b[|s| - 1 - k];
    }
  }

  /** The array and the cell behind it, `front` being the first slot of the second reversal. */
  function Rotated<T>(mem: seq<T>, front: nat): (r: seq<T>)
    requires 0 < front < |mem|
    ensures |r| == |mem|
  {
    var last := |mem| - 2;
    Flip(Flip(Flip(mem, 0, front - 1), Min(front, last), Max(front, last)), 0, last)
  }

  lemma ThreeFlips<T>(mem: seq<T>, front: nat, last: nat, a: seq<T>, b: seq<T>, c: seq<T>)
    requires 0 < front <= last + 1 && |mem| == |a| == |b| == last + 2
    requires a == Flip(mem, Min(0, front - 1), Max(0, front - 1))
    requires b == Flip(a, Min(front, last), Max(front, last)) && c == Flip(b, Min(0, last), Max(0, last))
    ensures c == Rotated(mem, front)
  {
  }

  /** With the front inside the array the three reversals rotate it and spare the cell behind. */
  lemma RotatedInside<T>(s: seq<T>, guard: T, front: nat)
    requires 0 < front < |s|
    ensures Rotated(s + [guard], front) == Window(s, front, |s|) + [guard]
  {
    TripleFlip(s, front);
    FlipPrefix(s, [guard], 0, front - 1);
    FlipPrefix(Flip(s, 0, front - 1), [guard], front, |s| - 1);
    FlipPrefix(Flip(Flip(s, 0, front - 1), front, |s| - 1), [guard], 0, |s| - 1);
  }

  lemma FlipPrefix<T>(s: seq<T>, more: seq<T>, lo: nat, hi: nat)
    requires lo <= hi < |s|
    ensures Flip(s + more, lo, hi) == Flip(s, lo, hi) + more
  {
  }

  /** With the front one past the end they exchange slot 0 and the cell behind the array. */
  lemma RotatedParked<T>(s: seq<T>, guard: T)
    requires s != []
    ensures Rotated(s + [guard], |s|) == [guard] + s[1..] + [s[0]]
  {
    var mem, n := s + [guard], |s|;
    var a := Flip(mem, 0, n - 1);
    var b := Flip(a, n - 1, n);
    var c := Flip(b, 0, n - 1);
    forall k | 0 <= k <= n
      ensures c[k] == ([guard] + s[1..] + [s[0]])[k]
    {
      assert c[k] == if k == n then b[n] else b[n - 1 - k];
      assert 0 < k < n ==> b[n - 1 - k] == a[n - 1 - k] == mem[k];
    }
  }

  /**
  After the reversals the `n` oldest elements stand at the start of the array, and the foreign
  cell is untouched, if and only if the front was inside the array or that cell held the oldest.
  */
  lemma RotationExact<T>(s: seq<T>, guard: T, front: nat, n: nat)
    requires 0 < front <= |s| && 0 < n <= |s|
    ensures var r := Rotated(s + [guard], front);
      r[..n] == Window(s, front, n) && r[|s|] == guard <==> front < |s| || guard == s[0]
  {
    WindowAt(s, front, n, 0);
    if front < |s| {
      RotatedInside(s, guard, front);
      forall j | 0 <= j < n
        ensures Window(s, front, |s|)[j] == Window(s, front, n)[j]
      {
        WindowAt(s, front, |s|, j);
        WindowAt(s, front, n, j);
      }
    } else {
      RotatedParked(s, guard);
      WindowSlices(s, front, n);
    }
  }

  class RingQueue<T(0)> {
    const slots: array<T>
    /** Whatever lies in memory behind the array. */
    var guard: T
    var front: nat
    var back: nat

    constructor (size: nat, zero: T, guard: T)
      requires 0 < size <= 0xFFFF
      ensures Valid() && fresh(slots) && slots.Length == size && Contents() == []
      ensures front == back == 0 && this.guard == guard
    {
      slots := new T[size](_ => zero);
      this.guard := guard;
      front, back := 0, 0;
    }

    ghost predicate Valid()
      reads this
    {
      0 < slots.Length <= 0xFFFF && back < slots.Length && front <= slots.Length
    }

    function Capacity(): nat
      requires Valid()
      reads this
    {
      slots.Length - 1
    }

    ghost function Contents(): (c: seq<T>)
      requires Valid()
      reads this, slots
      ensures |c| <= Capacity()
    {
      Content(slots[..], front, back)
    }

    function ElemsInQue(): (n: nat)
      requires Valid()
      reads this, slots
      ensures n == |Contents()|
    {
      var n := back as int - front;
      if n < 0 then n + slots.Length else n
    }

    function EmptyElemsInQue(): (n: nat)
      requires Valid()
      reads this, slots
      ensures n == Capacity() - |Contents()|
    {
      slots.Length - 1 - ElemsInQue()
    }

    /** empty() compares pointers: it misses the empty queue whose front rests one past the end. */
    method Empty() returns (r: bool)
      requires Valid()
      ensures (r <==> Contents() == []) <==> !(front == slots.Length && back == 0)
    {
      r := back == front;
    }

    /** front(): the oldest element, or the cell behind the array when the front rests there. */
    function Front(): (x: T)
      requires Valid()
      reads this, slots
      ensures front < slots.Length && Contents() != [] ==> x == Contents()[0]
      ensures front == slots.Length ==> x == guard
    {
      if front < slots.Length then
        assert front != back ==> Contents()[0] == slots[..][Wrap(front, slots.Length)];
        slots[front]
      else guard
    }

    /** push */
    method Push(x: T) returns (ok: bool)
      requires Valid()
      modifies this`back, slots
      ensures Valid() && ok == (|old(Contents())| < Capacity())
      ensures Contents() == if ok then old(Contents()) + [x] else old(Contents())
    {
      if EmptyElemsInQue() == 0 { return false; }
      ghost var s := slots[..];
      AppendBlit(s, front, back, [x]);
      slots[back] := x;
      assert slots[..] == Blit(s, back, [x]);
      back := back + 1;
      if back >= slots.Length { back := back - slots.Length; }
      ok := true;
    }

    /** pop */
    method Pop() returns (ok: bool)
      requires Valid()
      modifies this`front
      ensures Valid() && ok == (old(Contents()) != [])
      ensures Contents() == if ok then old(Contents())[1..] else []
      ensures old(front) < slots.Length ==> front < slots.Length
    {
      if ElemsInQue() == 0 { return false; }
      TakeFront(slots[..], front, back, 1);
      front := front + 1;
      if front >= slots.Length { front := front - slots.Length; }
      ok := true;
    }

    /** memcpy behind the back pointer, short of the end of the array. */
    method StoreFlat(data: seq<T>)
      requires Valid() && back + |data| < slots.Length && |Contents()| + |data| <= Capacity()
      modifies this`back, slots
      ensures Valid() && Contents() == old(Contents()) + data && back == old(back) + |data|
    {
      AppendBlit(slots[..], front, back, data);
      CopyBytes(slots, back, data);
      back := back + |data|;
    }

    /** The same in two pieces, the second one from the start of the array. */
    method StoreSplit(data: seq<T>)
      requires Valid() && back + |data| >= slots.Length && |Contents()| + |data| <= Capacity()
      modifies this`back, slots
      ensures Valid() && Contents() == old(Contents()) + data && back == old(back) + |data| - slots.Length
    {
      var toEnd := slots.Length - back;
      AppendSplitBlit(slots[..], front, back, data);
      CopyBytes(slots, back, data[..toEnd]);
      CopyBytes(slots, 0, data[toEnd..]);
      back := |data| - toEnd;
    }

    /** push_array */
    method PushArray(xs: seq<T>) returns (len: nat)
      requires Valid() && |xs| <= 0xFFFF
      modifies this`back, slots
      ensures Valid() && len == Min(|xs|, Capacity() - |old(Contents())|)
      ensures Contents() == old(Contents()) + xs[..len] && back == Wrap(old(back) + len, slots.Length)
    {
      len := |xs|;
      var room := EmptyElemsInQue();
      if room == 0 { return 0; }
      if len > room { len := room; }
      if front <= back && len >= slots.Length - back {
        StoreSplit(xs[..len]);
      } else {
        StoreFlat(xs[..len]);
      }
    }

    /** The oldest `len` elements go to the front of `dest`, in one piece or two. */
    method FetchFront(dest: array<T>, len: nat)
      requires Valid() && dest != slots && len <= |Contents()| && len <= dest.Length
      modifies dest
      ensures dest[..] == Blit(old(dest[..]), 0, Window(slots[..], front, len))
    {
      ghost var d0 := dest[..];
      WindowSlices(slots[..], front, len);
      if front + len <= slots.Length {
        CopyBytes(dest, 0, slots[front..front + len]);
      } else {
        var toEnd := slots.Length - front;
        BlitJoin(d0, slots[front..], slots[..len - toEnd]);
        CopyBytes(dest, 0, slots[front..]);
        CopyBytes(dest, toEnd, slots[..len - toEnd]);
      }
    }

    /** pop_array: fills the front of `dest` and may park `front` one past the end. */
    method PopArray(dest: array<T>, n: nat) returns (len: nat)
      requires Valid() && dest != slots && Min(n, |Contents()|) <= dest.Length
      modifies this`front, dest
      ensures Valid() && len == Min(n, |old(Contents())|)
      ensures dest[..] == Blit(old(dest[..]), 0, old(Contents())[..len])
      ensures Contents() == old(Contents())[len..]
      ensures front == if old(front) + len <= slots.Length then old(front) + len else old(front) + len - slots.Length
    {
      var elems := ElemsInQue();
      len := n;
      if elems == 0 {
        assert dest[..] == Blit(dest[..], 0, Contents()[..0]);
        return 0;
      }
      if len > elems { len := elems; }
      TakeOldest(len);
      FetchFront(dest, len);
      if front <= back {
        front := front + len;
      } else if len > slots.Length - front {
        front := len - (slots.Length - front);
      } else {
        front := front + len;
      }
    }

    lemma TakeOldest(len: nat)
      requires Valid() && len <= |Contents()|
      ensures Contents()[..len] == Window(slots[..], front, len)
      ensures Contents()[len..] == Content(slots[..], Wrap(front + len, slots.Length), back)
      ensures front + len == slots.Length ==> Contents()[len..] == Content(slots[..], slots.Length, back)
    {
      TakeFront(slots[..], front, back, len);
      ParkedFront(slots[..], back);
    }

    /** The array and the cell behind it. */
    ghost function Memory(): (m: seq<T>)
      reads this, slots
      ensures |m| == slots.Length + 1
    {
      slots[..] + [guard]
    }

    function Cell(i: nat): (x: T)
      requires i <= slots.Length
      reads this, slots
      ensures x == Memory()[i]
    {
      if i < slots.Length then slots[i] else guard
    }

    method SetCell(i: nat, x: T)
      requires i <= slots.Length
      modifies this`guard, slots
      ensures Memory() == old(Memory())[i := x]
    {
      if i < slots.Length {
        slots[i] := x;
      } else {
        guard := x;
      }
    }

    method Swap(i: nat, j: nat)
      requires i <= slots.Length && j <= slots.Length
      modifies this`guard, slots
      ensures Memory() == old(Memory())[i := old(Memory())[j]][j := old(Memory())[i]]
    {
      var tempValue := Cell(i);
      SetCell(i, Cell(j));
      SetCell(j, tempValue);
    }

    /** reverse, with the pointers in either order; the last one may be behind the array. */
    method Reverse(a: nat, b: nat)
      requires a <= slots.Length && b <= slots.Length
      modifies this`guard, slots
      ensures Memory() == Flip(old(Memory()), Min(a, b), Max(a, b))
    {
      var first, last := a, b;
      if first > last {
        first, last := last, first;
      }
      ghost var m := Memory();
      var lo, hi: int := first, last;
      while lo < hi
        invariant first <= lo <= hi + 1 && lo + hi == first + last
        invariant Memory() == HalfFlip(m, first, last, lo - first)
      {
        HalfFlipStep(m, first, last, lo - first);
        Swap(lo, hi);
        lo, hi := lo + 1, hi - 1;
      }
      WholeFlip(m, first, last, lo - first);
    }

    /** The three reversals. */
    method Rotate()
      requires Valid() && 0 < front
      modifies this`guard, slots
      ensures Memory() == Rotated(old(Memory()), front)
    {
      var last := slots.Length - 1;
      ghost var m := Memory();
      Reverse(0, front - 1);
      ghost var a := Memory();
      Reverse(front, last);
      ghost var b := Memory();
      Reverse(0, last);
      ThreeFlips(m, front, last, a, b, Memory());
    }

    /** The front rests one past the end, and there are elements at the start of the array. */
    predicate Parked()
      requires Valid()
      reads this, slots
    {
      front == slots.Length && ElemsInQue() != 0
    }

    /**
    align_que2array. The content moves to the start of the array; from the parked state the
    second reversal reaches behind the array and exchanges the oldest element with what lies there.
    */
    method AlignQue2Array()
      requires Valid()
      modifies this`guard, this`front, this`back, slots
      ensures Valid() && front == 0
      ensures !old(Parked()) ==> Contents() == old(Contents()) && guard == old(guard)
      ensures old(Parked()) ==> Contents() == [old(guard)] + old(Contents())[1..] && guard == old(Contents())[0]
    {
      var elems := ElemsInQue();
      if elems == 0 {
        front, back := 0, 0;
        return;
      }
      if front == 0 { return; }
      if front > back {
        AlignWrapped(elems);
      } else {
        WindowSlices(slots[..], front, elems);
        WindowOfBlit(slots[..], 0, slots[front..front + elems]);
        CopyBytes(slots, 0, slots[front..front + elems]);
      }
      front, back := 0, elems;
    }

    /** The part of align_que2array for a front behind the back. */
    method AlignWrapped(elems: nat)
      requires Valid() && back < front && elems == |Contents()| > 0
      modifies this`guard, slots
      ensures !old(Parked()) ==> Window(slots[..], 0, elems) == old(Contents()) && guard == old(guard)
      ensures old(Parked()) ==>
                Window(slots[..], 0, elems) == [old(guard)] + old(Contents())[1..] && guard == old(Contents())[0]
    {
      ghost var s, g, q := slots[..], guard, Contents();
      if front < slots.Length {
        RotatedInside(s, g, front);
        WindowOfRotation(s, front, elems);
      } else {
        RotatedParked(s, g);
        ParkedFront(s, back);
        WindowSlices(s, 0, elems);
        WindowSlices([g] + s[1..], 0, elems);
      }
      Rotate();
      MemoryParts();
    }

    lemma MemoryParts()
      ensures slots[..] == Memory()[..slots.Length] && guard == Memory()[slots.Length]
    {
    }

    /**
    front_ptr(): the content as one slice of the array. Queue and foreign memory come through
    if and only if the front was inside the array, the queue was empty, or the foreign cell
    happened to hold the oldest element.
    */
    method FrontPtr() returns (at: nat)
      requires Valid()
      modifies this`guard, this`front, this`back, slots
      ensures Valid() && at == front
      ensures at + |Contents()| <= slots.Length && slots[at..at + |Contents()|] == Contents()
      ensures old(Parked()) ==> Contents() == [old(guard)] + old(Contents())[1..] && guard == old(Contents())[0]
      ensures Contents() == old(Contents()) && guard == old(guard)
              <==> old(front) < slots.Length || old(Contents()) == [] || old(guard) == old(Contents())[0]
    {
      if front > back {
        AlignQue2Array();
      }
      WindowSlices(slots[..], front, |Contents()|);
      at := front;
    }

    /** back_ptr(): all free room, as one slice behind the content. */
    method BackPtr() returns (at: nat)
      requires Valid()
      modifies this`guard, this`front, this`back, slots
      ensures Valid() && at == back && Contents() == old(Contents())
      ensures at + Capacity() - |Contents()| < slots.Length && guard == old(guard)
    {
      if !(front == 0 || front > back) {
        AlignQue2Array();
      }
      at := back;
    }

    /**
    call_back_push. The callback is offered `n` bytes at the back pointer, writes the bytes
    callback(n).0 there and reports callback(n).1 of them. Whatever it scribbles inside its
    region, exactly the reported bytes join the queue.
    */
    method CallBackPush(callback: nat -> (seq<T>, nat), len: nat) returns (pushed: nat)
      requires Valid()
      requires forall n :: callback(n).1 <= |callback(n).0| <= n
      modifies this`guard, this`front, this`back, slots
      ensures Valid() && guard == old(guard)
      ensures var n := Min(len, Capacity() - |old(Contents())|);
        && pushed == (if n == 0 then 0 else callback(n).1)
        && Contents() == old(Contents()) + callback(n).0[..pushed]
    {
      var room := EmptyElemsInQue();
      var n := if len < room then len else room;
      if n == 0 { return 0; }
      var at := BackPtr();
      var (written, count) := callback(n);
      Absorb(written, count);
      pushed := count;
    }

    /** The callback scribbles `written` behind the content; `count` of it is kept. */
    method Absorb(written: seq<T>, count: nat)
      requires Valid() && count <= |written|
      requires |Contents()| + |written| <= Capacity() && back + |written| < slots.Length
      modifies this`back, slots
      ensures Valid() && Contents() == old(Contents()) + written[..count]
    {
      BlitVacant(slots[..], front, back, back, written);
      CopyBytes(slots, back, written);
      AppendBack(slots[..], front, back, count);
      WindowSlices(slots[..], back, count);
      assert slots[back..back + count] == written[..count];
      back := back + count;
    }

    /** Any operation does to the contents, and hands out, what it does to the abstract FIFO. */
    method Do(op: Op<T>, dest: array<T>) returns (given: seq<T>)
      requires Valid() && dest != slots
      requires op.PushArray? ==> |op.xs| <= 0xFFFF
      requires op.PopArray? ==> Min(op.n, Capacity()) <= dest.Length
      modifies this, slots, dest
      ensures Valid()
      ensures var e := Apply(old(Contents()), Capacity(), op); e.queue == Contents() && e.given == given
    {
      given := [];
      match op {
        case Push(x) =>
          var ok := Push(x);
        case Pop =>
          ghost var q := Contents();
          if ElemsInQue() != 0 {
            WindowAt(slots[..], front, |q|, 0);
            given := [slots[if front < slots.Length then front else 0]];
          }
          var ok := Pop();
        case PushArray(xs) =>
          var len := PushArray(xs);
        case PopArray(n) =>
          var len := PopArray(dest, n);
          given := dest[..len];
      }
    }

    /** Any run of operations refines the bounded FIFO of capacity MEM_LEN_ - 1. */
    method Replay(ops: seq<Op<T>>, dest: array<T>) returns (given: seq<T>)
      requires Valid() && dest != slots && Capacity() <= dest.Length
      requires forall op :: op in ops && op.PushArray? ==> |op.xs| <= 0xFFFF
      modifies this, slots, dest
      ensures Valid()
      ensures var e := Run(old(Contents()), Capacity(), ops);
        Contents() == e.queue && given == e.given && old(Contents()) + e.taken == given + Contents()
    {
      given := [];
      ghost var q0 := Contents();
      for i := 0 to |ops|
        invariant Valid()
        invariant Run(q0, Capacity(), ops[..i]).queue == Contents() && Run(q0, Capacity(), ops[..i]).given == given
      {
        var more := Do(ops[i], dest);
        assert ops[..i + 1][..i] == ops[..i];
        given := given + more;
      }
      assert ops[..|ops|] == ops;
      RunConserves(q0, Capacity(), ops);
    }
  }

  /**
  A run that reaches the parked state and then asks for front_ptr(): the queue holds 5, but
  shows whatever lay behind the array, and 5 has gone there.
  */
  method LosesOldest(guard: Byte) returns (q: RingQueue<Byte>)
    ensures fresh(q) && q.Valid() && q.Contents() == [guard] && q.guard == 5
  {
    q := new RingQueue<Byte>(4, 0, guard);
    var dest := new Byte[4](_ => 0);
    var len := q.PushArray([1, 2, 3]);
    assert q.Contents() == [1, 2, 3];
    len := q.PopArray(dest, 2);
    assert q.Contents() == [3];
    len := q.PushArray([4, 5]);
    assert q.Contents() == [3, 4, 5];
    len := q.PopArray(dest, 2);
    assert q.Contents() == [5] && q.front == 4;
    var at := q.FrontPtr();
  }
}
