/**
What the console over CAN does to a stream of bytes, as a function of its state and of what
the hardware answers. Bytes sit in the console queue, in frames that wait, or in frames a
mailbox has taken. The main result says exactly which polls lose bytes: those in which the
driver claims room it does not have because nobody acknowledges on the bus.
*/
module CanStream {
  import opened Prelude
  import opened CircularBuffer

  const PATIENCE := 3000
  const TEMP_BUFF := 256

  // ---------------------------------------------------------------- frames

  /** The bytes of a list of payloads. */
  function Flat(frames: seq<seq<Byte>>): seq<Byte> {
    if frames == [] then [] else Flat(frames[..|frames| - 1]) + frames[|frames| - 1]
  }

  lemma {:induction false} FlatAppend(a: seq<seq<Byte>>, b: seq<seq<Byte>>)
    ensures Flat(a + b) == Flat(a) + Flat(b)
    decreases |b|
  {
    if b == [] {
      assert a + b == a;
    } else {
      assert (a + b)[..|a + b| - 1] == a + b[..|b| - 1];
      FlatAppend(a, b[..|b| - 1]);
    }
  }

  /** Pieces of eight bytes, and a last one of the rest; nothing still makes one empty piece. */
  function Chunks(src: seq<Byte>): (c: seq<seq<Byte>>)
    ensures |c| == if src == [] then 1 else (|src| + 7) / 8
    ensures forall piece :: piece in c ==> |piece| <= 8
  {
    if |src| <= 8 then [src] else [src[..8]] + Chunks(src[8..])
  }

  lemma {:induction false} ChunksFlat(src: seq<Byte>)
    ensures Flat(Chunks(src)) == src
    decreases |src|
  {
    if |src| <= 8 {
      assert Flat([src]) == Flat([]) + src;
    } else {
      ChunksFlat(src[8..]);
      FlatAppend([src[..8]], Chunks(src[8..]));
      assert Flat([src[..8]]) == Flat([]) + src[..8];
    }
  }

  // ---------------------------------------------------------------- state and hardware

  /**
  Frames on the wire and frames waiting, the console queue, the polls without acknowledge in
  a row, and the capacities of the two queues.
  */
  datatype Pipe = Pipe(sent: seq<seq<Byte>>, waiting: seq<seq<Byte>>, queue: seq<Byte>, noAcks: nat,
                       frameCap: nat, byteCap: nat)
  {
    predicate Valid() { |waiting| <= frameCap && |queue| <= byteCap && noAcks < 0x1_0000 }

    function Room(): nat
      requires Valid()
    {
      frameCap - |waiting|
    }

    /** All bytes, in the order in which they were accepted. */
    function Total(): seq<Byte> { Flat(sent) + Flat(waiting) + queue }
  }

  /**
  What the hardware answers during one poll of the console: how many frames the mailboxes take
  in its two transmitter runs, whether they are done, and whether the last error was a missing
  acknowledge at each of the four places that look.
  */
  datatype Bus = Bus(taken: nat, noAck: bool, mailboxesDone: bool, takenAgain: nat,
                     noAckFirst: bool, noAckSecond: bool, noAckWrite: bool)

  /** CCanRouter::runTransmitter */
  function Drain(p: Pipe, taken: nat): (r: Pipe)
    requires p.Valid()
    ensures r.Valid()
  {
    var k := Min(taken, |p.waiting|);
    p.(sent := p.sent + p.waiting[..k], waiting := p.waiting[k..])
  }

  /** The counter of polls without acknowledge, 16 bits wide. */
  function CountNoAck(noAcks: nat, noAck: bool): (n: nat)
    requires noAcks < 0x1_0000
    ensures n < 0x1_0000
  {
    if noAck then (noAcks + 1) % 0x1_0000 else 0
  }

  /** CCanConsole::isIdle, after its transmitter run; a bus dead for long counts as idle. */
  predicate Idle(noAcks: nat, noAck: bool, empty: bool, mailboxesDone: bool) {
    (noAck && noAcks > PATIENCE) || (empty && mailboxesDone)
  }

  /** CCanConsole::getFreeSize */
  function FreeSize(room: nat, noAck: bool): nat {
    if room == 0 && noAck then 64 else if room >= 4 then 32 else room * 8
  }

  /** The number of bytes the console asks of its queue, with `n` in it. */
  function CopyLen(n: nat, room: nat, b: Bus): (len: nat)
    ensures len <= TEMP_BUFF
    ensures room > 0 ==> len == Min(n, FreeSize(room, false)) && len <= 8 * room
  {
    Min(TEMP_BUFF, if FreeSize(room, b.noAckFirst) < n then FreeSize(room, b.noAckSecond) else n)
  }

  /** `len` bytes leave the console queue; on a full frame queue they are gone. */
  function Move(p: Pipe, len: nat): (r: Pipe)
    requires p.Valid() && (p.Room() > 0 ==> len <= |p.queue| && len <= 8 * p.Room())
    ensures r.Valid()
  {
    var k := Min(len, |p.queue|);
    p.(queue := p.queue[k..],
       waiting := if len == 0 || p.Room() == 0 then p.waiting else p.waiting + Chunks(p.queue[..k]))
  }

  /** The state in which the poll has found out whether the device is idle. */
  function Checked(p: Pipe, b: Bus): (r: Pipe)
    requires p.Valid()
    ensures r.Valid()
  {
    Drain(p, b.taken).(noAcks := CountNoAck(p.noAcks, b.noAck))
  }

  predicate FoundIdle(p: Pipe, b: Bus)
    requires p.Valid()
  {
    Idle(p.noAcks, b.noAck, Drain(p, b.taken).waiting == [], b.mailboxesDone)
  }

  /** The state in which an idle device is asked for its free size. */
  function Ready(p: Pipe, b: Bus): (r: Pipe)
    requires p.Valid()
    ensures r.Valid()
  {
    Drain(Checked(p, b), b.takenAgain)
  }

  /** CConsole::runTransmitter on an open CAN console. */
  function Poll(p: Pipe, b: Bus): (r: Pipe)
    requires p.Valid()
    ensures r.Valid() && r.frameCap == p.frameCap && r.byteCap == p.byteCap
  {
    if !FoundIdle(p, b) then Checked(p, b)
    else
      var q := Ready(p, b);
      Move(q, CopyLen(|q.queue|, q.Room(), b))
  }

  /** The bytes a poll loses. */
  function Lost(p: Pipe, b: Bus): nat
    requires p.Valid()
  {
    var q := Ready(p, b);
    if FoundIdle(p, b) && q.Room() == 0 then Min(CopyLen(|q.queue|, 0, b), |q.queue|) else 0
  }

  // ---------------------------------------------------------------- one poll

  lemma DrainKeeps(p: Pipe, taken: nat)
    requires p.Valid()
    ensures Drain(p, taken).Total() == p.Total() && Drain(p, taken).queue == p.queue
  {
    var k := Min(taken, |p.waiting|);
    assert p.waiting == p.waiting[..k] + p.waiting[k..];
    FlatAppend(p.waiting[..k], p.waiting[k..]);
    FlatAppend(p.sent, p.waiting[..k]);
    assert Flat(p.sent) + (Flat(p.waiting[..k]) + Flat(p.waiting[k..])) + p.queue
        == Flat(p.sent) + Flat(p.waiting[..k]) + Flat(p.waiting[k..]) + p.queue;
  }

  lemma MoveKeeps(p: Pipe, len: nat)
    requires p.Valid() && (p.Room() > 0 ==> len <= |p.queue| && len <= 8 * p.Room())
    ensures len == 0 || p.Room() > 0 ==> Move(p, len).Total() == p.Total()
    ensures p.Room() == 0 ==> |Move(p, len).Total()| == |p.Total()| - Min(len, |p.queue|)
  {
    if len == 0 {
      assert Move(p, 0) == p;
    } else if p.Room() > 0 {
      Fragmented(p.sent, p.waiting, p.queue, len);
    }
  }

  lemma Fragmented(sent: seq<seq<Byte>>, waiting: seq<seq<Byte>>, queue: seq<Byte>, len: nat)
    requires len <= |queue|
    ensures Flat(sent) + Flat(waiting + Chunks(queue[..len])) + queue[len..] == Flat(sent) + Flat(waiting) + queue
  {
    FlatAppend(waiting, Chunks(queue[..len]));
    ChunksFlat(queue[..len]);
    Regroup(Flat(sent), Flat(waiting), queue[..len], queue[len..], queue);
  }

  lemma Regroup(a: seq<Byte>, b: seq<Byte>, c: seq<Byte>, d: seq<Byte>, cd: seq<Byte>)
    requires cd == c + d
    ensures a + (b + c) + d == a + b + cd
  {
  }

  lemma ReadyKeeps(p: Pipe, b: Bus)
    requires p.Valid()
    ensures Checked(p, b).Total() == Ready(p, b).Total() == p.Total()
    ensures Ready(p, b).queue == p.queue
  {
    DrainKeeps(p, b.taken);
    DrainKeeps(Checked(p, b), b.takenAgain);
  }

  /** Nothing is lost, repeated or reordered, but for the bytes counted as lost. */
  lemma PollKeeps(p: Pipe, b: Bus)
    requires p.Valid()
    ensures Lost(p, b) == 0 ==> Poll(p, b).Total() == p.Total()
    ensures |Poll(p, b).Total()| + Lost(p, b) == |p.Total()|
  {
    ReadyKeeps(p, b);
    var q := Ready(p, b);
    MoveKeeps(q, CopyLen(|q.queue|, q.Room(), b));
  }

  /** The device claims room on a full frame queue: at the first sample if that covers the queue, or at the second. */
  predicate ClaimsRoom(n: nat, b: Bus) {
    b.noAckSecond || (b.noAckFirst && n <= 64)
  }

  /** On a full frame queue: how many of `n` bytes the console takes out of its queue. */
  lemma TakenWhenFull(n: nat, b: Bus)
    ensures Min(CopyLen(n, 0, b), n) == if ClaimsRoom(n, b) then Min(64, n) else 0
  {
  }

  /**
  A poll loses bytes if and only if it finds the device idle and the frame queue full while
  bytes wait, and the device claims room for them.
  */
  lemma LosesExactly(p: Pipe, b: Bus)
    requires p.Valid()
    ensures Lost(p, b) > 0 <==>
              FoundIdle(p, b) && Ready(p, b).Room() == 0 && p.queue != [] && ClaimsRoom(|p.queue|, b)
    ensures Lost(p, b) > 0 ==> Lost(p, b) == Min(64, |p.queue|)
  {
    ReadyKeeps(p, b);
    TakenWhenFull(|p.queue|, b);
    if FoundIdle(p, b) && Ready(p, b).Room() == 0 {
      assert Lost(p, b) == Min(CopyLen(|p.queue|, 0, b), |p.queue|);
    }
  }

  /**
  In terms of what was there before the poll, for any frame queue that can hold a frame: the
  bus has been dead for more than 3000 polls and still is, the frame queue is full, no mailbox
  takes a frame, bytes wait, and the device claims room for them.
  */
  lemma LosesOnDeadBus(p: Pipe, b: Bus)
    requires p.Valid() && p.frameCap > 0
    ensures Lost(p, b) > 0 <==>
              && p.noAcks > PATIENCE && b.noAck && |p.waiting| == p.frameCap && b.taken == b.takenAgain == 0
              && p.queue != [] && ClaimsRoom(|p.queue|, b)
  {
    LosesExactly(p, b);
  }

  // ---------------------------------------------------------------- progress

  /** The mailboxes take every frame that waits and are done with them. */
  predicate Drained(p: Pipe, b: Bus) { b.taken >= |p.waiting| && b.mailboxesDone }

  /** The bus has been dead for long and still is. */
  predicate Dead(p: Pipe, b: Bus) { b.noAck && p.noAcks > PATIENCE }

  /** The frames that neither transmitter run of a poll could send. */
  function StillWaiting(p: Pipe, b: Bus): nat {
    if b.taken + b.takenAgain < |p.waiting| then |p.waiting| - (b.taken + b.takenAgain) else 0
  }

  /**
  How many bytes leave the console queue in a poll. A drained device gets as many as are there,
  fit its free frames and are no more than 32, and so does one whose bus has been dead for long
  while frames are free; any other device gets none.
  */
  lemma PollMoves(p: Pipe, b: Bus)
    requires p.Valid()
    ensures Poll(p, b).noAcks == if !b.noAck then 0 else if p.noAcks == 0xFFFF then 0 else p.noAcks + 1
    ensures !Drained(p, b) && !Dead(p, b) ==> Poll(p, b).queue == p.queue
    ensures (Drained(p, b) || Dead(p, b)) && StillWaiting(p, b) < p.frameCap ==>
              |p.queue| == |Poll(p, b).queue| + Min(|p.queue|, Min(8 * (p.frameCap - StillWaiting(p, b)), 32))
  {
    DrainedFound(p, b);
    RoomLeft(p, b);
  }

  lemma DrainedFound(p: Pipe, b: Bus)
    requires p.Valid()
    ensures FoundIdle(p, b) <==> Drained(p, b) || Dead(p, b)
  {
  }

  lemma RoomLeft(p: Pipe, b: Bus)
    requires p.Valid()
    ensures Ready(p, b).Room() == p.frameCap - StillWaiting(p, b) && Ready(p, b).queue == p.queue
  {
  }

  /**
  A poll of a drained device with room for a frame: what waited is on the wire, and the bytes
  that leave the queue, as many as PollMoves says, are in frames of at most eight, in order.
  */
  lemma DrainedPoll(p: Pipe, b: Bus)
    requires p.Valid() && p.frameCap > 0 && Drained(p, b)
    ensures var (q, m) := (Poll(p, b), Min(|p.queue|, Min(8 * p.frameCap, 32)));
      && q.sent == p.sent + p.waiting && q.queue == p.queue[m..]
      && Flat(q.waiting) == p.queue[..m] && |q.waiting| == (m + 7) / 8
      && forall frame :: frame in q.waiting ==> |frame| <= 8
  {
    var m := Min(|p.queue|, Min(8 * p.frameCap, 32));
    DrainedReady(p, b);
    DrainedMoves(p, b, Ready(p, b), m);
    ReadyMoves(Ready(p, b), m, Poll(p, b));
  }

  lemma DrainedMoves(p: Pipe, b: Bus, ready: Pipe, m: nat)
    requires p.Valid() && p.frameCap > 0 && Drained(p, b) && ready == Ready(p, b)
    requires m == Min(|p.queue|, Min(8 * p.frameCap, 32))
    ensures ready.Room() > 0 && m <= |ready.queue| && m <= 8 * ready.Room()
    ensures Poll(p, b) == Move(ready, m)
  {
    DrainedFound(p, b);
    DrainedReady(p, b);
  }

  lemma ReadyMoves(p: Pipe, m: nat, q: Pipe)
    requires p.Valid() && p.waiting == [] && p.frameCap > 0 && m <= |p.queue| && m <= 8 * p.frameCap
    requires q == Move(p, m)
    ensures
      && q.sent == p.sent && q.queue == p.queue[m..] && Flat(q.waiting) == p.queue[..m]
      && |q.waiting| == (m + 7) / 8 && forall frame :: frame in q.waiting ==> |frame| <= 8
  {
    ChunksFlat(p.queue[..m]);
    assert [] + Chunks(p.queue[..m]) == Chunks(p.queue[..m]);
    if m == 0 {
      assert p.queue[..0] == [] && Flat([]) == [];
    }
  }

  lemma DrainedReady(p: Pipe, b: Bus)
    requires p.Valid() && Drained(p, b)
    ensures var q := Ready(p, b); q.sent == p.sent + p.waiting && q.waiting == [] && q.queue == p.queue
    ensures Ready(p, b).frameCap == p.frameCap
  {
    assert p.waiting[..|p.waiting|] == p.waiting;
    assert p.sent + p.waiting + [] == p.sent + p.waiting;
  }

  // ---------------------------------------------------------------- runs

  /** What may happen to a console: callers print, the main loop polls it and the CAN router. */
  datatype Event =
    | Send(buf: seq<Byte>, bus: Bus)
    | Putc(c: Byte, bus: Bus)
    | PollConsole(bus: Bus)
    | PollRouter(taken: nat)

  /** The bytes an event hands over, and how many of them are accepted. */
  function Offered(e: Event): seq<Byte> {
    match e
    case Send(buf, _) => buf
    case Putc(c, _) => [c]
    case _ => []
  }

  function Accepted(p: Pipe, e: Event): seq<Byte>
    requires p.Valid()
  {
    Offered(e)[..Min(|Offered(e)|, p.byteCap - |p.queue|)]
  }

  function Enqueued(p: Pipe, e: Event): (r: Pipe)
    requires p.Valid()
    ensures r.Valid()
  {
    p.(queue := p.queue + Accepted(p, e))
  }

  function Next(p: Pipe, e: Event): (r: Pipe)
    requires p.Valid()
    ensures r.Valid() && r.frameCap == p.frameCap && r.byteCap == p.byteCap
  {
    if e.PollRouter? then Drain(p, e.taken) else Poll(Enqueued(p, e), e.bus)
  }

  function LostIn(p: Pipe, e: Event): nat
    requires p.Valid()
  {
    if e.PollRouter? then 0 else Lost(Enqueued(p, e), e.bus)
  }

  function Run(p: Pipe, es: seq<Event>): (r: Pipe)
    requires p.Valid()
    ensures r.Valid() && r.frameCap == p.frameCap && r.byteCap == p.byteCap
    decreases |es|
  {
    if es == [] then p else Next(Run(p, es[..|es| - 1]), es[|es| - 1])
  }

  function AllAccepted(p: Pipe, es: seq<Event>): seq<Byte>
    requires p.Valid()
    decreases |es|
  {
    if es == [] then []
    else AllAccepted(p, es[..|es| - 1]) + Accepted(Run(p, es[..|es| - 1]), es[|es| - 1])
  }

  function AllLost(p: Pipe, es: seq<Event>): nat
    requires p.Valid()
    decreases |es|
  {
    if es == [] then 0 else AllLost(p, es[..|es| - 1]) + LostIn(Run(p, es[..|es| - 1]), es[|es| - 1])
  }

  lemma NextKeeps(p: Pipe, e: Event)
    requires p.Valid()
    ensures LostIn(p, e) == 0 ==> Next(p, e).Total() == p.Total() + Accepted(p, e)
    ensures |Next(p, e).Total()| + LostIn(p, e) == |p.Total()| + |Accepted(p, e)|
  {
    if e.PollRouter? {
      DrainKeeps(p, e.taken);
    } else {
      var q := Enqueued(p, e);
      assert q.Total() == p.Total() + Accepted(p, e);
      PollKeeps(q, e.bus);
    }
  }

  lemma {:induction false} RunKeeps(p: Pipe, es: seq<Event>)
    requires p.Valid()
    ensures AllLost(p, es) == 0 ==> Run(p, es).Total() == p.Total() + AllAccepted(p, es)
    ensures |Run(p, es).Total()| + AllLost(p, es) == |p.Total()| + |AllAccepted(p, es)|
    decreases |es|
  {
    if es == [] {
      assert p.Total() + [] == p.Total();
    } else {
      var front, e := es[..|es| - 1], es[|es| - 1];
      RunKeeps(p, front);
      NextKeeps(Run(p, front), e);
      if AllLost(p, es) == 0 {
        Join(p.Total(), AllAccepted(p, front), Run(p, front).Total(), Accepted(Run(p, front), e), Run(p, es).Total());
      }
    }
  }

  lemma Join(start: seq<Byte>, more: seq<Byte>, mid: seq<Byte>, evenMore: seq<Byte>, end: seq<Byte>)
    requires mid == start + more && end == mid + evenMore
    ensures end == start + (more + evenMore)
  {
  }

  /** The event loses bytes: the condition of LosesExactly, for the state it meets. */
  predicate Loses(p: Pipe, e: Event)
    requires p.Valid()
  {
    !e.PollRouter?
    && var q := Enqueued(p, e);
       FoundIdle(q, e.bus) && Ready(q, e.bus).Room() == 0 && q.queue != [] && ClaimsRoom(|q.queue|, e.bus)
  }

  lemma LosesIsLost(p: Pipe, e: Event)
    requires p.Valid()
    ensures LostIn(p, e) > 0 <==> Loses(p, e)
  {
    if !e.PollRouter? {
      LosesExactly(Enqueued(p, e), e.bus);
    }
  }

  predicate LosesAt(p: Pipe, es: seq<Event>, i: nat)
    requires p.Valid() && i < |es|
  {
    Loses(Run(p, es[..i]), es[i])
  }

  lemma PrefixLosesAlike(p: Pipe, es: seq<Event>, n: nat, i: nat)
    requires p.Valid() && i < n <= |es|
    ensures LosesAt(p, es[..n], i) <==> LosesAt(p, es, i)
  {
    assert es[..n][..i] == es[..i] && es[..n][i] == es[i];
  }

  lemma LastLoss(p: Pipe, es: seq<Event>, n: nat)
    requires p.Valid() && |es| == n + 1
    ensures AllLost(p, es) >= AllLost(p, es[..n])
    ensures LosesAt(p, es, n) ==> AllLost(p, es) > 0
    ensures !LosesAt(p, es, n) ==> AllLost(p, es) == AllLost(p, es[..n])
  {
    LosesIsLost(Run(p, es[..n]), es[n]);
  }

  lemma {:induction false} LostWhere(p: Pipe, es: seq<Event>, i: nat)
    requires p.Valid() && i < |es| && LosesAt(p, es, i)
    ensures AllLost(p, es) > 0
    decreases |es|
  {
    var n := |es| - 1;
    LastLoss(p, es, n);
    if i == n {
      assert LosesAt(p, es, n);
    } else {
      PrefixLosesAlike(p, es, n, i);
      LostWhere(p, es[..n], i);
    }
  }

  lemma {:induction false} LostNowhere(p: Pipe, es: seq<Event>)
    requires p.Valid() && forall i :: 0 <= i < |es| ==> !LosesAt(p, es, i)
    ensures AllLost(p, es) == 0
    decreases |es|
  {
    if es == [] {
      assert AllLost(p, es) == 0;
    } else {
      var n := |es| - 1;
      forall i | 0 <= i < n
        ensures !LosesAt(p, es[..n], i)
      {
        PrefixLosesAlike(p, es, n, i);
      }
      LostNowhere(p, es[..n]);
      LastLoss(p, es, n);
    }
  }

  /**
  Over any run, what is on the wire, in frames and in the console queue is what was there at
  the start and all that was accepted, in order, if and only if no event of the run loses bytes.
  */
  lemma RunConserves(p: Pipe, es: seq<Event>)
    requires p.Valid()
    ensures Run(p, es).Total() == p.Total() + AllAccepted(p, es)
            <==> forall i :: 0 <= i < |es| ==> !LosesAt(p, es, i)
    ensures |Run(p, es).Total()| + AllLost(p, es) == |p.Total()| + |AllAccepted(p, es)|
  {
    RunKeeps(p, es);
    if i :| 0 <= i < |es| && LosesAt(p, es, i) {
      LostWhere(p, es, i);
    } else {
      LostNowhere(p, es);
    }
  }

  // ---------------------------------------------------------------- a delivering run

  /** Polls of a console whose mailboxes take every frame and finish. */
  predicate Healthy(es: seq<Event>, frameCap: nat) {
    forall i :: 0 <= i < |es| ==> es[i].PollConsole? && es[i].bus.taken >= frameCap && es[i].bus.mailboxesDone
  }

  function Minus(a: nat, b: nat): nat { if a > b then a - b else 0 }

  /** The bytes one such poll can move. */
  function Burst(frameCap: nat): nat { Min(8 * frameCap, 32) }

  /** The bytes that `k` such polls can move. */
  function Bursts(k: nat, burst: nat): nat { if k == 0 then 0 else Bursts(k - 1, burst) + burst }

  lemma {:induction false} BurstsAre(k: nat, burst: nat)
    ensures Bursts(k, burst) == k * burst
  {
    if k == 0 {
    } else {
      BurstsAre(k - 1, burst);
      assert k * burst == (k - 1) * burst + burst;
    }
  }

  lemma HealthyPoll(p: Pipe, e: Event)
    requires p.Valid() && p.frameCap > 0 && Healthy([e], p.frameCap)
    ensures LostIn(p, e) == 0 && Accepted(p, e) == []
    ensures |Next(p, e).queue| == Minus(|p.queue|, Burst(p.frameCap))
    ensures p.queue == [] ==> Next(p, e).waiting == []
  {
    assert [e][0] == e;
    assert Enqueued(p, e) == p by {
      assert p.queue + [] == p.queue;
    }
    DrainedPoll(p, e.bus);
    DrainedReady(p, e.bus);
    LosesExactly(p, e.bus);
  }

  lemma {:induction false} HealthyRun(p: Pipe, es: seq<Event>)
    requires p.Valid() && p.frameCap > 0 && Healthy(es, p.frameCap)
    ensures AllLost(p, es) == 0 && AllAccepted(p, es) == []
    ensures |Run(p, es).queue| == Minus(|p.queue|, Bursts(|es|, Burst(p.frameCap)))
    decreases |es|
  {
    if es == [] {
      assert AllLost(p, es) == 0 && AllAccepted(p, es) == [] && Run(p, es) == p;
    } else {
      var front, e := es[..|es| - 1], es[|es| - 1];
      HealthyRun(p, front);
      LastHealthy(es, p.frameCap);
      HealthyPoll(Run(p, front), e);
      LastOfRun(p, es);
    }
  }

  lemma LastHealthy(es: seq<Event>, frameCap: nat)
    requires Healthy(es, frameCap) && es != []
    ensures Healthy(es[..|es| - 1], frameCap) && Healthy([es[|es| - 1]], frameCap)
  {
  }

  lemma LastOfRun(p: Pipe, es: seq<Event>)
    requires p.Valid() && es != []
    ensures var (q, e) := (Run(p, es[..|es| - 1]), es[|es| - 1]);
      && Run(p, es) == Next(q, e) && AllLost(p, es) == AllLost(p, es[..|es| - 1]) + LostIn(q, e)
      && AllAccepted(p, es) == AllAccepted(p, es[..|es| - 1]) + Accepted(q, e)
  {
  }

  /**
  Every byte gets out: with a frame queue that holds a frame at all, and mailboxes that take the
  frames and finish, all that was accepted is on the wire, in order, after one poll for each 32
  bytes that wait, or each 8 times the frames if these are fewer, and one more.
  */
  lemma Delivers(p: Pipe, es: seq<Event>, last: Event)
    requires p.Valid() && p.frameCap > 0 && Healthy(es, p.frameCap) && Healthy([last], p.frameCap)
    requires |es| * Burst(p.frameCap) >= |p.queue|
    ensures var q := Run(p, es + [last]); Flat(q.sent) == p.Total() && q.waiting == [] && q.queue == []
  {
    var all := es + [last];
    assert all[..|es|] == es && all[|es|] == last;
    HealthyRun(p, es);
    BurstsAre(|es|, Burst(p.frameCap));
    HealthyPoll(Run(p, es), last);
    assert AllLost(p, all) == 0 && AllAccepted(p, all) == [] by {
      assert AllAccepted(p, es) + [] == [];
    }
    RunKeeps(p, all);
    AllOnWire(Run(p, all));
    assert p.Total() + [] == p.Total();
  }

  lemma AllOnWire(p: Pipe)
    requires p.waiting == [] && p.queue == []
    ensures p.Total() == Flat(p.sent)
  {
    assert Flat([]) == [];
    assert Flat(p.sent) + [] + [] == Flat(p.sent);
  }

  // ---------------------------------------------------------------- a losing run

  /** Nobody on the bus: no mailbox ever becomes free, and every look finds no acknowledge. */
  const DEAD := Bus(0, true, false, 0, true, true, true)

  /** Nothing moves, and no missing acknowledge is seen. */
  const QUIET := Bus(0, false, false, 0, false, false, false)

  function DeadPolls(n: nat): (es: seq<Event>)
    ensures |es| == n
  {
    seq(n, _ => PollConsole(DEAD))
  }

  lemma DeadPoll(p: Pipe)
    requires p.Valid() && p.noAcks <= PATIENCE
    ensures Next(p, PollConsole(DEAD)) == p.(noAcks := p.noAcks + 1) && LostIn(p, PollConsole(DEAD)) == 0
  {
    assert Enqueued(p, PollConsole(DEAD)) == p by {
      assert p.queue + [] == p.queue;
    }
    assert p.sent + p.waiting[..0] == p.sent;
  }

  /** Polls of a dead bus change nothing but the counter, for a while. */
  lemma {:induction false} Waits(p: Pipe, n: nat)
    requires p.Valid() && p.noAcks + n <= PATIENCE + 1
    ensures Run(p, DeadPolls(n)) == p.(noAcks := p.noAcks + n)
    ensures AllLost(p, DeadPolls(n)) == 0 && AllAccepted(p, DeadPolls(n)) == []
  {
    if n == 0 {
      assert DeadPolls(0) == [];
    } else {
      Waits(p, n - 1);
      WaitsOn(p, n, p.(noAcks := p.noAcks + (n - 1)), p.(noAcks := p.noAcks + n));
    }
  }

  lemma PollAccepts(p: Pipe, b: Bus)
    requires p.Valid()
    ensures Accepted(p, PollConsole(b)) == []
  {
  }

  lemma LastPollOf(p: Pipe, es: seq<Event>, front: seq<Event>, q: Pipe, b: Bus)
    requires p.Valid() && es == front + [PollConsole(b)] && q == Run(p, front)
    ensures Run(p, es) == Next(q, PollConsole(b)) && AllLost(p, es) == AllLost(p, front) + LostIn(q, PollConsole(b))
    ensures AllAccepted(p, es) == AllAccepted(p, front)
  {
    assert es[..|es| - 1] == front;
    LastOfRun(p, es);
    PollAccepts(q, b);
    assert AllAccepted(p, front) + [] == AllAccepted(p, front);
  }

  lemma DeadPollsGrow(n: nat)
    requires n > 0
    ensures DeadPolls(n) == DeadPolls(n - 1) + [PollConsole(DEAD)]
  {
  }

  lemma LastDeadPoll(p: Pipe, n: nat, q: Pipe)
    requires p.Valid() && n > 0 && q == Run(p, DeadPolls(n - 1))
    ensures Run(p, DeadPolls(n)) == Next(q, PollConsole(DEAD))
    ensures AllLost(p, DeadPolls(n)) == AllLost(p, DeadPolls(n - 1)) + LostIn(q, PollConsole(DEAD))
    ensures AllAccepted(p, DeadPolls(n)) == AllAccepted(p, DeadPolls(n - 1))
  {
    DeadPollsGrow(n);
    LastPollOf(p, DeadPolls(n), DeadPolls(n - 1), q, DEAD);
  }

  lemma DeadPollTo(p: Pipe, q: Pipe)
    requires p.Valid() && p.noAcks <= PATIENCE && q == p.(noAcks := p.noAcks + 1)
    ensures Next(p, PollConsole(DEAD)) == q && LostIn(p, PollConsole(DEAD)) == 0
  {
    DeadPoll(p);
  }

  lemma WaitsOn(p: Pipe, n: nat, q: Pipe, r: Pipe)
    requires p.Valid() && q.Valid() && 0 < n && q.noAcks <= PATIENCE && r == q.(noAcks := q.noAcks + 1)
    requires Run(p, DeadPolls(n - 1)) == q && AllLost(p, DeadPolls(n - 1)) == 0
    requires AllAccepted(p, DeadPolls(n - 1)) == []
    ensures Run(p, DeadPolls(n)) == r
    ensures AllLost(p, DeadPolls(n)) == 0 && AllAccepted(p, DeadPolls(n)) == []
  {
    DeadPollTo(q, r);
    LastDeadPoll(p, n, q);
  }

  /** The poll after that gives up to 64 accepted bytes away. */
  lemma GivesUp(p: Pipe)
    requires p.Valid() && p.frameCap > 0 && |p.waiting| == p.frameCap && p.noAcks == 0 && p.queue != []
    ensures AllLost(p, DeadPolls(PATIENCE + 2)) == Min(64, |p.queue|)
  {
    Waits(p, PATIENCE + 1);
    var q := p.(noAcks := PATIENCE + 1);
    LastDeadPoll(p, PATIENCE + 2, q);
    DeadLoss(q);
  }

  lemma DeadLoss(p: Pipe)
    requires p.Valid() && p.frameCap > 0 && |p.waiting| == p.frameCap && p.noAcks > PATIENCE && p.queue != []
    ensures LostIn(p, PollConsole(DEAD)) == Min(64, |p.queue|)
  {
    assert Enqueued(p, PollConsole(DEAD)) == p by {
      assert p.queue + [] == p.queue;
    }
    LosesOnDeadBus(p, DEAD);
    LosesExactly(p, DEAD);
  }

  /** A run after a run. */
  lemma {:induction false} RunJoins(p: Pipe, a: seq<Event>, b: seq<Event>)
    requires p.Valid()
    ensures Run(p, a + b) == Run(Run(p, a), b)
    ensures AllLost(p, a + b) == AllLost(p, a) + AllLost(Run(p, a), b)
    ensures AllAccepted(p, a + b) == AllAccepted(p, a) + AllAccepted(Run(p, a), b)
    decreases |b|
  {
    if b == [] {
      assert a + b == a;
      assert AllAccepted(p, a) + [] == AllAccepted(p, a);
    } else {
      var front, e := b[..|b| - 1], b[|b| - 1];
      assert (a + b)[..|a + b| - 1] == a + front && (a + b)[|a + b| - 1] == e;
      RunJoins(p, a, front);
      LastOfRun(p, a + b);
      LastOfRun(Run(p, a), b);
      Assoc(AllAccepted(p, a), AllAccepted(Run(p, a), front), Accepted(Run(Run(p, a), front), e));
    }
  }

  lemma Assoc(a: seq<Byte>, b: seq<Byte>, c: seq<Byte>)
    ensures (a + b) + c == a + (b + c)
  {
  }

  /** The run leads from `p` to `q`, loses that many bytes and accepts those. */
  predicate Leads(p: Pipe, es: seq<Event>, q: Pipe, lost: nat, accepted: seq<Byte>)
    requires p.Valid()
  {
    Run(p, es) == q && AllLost(p, es) == lost && AllAccepted(p, es) == accepted
  }

  lemma LeadsOn(p: Pipe, a: seq<Event>, q: Pipe, lostA: nat, acceptedA: seq<Byte>,
                b: seq<Event>, r: Pipe, lostB: nat, acceptedB: seq<Byte>)
    requires p.Valid() && q.Valid() && Leads(p, a, q, lostA, acceptedA) && Leads(q, b, r, lostB, acceptedB)
    ensures Leads(p, a + b, r, lostA + lostB, acceptedA + acceptedB)
  {
    RunJoins(p, a, b);
  }

  lemma LeadsOne(p: Pipe, e: Event)
    requires p.Valid()
    ensures Leads(p, [e], Next(p, e), LostIn(p, e), Accepted(p, e))
  {
    assert [e][..0] == [];
    assert Run(p, []) == p && AllLost(p, []) == 0 && AllAccepted(p, []) == [];
  }

  lemma QuietPoll(p: Pipe)
    requires p.Valid()
    ensures Next(p, PollConsole(QUIET)) == p.(noAcks := 0) && LostIn(p, PollConsole(QUIET)) == 0
    ensures Accepted(p, PollConsole(QUIET)) == []
  {
    assert Enqueued(p, PollConsole(QUIET)) == p by {
      assert p.queue + [] == p.queue;
    }
    assert p.sent + p.waiting[..0] == p.sent;
  }

  /** The bus goes dead for long enough, a byte is printed, and a quiet poll resets the counter. */
  function Spell(c: Byte): (es: seq<Event>) {
    DeadPolls(PATIENCE + 1) + [Putc(c, DEAD)] + [PollConsole(QUIET)]
  }

  /** The state after such a spell, and the bytes it loses. */
  function AfterSpell(p: Pipe, c: Byte): Pipe {
    p.(noAcks := 0, waiting := if |p.waiting| < p.frameCap then p.waiting + [[c]] else p.waiting)
  }

  function LostInSpell(p: Pipe): nat { if |p.waiting| < p.frameCap then 0 else 1 }

  /** The byte printed on a bus dead for long takes a frame of its own, or is lost if there is none. */
  lemma LatePutc(p: Pipe, c: Byte)
    requires p.Valid() && p.queue == [] && p.byteCap > 0 && p.noAcks == PATIENCE + 1
    ensures Accepted(p, Putc(c, DEAD)) == [c] && LostIn(p, Putc(c, DEAD)) == LostInSpell(p)
    ensures Next(p, Putc(c, DEAD)) == AfterSpell(p, c).(noAcks := PATIENCE + 2)
  {
    var q := p.(queue := [c]);
    assert Enqueued(p, Putc(c, DEAD)) == q by {
      assert [c][..1] == [c] && [] + [c] == [c];
    }
    assert Ready(q, DEAD) == q.(noAcks := PATIENCE + 2);
    assert [c][..1] == [c] && [c][1..] == [];
  }

  lemma LatePutcLeads(p: Pipe, d: Event, c: Byte, q: Pipe)
    requires p.Valid() && p.queue == [] && p.byteCap > 0 && p.noAcks == PATIENCE + 1 && d == Putc(c, DEAD)
    requires q == AfterSpell(p, c).(noAcks := PATIENCE + 2)
    ensures Leads(p, [d], q, LostInSpell(p), [c])
  {
    LatePutc(p, c);
    LeadsOne(p, d);
  }

  lemma QuietLeads(p: Pipe, e: Event, q: Pipe)
    requires p.Valid() && e == PollConsole(QUIET) && q == p.(noAcks := 0)
    ensures Leads(p, [e], q, 0, [])
  {
    QuietPoll(p);
    LeadsOne(p, e);
  }

  lemma WaitsLead(p: Pipe, n: nat, q: Pipe)
    requires p.Valid() && p.noAcks + n <= PATIENCE + 1 && q == p.(noAcks := p.noAcks + n)
    ensures Leads(p, DeadPolls(n), q, 0, [])
  {
    Waits(p, n);
  }

  lemma ThreeLead(p: Pipe, a: seq<Event>, q: Pipe, b: seq<Event>, r: Pipe, lost: nat, accepted: seq<Byte>,
                  c: seq<Event>, s: Pipe)
    requires p.Valid() && q.Valid() && r.Valid() && s.Valid()
    requires Leads(p, a, q, 0, []) && Leads(q, b, r, lost, accepted) && Leads(r, c, s, 0, [])
    ensures Leads(p, a + b + c, s, lost, accepted)
  {
    LeadsOn(p, a, q, 0, [], b, r, lost, accepted);
    assert [] + accepted == accepted;
    LeadsOn(p, a + b, r, lost, accepted, c, s, 0, []);
    assert accepted + [] == accepted;
  }

  lemma SpellSteps(p: Pipe, c: Byte, n: nat, late: Pipe, printed: Pipe, after: Pipe)
    requires p.Valid() && p.queue == [] && p.byteCap > 0 && p.noAcks == 0 && n == PATIENCE + 1
    requires late == p.(noAcks := n) && after == AfterSpell(p, c) && printed == after.(noAcks := PATIENCE + 2)
    ensures Leads(p, DeadPolls(n) + [Putc(c, DEAD)] + [PollConsole(QUIET)], after, LostInSpell(p), [c])
  {
    assert AfterSpell(late, c) == after && LostInSpell(late) == LostInSpell(p);
    WaitsLead(p, n, late);
    LatePutcLeads(late, Putc(c, DEAD), c, printed);
    QuietLeads(printed, PollConsole(QUIET), after);
    ThreeLead(p, DeadPolls(n), late, [Putc(c, DEAD)], printed, LostInSpell(p), [c], [PollConsole(QUIET)], after);
  }

  lemma SpellLeads(p: Pipe, c: Byte)
    requires p.Valid() && p.queue == [] && p.byteCap > 0 && p.noAcks == 0
    ensures Leads(p, Spell(c), AfterSpell(p, c), LostInSpell(p), [c])
  {
    var after := AfterSpell(p, c);
    SpellSteps(p, c, PATIENCE + 1, p.(noAcks := PATIENCE + 1), after.(noAcks := PATIENCE + 2), after);
  }

  function Spells(n: nat, c: Byte): (es: seq<Event>) { if n == 0 then [] else Spells(n - 1, c) + Spell(c) }

  /** Each spell fills a frame, as long as there are any. */
  lemma {:induction false} SpellsFill(p: Pipe, n: nat, c: Byte) returns (q: Pipe, accepted: seq<Byte>)
    requires p.Valid() && p.queue == [] && p.byteCap > 0 && p.noAcks == 0 && |p.waiting| + n <= p.frameCap
    ensures Leads(p, Spells(n, c), q, 0, accepted) && |accepted| == n
    ensures q.Valid() && q.queue == [] && q.noAcks == 0 && |q.waiting| == |p.waiting| + n
    ensures q.byteCap == p.byteCap && q.frameCap == p.frameCap
  {
    if n == 0 {
      q, accepted := p, [];
      assert Leads(p, [], p, 0, []);
    } else {
      var mid, before := SpellsFill(p, n - 1, c);
      SpellLeads(mid, c);
      q, accepted := AfterSpell(mid, c), before + [c];
      LeadsOn(p, Spells(n - 1, c), mid, 0, before, Spell(c), q, 0, [c]);
    }
  }

  /** An empty console whose queue holds any byte at all can be made to lose one it accepted. */
  lemma LosingRun(frameCap: nat, byteCap: nat, c: Byte)
    requires byteCap > 0
    ensures var (start, es) := (Pipe([], [], [], 0, frameCap, byteCap), Spells(frameCap + 1, c));
      |AllAccepted(start, es)| == frameCap + 1 && AllLost(start, es) == 1
  {
    var start := Pipe([], [], [], 0, frameCap, byteCap);
    var full, before := SpellsFill(start, frameCap, c);
    SpellLeads(full, c);
    LeadsOn(start, Spells(frameCap, c), full, 0, before, Spell(c), AfterSpell(full, c), 1, [c]);
  }
}
