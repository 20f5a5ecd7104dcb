/**
The console's way out over CAN: a byte queue (Console.cpp), a fragmenter into frames of at
most eight bytes (CCanConsole.cpp) and a frame queue emptied into hardware mailboxes
(CCan.cpp). Every method does to the queues exactly what module CanStream says, for every
answer of the hardware.
*/
module CanConsole {
  import opened Prelude
  import opened CircularBuffer
  import opened RingQueue
  import opened CanStream

  datatype Frame = Frame(dlc: nat, data: seq<Byte>)

  predicate WellFormed(f: Frame) {
    |f.data| == 8 && f.dlc <= 8
  }

  function Payload(f: Frame): seq<Byte> { if WellFormed(f) then f.data[..f.dlc] else [] }

  function Payloads(frames: seq<Frame>): (p: seq<seq<Byte>>)
    ensures |p| == |frames|
  {
    seq(|frames|, i requires 0 <= i < |frames| => Payload(frames[i]))
  }

  lemma PayloadsSplit(frames: seq<Frame>, k: nat)
    requires k <= |frames|
    ensures Payloads(frames[..k]) == Payloads(frames)[..k] && Payloads(frames[k..]) == Payloads(frames)[k..]
  {
  }

  lemma PayloadsAppend(a: seq<Frame>, b: seq<Frame>)
    ensures Payloads(a + b) == Payloads(a) + Payloads(b)
  {
  }

  class CanRouter {
    const txQue: RingQueue<Frame>
    var txOverflowCount: nat
    /** Frames a mailbox has taken, in order. */
    ghost var sent: seq<Frame>

    constructor (size: nat)
      requires 0 < size <= 0xFFFF
      ensures Valid() && fresh(txQue) && fresh(txQue.slots)
      ensures sent == [] && txQue.Contents() == [] && txQue.slots.Length == size
    {
      txQue := new RingQueue<Frame>(size, Frame(0, [0, 0, 0, 0, 0, 0, 0, 0]), Frame(0, []));
      txOverflowCount, sent := 0, [];
    }

    ghost predicate Valid()
      reads this, txQue, txQue.slots
    {
      txQue.Valid() && txQue.front < txQue.slots.Length && txOverflowCount < 0x100
    }

    /** CAN_Transmit of the frame in front, with `free` mailboxes at hand. */
    method TransmitFront(free: nat) returns (taken: bool)
      requires Valid() && txQue.Contents() != []
      modifies this`sent
      ensures Valid() && taken == (free > 0)
      ensures sent == if taken then old(sent) + [txQue.Contents()[0]] else old(sent)
    {
      taken := free > 0;
      if taken {
        sent := sent + [txQue.Front()];
      }
    }

    method PopFront() returns (empty: bool)
      requires Valid() && txQue.Contents() != []
      modifies txQue`front
      ensures Valid() && txQue.Contents() == old(txQue.Contents())[1..] && empty == (txQue.Contents() == [])
    {
      var ok := txQue.Pop();
      empty := txQue.ElemsInQue() == 0;
    }

    /** runTransmitter: as many frames move from the queue to the wire as the mailboxes take. */
    method RunTransmitter(mailboxes: nat)
      requires Valid()
      modifies this`sent, txQue`front
      ensures Valid()
      ensures var k := Min(mailboxes, |old(txQue.Contents())|);
        sent == old(sent) + old(txQue.Contents())[..k] && txQue.Contents() == old(txQue.Contents())[k..]
    {
      if txQue.ElemsInQue() == 0 { return; }
      ghost var all := txQue.Contents();
      var k := 0;
      var taken := TransmitFront(mailboxes);
      while taken
        invariant Valid() && k < |all| && txQue.Contents() == all[k..]
        invariant taken == (k < mailboxes) && k <= mailboxes
        invariant sent == old(sent) + all[..if taken then k + 1 else k]
        decreases |all| - k, taken
      {
        var empty := PopFront();
        k := k + 1;
        if empty { break; }
        assert all[..k] + [all[k]] == all[..k + 1];
        taken := TransmitFront(mailboxes - k);
      }
    }

    /** putMsg, with the default hook, which leaves the frame alone. */
    method PutMsg(f: Frame)
      requires Valid()
      modifies this`txOverflowCount, txQue`back, txQue.slots
      ensures Valid()
      ensures var room := |old(txQue.Contents())| < txQue.Capacity();
        txQue.Contents() == if room then old(txQue.Contents()) + [f] else old(txQue.Contents())
    {
      var ok := txQue.Push(f);
      if !ok {
        txOverflowCount := (txOverflowCount + 1) % 0x100;
      }
    }
  }

  lemma NextChunk(w: seq<seq<Byte>>, src: seq<Byte>, at: nat, n: nat)
    requires at + 8 < n <= |src|
    ensures w + Chunks(src[at..n]) == w + [src[at..at + 8]] + Chunks(src[at + 8..n])
  {
    assert src[at..n][..8] == src[at..at + 8] && src[at..n][8..] == src[at + 8..n];
  }

  class CanDevice {
    const router: CanRouter
    var noAckCounter: nat

    constructor (queueSize: nat)
      requires 0 < queueSize <= 0xFFFF
      ensures Valid() && fresh(router) && fresh(router.txQue) && fresh(router.txQue.slots)
      ensures Sent() == Waiting() == [] && noAckCounter == 0 && router.txQue.slots.Length == queueSize
    {
      router := new CanRouter(queueSize);
      noAckCounter := 0;
    }

    ghost predicate Valid()
      reads this, router, router.txQue, router.txQue.slots
    {
      router.Valid() && noAckCounter < 0x1_0000
    }

    /** Payloads on the wire. */
    ghost function Sent(): seq<seq<Byte>>
      reads router
    {
      Payloads(router.sent)
    }

    /** Payloads in the frame queue. */
    ghost function Waiting(): (w: seq<seq<Byte>>)
      requires router.txQue.Valid()
      reads router, router.txQue, router.txQue.slots
      ensures |w| == |router.txQue.Contents()|
    {
      Payloads(router.txQue.Contents())
    }

    ghost function Room(): nat
      requires router.txQue.Valid()
      reads router, router.txQue, router.txQue.slots
    {
      router.txQue.Capacity() - |router.txQue.Contents()|
    }

    /** runTransmitter, in terms of payloads. */
    method RunTransmitter(mailboxes: nat)
      requires Valid()
      modifies router`sent, router.txQue`front
      ensures Valid()
      ensures var k := Min(mailboxes, |old(Waiting())|);
        Sent() == old(Sent()) + old(Waiting())[..k] && Waiting() == old(Waiting())[k..]
    {
      ghost var q, sent, k := router.txQue.Contents(), router.sent, Min(mailboxes, |router.txQue.Contents()|);
      router.RunTransmitter(mailboxes);
      PayloadsSplit(q, k);
      PayloadsAppend(sent, q[..k]);
    }

    /**
    getFreeSize. On a full frame queue, and with a missing acknowledge as the last error on
    the bus, it claims 64 bytes anyway, so that the console does not block.
    */
    method GetFreeSize(noAck: bool) returns (size: nat)
      requires Valid()
      ensures size == FreeSize(Room(), noAck)
    {
      var freeSize := router.txQue.EmptyElemsInQue();
      if freeSize == 0 && noAck { return 64; }
      if freeSize >= 4 { return 32; }
      return freeSize * 8;
    }

    /** isIdle, with its own way out after 3000 polls without acknowledge. */
    method IsIdle(b: Bus) returns (idle: bool)
      requires Valid()
      modifies this, router`sent, router.txQue`front
      ensures Valid() && noAckCounter == CountNoAck(old(noAckCounter), b.noAck)
      ensures var k := Min(b.taken, |old(Waiting())|);
        Sent() == old(Sent()) + old(Waiting())[..k] && Waiting() == old(Waiting())[k..]
      ensures idle == Idle(old(noAckCounter), b.noAck, Waiting() == [], b.mailboxesDone)
      ensures idle <==> (b.noAck && old(noAckCounter) > 3000) || (Waiting() == [] && b.mailboxesDone)
    {
      RunTransmitter(b.taken);
      var givenUp := CountNoAcks(b.noAck);
      if givenUp { return true; }
      idle := router.txQue.ElemsInQue() == 0 && b.mailboxesDone;
    }

    /** The counter in isIdle. */
    method CountNoAcks(noAck: bool) returns (givenUp: bool)
      requires noAckCounter < 0x1_0000
      modifies this`noAckCounter
      ensures noAckCounter == CountNoAck(old(noAckCounter), noAck)
      ensures givenUp == (noAck && old(noAckCounter) > PATIENCE)
    {
      givenUp := false;
      if noAck {
        givenUp := noAckCounter > PATIENCE;
        noAckCounter := (noAckCounter + 1) % 0x1_0000;
      } else {
        noAckCounter := 0;
      }
    }

    /**
    write. With room for them, `src` is cut into frames of eight bytes and a last one of the
    rest, and the frames join the queue in order. On a full queue every frame is dropped,
    whatever the result says.
    */
    method Write(src: seq<Byte>, noAck: bool) returns (n: nat)
      requires Valid()
      modifies router`txOverflowCount, router.txQue`back, router.txQue.slots
      ensures Valid() && n == Min(|src|, FreeSize(old(Room()), noAck))
      ensures Waiting() == if old(Room()) == 0 then old(Waiting()) else old(Waiting()) + Chunks(src[..n])
    {
      var size := GetFreeSize(noAck);
      n := if |src| < size then |src| else size;
      Fragment(src, n);
    }

    /** The loop of write. */
    method Fragment(src: seq<Byte>, n: nat)
      requires Valid() && n <= |src|
      requires Room() == 0 || n <= 8 * Room()
      modifies router`txOverflowCount, router.txQue`back, router.txQue.slots
      ensures Valid()
      ensures Waiting() == if old(Room()) == 0 then old(Waiting()) else old(Waiting()) + Chunks(src[..n])
    {
      var data, at := [0, 0, 0, 0, 0, 0, 0, 0], 0;
      ghost var room := Room();
      ghost var goal := if room == 0 then Waiting() else Waiting() + Chunks(src[..n]);
      assert src[0..n] == src[..n];
      while at + 8 < n
        invariant Valid() && |data| == 8 && at <= n && Room() <= room
        invariant room > 0 ==> n - at <= 8 * Room() && 0 < Room()
        invariant goal == if room == 0 then Waiting() else Waiting() + Chunks(src[at..n])
      {
        NextChunk(Waiting(), src, at, n);
        data := PostSlice(src, at, at + 8, data);
        at := at + 8;
      }
      data := PostSlice(src, at, n, data);
    }

    /** The frame keeps what the last one left behind its payload. */
    method PostSlice(src: seq<Byte>, from: nat, to: nat, data: seq<Byte>) returns (frame: seq<Byte>)
      requires Valid() && from <= to <= |src| && to - from <= 8 == |data|
      modifies router`txOverflowCount, router.txQue`back, router.txQue.slots
      ensures Valid() && |frame| == 8
      ensures Waiting() == if old(Room()) == 0 then old(Waiting()) else old(Waiting()) + [src[from..to]]
    {
      frame := src[from..to] + data[to - from..];
      var f := Frame(to - from, frame);
      ghost var q := router.txQue.Contents();
      router.PutMsg(f);
      assert f.data[..f.dlc] == src[from..to];
      PayloadsAppend(q, [f]);
      assert Payloads([f]) == [src[from..to]];
    }
  }

  class Console {
    const txQueue: RingQueue<Byte>
    const dev: CanDevice

    constructor (queueSize: nat, canQueueSize: nat)
      requires 0 < queueSize <= 0xFFFF && 0 < canQueueSize <= 0xFFFF
      ensures Valid() && View() == Pipe([], [], [], 0, canQueueSize - 1, queueSize - 1)
    {
      txQueue := new RingQueue<Byte>(queueSize, 0, 0);
      dev := new CanDevice(canQueueSize);
    }

    ghost predicate Valid()
      reads this, txQueue, txQueue.slots, dev, dev.router, dev.router.txQue, dev.router.txQue.slots
    {
      && txQueue.Valid() && dev.Valid()
      && txQueue.slots as object != dev.router.txQue.slots
      && txQueue as object != dev.router.txQue
    }

    /** The state of the pipeline, as module CanStream has it. */
    ghost function View(): (p: Pipe)
      requires Valid()
      reads this, txQueue, txQueue.slots, dev, dev.router, dev.router.txQue, dev.router.txQue.slots
      ensures p.Valid() && p.Room() == dev.Room()
    {
      Pipe(dev.Sent(), dev.Waiting(), txQueue.Contents(), dev.noAckCounter,
           dev.router.txQue.Capacity(), txQueue.Capacity())
    }

    /** runTransmitter */
    method RunTransmitter(b: Bus)
      requires Valid()
      modifies txQueue`front, dev, dev.router`sent, dev.router`txOverflowCount
      modifies dev.router.txQue`front, dev.router.txQue`back, dev.router.txQue.slots
      ensures Valid() && View() == CanStream.Poll(old(View()), b)
      ensures var (p, q) := (old(View()), View());
        && (!Drained(p, b) && !Dead(p, b) ==> q.queue == p.queue)
        && ((Drained(p, b) || Dead(p, b)) && StillWaiting(p, b) < p.frameCap ==>
              |p.queue| == |q.queue| + Min(|p.queue|, Min(8 * (p.frameCap - StillWaiting(p, b)), 32)))
    {
      PollMoves(View(), b);
      var idle, copyLen := Offer(b);
      if !idle { return; }
      if copyLen == 0 {
        NothingMoves(View());
        return;
      }
      Transfer(copyLen, b);
    }

    /** How much to move: at most what is queued, what the device takes, and the temporary buffer. */
    method Offer(b: Bus) returns (idle: bool, copyLen: nat)
      requires Valid()
      modifies dev, dev.router`sent, dev.router.txQue`front
      ensures Valid() && idle == FoundIdle(old(View()), b)
      ensures View() == if idle then Ready(old(View()), b) else Checked(old(View()), b)
      ensures idle ==> copyLen == CopyLen(|View().queue|, View().Room(), b)
    {
      idle := dev.IsIdle(b);
      if !idle { return false, 0; }
      copyLen := txQueue.ElemsInQue();
      dev.RunTransmitter(b.takenAgain);
      copyLen := Limit(copyLen, b);
    }

    /** The minimum of queue, device and temporary buffer, the device asked once or twice. */
    method Limit(n: nat, b: Bus) returns (copyLen: nat)
      requires Valid()
      ensures copyLen == CopyLen(n, dev.Room(), b)
    {
      copyLen := n;
      var size := dev.GetFreeSize(b.noAckFirst);
      if size < copyLen {
        copyLen := dev.GetFreeSize(b.noAckSecond);
      }
      if copyLen > TEMP_BUFF { copyLen := TEMP_BUFF; }
    }

    /** Out of the byte queue into a temporary buffer, and on to the device. */
    method Transfer(copyLen: nat, b: Bus)
      requires Valid() && 0 < copyLen <= TEMP_BUFF
      requires dev.Room() > 0 ==> copyLen == Min(|txQueue.Contents()|, FreeSize(dev.Room(), false))
      modifies txQueue`front, dev.router`txOverflowCount, dev.router.txQue`back, dev.router.txQue.slots
      ensures Valid() && View() == Move(old(View()), copyLen)
    {
      var tempBuff := new Byte[TEMP_BUFF](_ => 0);
      ghost var queue := txQueue.Contents();
      var moved := txQueue.PopArray(tempBuff, copyLen);
      assert tempBuff[..moved] == queue[..moved];
      var written := dev.Write(tempBuff[..copyLen], b.noAckWrite);
      assert tempBuff[..copyLen][..moved] == tempBuff[..moved];
    }

    /** send_array and puts: as much as fits is accepted, then the transmitter runs. */
    method SendArray(buf: seq<Byte>, b: Bus) returns (res: nat)
      requires Valid() && |buf| <= 0xFFFF
      modifies txQueue`front, txQueue`back, txQueue.slots, dev, dev.router`sent, dev.router`txOverflowCount
      modifies dev.router.txQue`front, dev.router.txQue`back, dev.router.txQue.slots
      ensures Valid() && res == Min(|buf|, old(txQueue.Capacity() - |txQueue.Contents()|))
      ensures buf[..res] == Accepted(old(View()), Send(buf, b))
      ensures View() == Next(old(View()), Send(buf, b))
    {
      ghost var p := View();
      res := txQueue.PushArray(buf);
      assert View() == Enqueued(p, Send(buf, b));
      RunTransmitter(b);
    }

    /** putc: the byte is dropped when the queue is full. */
    method Putc(c: Byte, b: Bus)
      requires Valid()
      modifies txQueue`front, txQueue`back, txQueue.slots, dev, dev.router`sent, dev.router`txOverflowCount
      modifies dev.router.txQue`front, dev.router.txQue`back, dev.router.txQue.slots
      ensures Valid() && View() == Next(old(View()), Event.Putc(c, b))
    {
      ghost var p := View();
      var ok := txQueue.Push(c);
      OneEnqueued(p, c, b);
      assert View() == Enqueued(p, Event.Putc(c, b));
      RunTransmitter(b);
    }

    /** One event, with the bytes it accepts. */
    method Handle(e: Event) returns (accepted: seq<Byte>)
      requires Valid() && (e.Send? ==> |e.buf| <= 0xFFFF)
      modifies txQueue`front, txQueue`back, txQueue.slots, dev, dev.router`sent, dev.router`txOverflowCount
      modifies dev.router.txQue`front, dev.router.txQue`back, dev.router.txQue.slots
      ensures Valid() && View() == Next(old(View()), e)
      ensures accepted == Accepted(old(View()), e)
    {
      accepted := [];
      match e {
        case Send(buf, b) =>
          var res := SendArray(buf, b);
          accepted := buf[..res];
        case Putc(c, b) =>
          OneEnqueued(View(), c, b);
          if txQueue.EmptyElemsInQue() > 0 {
            accepted := [c];
          }
          Putc(c, b);
        case PollConsole(b) =>
          NothingEnqueued(View(), b);
          RunTransmitter(b);
        case PollRouter(taken) =>
          dev.RunTransmitter(taken);
      }
    }

    /**
    Any run of events, for any answers of the hardware: the pipeline goes where CanStream.Run
    takes it and accepts what that accepts. So its bytes are those it held and those it
    accepted, in order, if and only if no event of the run meets the losing condition.
    */
    method Session(events: seq<Event>) returns (accepted: seq<Byte>)
      requires Valid()
      requires forall e :: e in events && e.Send? ==> |e.buf| <= 0xFFFF
      modifies txQueue`front, txQueue`back, txQueue.slots, dev, dev.router`sent, dev.router`txOverflowCount
      modifies dev.router.txQue`front, dev.router.txQue`back, dev.router.txQue.slots
      ensures Valid() && View() == CanStream.Run(old(View()), events) && accepted == AllAccepted(old(View()), events)
      ensures View().Total() == old(View()).Total() + accepted
              <==> forall i :: 0 <= i < |events| ==> !LosesAt(old(View()), events, i)
    {
      accepted := [];
      ghost var start := View();
      for i := 0 to |events|
        invariant Valid()
        invariant View() == CanStream.Run(start, events[..i]) && accepted == AllAccepted(start, events[..i])
      {
        assert events[..i + 1][..i] == events[..i];
        var more := Handle(events[i]);
        accepted := accepted + more;
      }
      assert events[..|events|] == events;
      CanStream.RunConserves(start, events);
    }
  }

  lemma NothingMoves(p: Pipe)
    requires p.Valid()
    ensures Move(p, 0) == p
  {
  }

  lemma OneEnqueued(p: Pipe, c: Byte, b: Bus)
    requires p.Valid()
    ensures Accepted(p, Putc(c, b)) == if |p.queue| < p.byteCap then [c] else []
    ensures Enqueued(p, Putc(c, b)) == if |p.queue| < p.byteCap then p.(queue := p.queue + [c]) else p
  {
    assert p.queue + [] == p.queue;
  }

  lemma NothingEnqueued(p: Pipe, b: Bus)
    requires p.Valid()
    ensures Enqueued(p, PollConsole(b)) == p
  {
    assert p.queue + [] == p.queue;
  }
}
