/**
Virtual terminals on up-buffer 0. The target switches terminals in band, by 0xFF and an
identifier character; the host undoes this with the decoder `Receive`. The main result is
Session: after any run of calls the host has filed every byte under the right terminal.
*/
module RttTerminal {
  import opened Prelude
  import opened CircularBuffer
  import opened RttRing

  const TERMINALS := 16
  const ESCAPE: Byte := 0xFF

  /** The table _aTerminalId: '0'..'9', 'A'..'F'. */
  function IdByte(terminal: nat): (b: Byte)
    requires terminal < TERMINALS
  {
    if terminal < 10 then 48 + terminal else 55 + terminal
  }

  lemma Identifiers(terminal: nat)
    requires terminal < TERMINALS
    ensures IdByte(terminal) == "0123456789ABCDEF"[terminal] as int
  {
  }

  function Switch(terminal: nat): (s: seq<Byte>)
    requires terminal < TERMINALS
    ensures |s| == 2
  {
    [ESCAPE, IdByte(terminal)]
  }

  /** What the host knows: its current terminal, whether 0xFF came last, and its records. */
  datatype Host = Host(terminal: nat, escaped: bool, seen: seq<(nat, Byte)>)

  const START := Host(0, false, [])

  function Take(h: Host, b: Byte): Host {
    if h.escaped then
      Host(if 48 <= b < 58 then b - 48 else if 65 <= b < 71 then b - 55 else h.terminal, false, h.seen)
    else if b == ESCAPE then h.(escaped := true)
    else h.(seen := h.seen + [(h.terminal, b)])
  }

  function Receive(h: Host, bytes: seq<Byte>): Host
    decreases |bytes|
  {
    if bytes == [] then h else Receive(Take(h, bytes[0]), bytes[1..])
  }

  function Tagged(terminal: nat, payload: seq<Byte>): (t: seq<(nat, Byte)>)
    ensures |t| == |payload|
  {
    seq(|payload|, i requires 0 <= i < |payload| => (terminal, payload[i]))
  }

  predicate Plain(s: seq<Byte>) { ESCAPE !in s }

  lemma {:induction false} ReceiveAppend(h: Host, a: seq<Byte>, b: seq<Byte>)
    ensures Receive(h, a + b) == Receive(Receive(h, a), b)
    decreases |a|
  {
    if a == [] {
      assert a + b == b;
    } else {
      assert (a + b)[0] == a[0] && (a + b)[1..] == a[1..] + b;
      ReceiveAppend(Take(h, a[0]), a[1..], b);
    }
  }

  lemma {:induction false} ReceivePlain(h: Host, s: seq<Byte>)
    requires Plain(s) && !h.escaped
    ensures Receive(h, s) == h.(seen := h.seen + Tagged(h.terminal, s))
    decreases |s|
  {
    if s != [] {
      ReceivePlain(Take(h, s[0]), s[1..]);
      assert Tagged(h.terminal, s) == [(h.terminal, s[0])] + Tagged(h.terminal, s[1..]);
    } else {
      assert h.seen + Tagged(h.terminal, s) == h.seen;
    }
  }

  lemma ReceiveSwitch(h: Host, terminal: nat)
    requires terminal < TERMINALS && !h.escaped
    ensures Receive(h, Switch(terminal)) == h.(terminal := terminal)
  {
    var s := Switch(terminal);
    var mid := Take(h, ESCAPE);
    assert s[1..] == [IdByte(terminal)] && s[1..][1..] == [];
    assert Receive(mid, s[1..]) == Receive(Take(mid, IdByte(terminal)), []);
  }

  /** Records only ever grow: what the host has filed after a prefix is never taken back. */
  lemma {:induction false} SeenGrows(h: Host, a: seq<Byte>, b: seq<Byte>)
    requires a <= b
    ensures Receive(h, a).seen <= Receive(h, b).seen
  {
    assert b == a + b[|a|..];
    ReceiveAppend(h, a, b[|a|..]);
    SeenKept(Receive(h, a), b[|a|..]);
  }

  lemma {:induction false} SeenKept(h: Host, b: seq<Byte>)
    ensures h.seen <= Receive(h, b).seen
    decreases |b|
  {
    if b == [] {
    } else {
      SeenKept(Take(h, b[0]), b[1..]);
    }
  }

  /** One TerminalOut as the host sees it: filed under `terminal`, then back to where it was. */
  lemma ReceiveFramed(h: Host, terminal: nat, payload: seq<Byte>)
    requires !h.escaped && terminal < TERMINALS && h.terminal < TERMINALS && Plain(payload)
    ensures Receive(h, Switch(terminal) + payload + Switch(h.terminal))
         == h.(seen := h.seen + Tagged(terminal, payload))
  {
    var h1 := h.(terminal := terminal);
    ReceiveSwitch(h, terminal);
    ReceivePlain(h1, payload);
    ReceiveAppend(h, Switch(terminal), payload);
    ReceiveAppend(h, Switch(terminal) + payload, Switch(h.terminal));
    ReceiveSwitch(h1.(seen := h1.seen + Tagged(terminal, payload)), h.terminal);
  }

  datatype Op =
    | SetTerminal(terminal: Byte)
    | TerminalOut(terminal: Byte, text: seq<Byte>)
    | Write(data: seq<Byte>)
    | SetFlags(mode: nat)

  /** The terminal and the bytes one completed call put on record. */
  datatype Entry = Entry(terminal: nat, payload: seq<Byte>)

  function Filed(log: seq<Entry>): seq<(nat, Byte)> {
    if log == [] then []
    else Filed(log[..|log| - 1]) + Tagged(log[|log| - 1].terminal, log[|log| - 1].payload)
  }

  predicate Sendable(op: Op) {
    match op
    case TerminalOut(_, text) => Plain(text)
    case Write(data) => Plain(data)
    case _ => true
  }

  /** The log entry of a completed call, the active terminal after it, and the bytes it put into the ring. */
  datatype Answer = Answer(entry: Entry, active: nat, bytes: nat)

  /** The text that TerminalOut sends, if it sends at all. */
  function Sent(terminal: nat, text: seq<Byte>, mode: nat, avail: nat): Option<seq<Byte>> {
    if terminal >= TERMINALS then None
    else if mode % 4 == MODE_SKIP then if |text| + 4 <= avail then Some(text) else None
    else if mode % 4 == MODE_TRIM then if 4 <= avail then Some(text[..Min(|text|, avail - 4)]) else None
    else if mode % 4 == MODE_BLOCK then Some(text)
    else None
  }

  /** The part of its data that a write stores. */
  function Stored(data: seq<Byte>, mode: nat, avail: nat): seq<Byte> {
    if mode == MODE_SKIP then if |data| <= avail then data else []
    else if mode == MODE_TRIM then data[..Min(|data|, avail)]
    else if mode == MODE_BLOCK then data
    else []
  }

  /**
  What each call does, given the active terminal and the mode word it starts with and the
  free space it samples.
  */
  function AnswerTo(op: Op, active: nat, mode: nat, avail: nat): Answer {
    match op
    case SetTerminal(terminal) =>
      if terminal < TERMINALS && (mode % 4 == MODE_BLOCK || 2 <= avail) then Answer(Entry(0, []), terminal, 2)
      else Answer(Entry(0, []), active, 0)
    case TerminalOut(terminal, text) =>
      match Sent(terminal, text, mode, avail) {
        case Some(payload) => Answer(Entry(terminal, payload), active, |payload| + 4)
        case None => Answer(Entry(terminal, []), active, 0)
      }
    case Write(data) => var payload := Stored(data, mode, avail); Answer(Entry(active, payload), active, |payload|)
    case SetFlags(_) => Answer(Entry(0, []), active, 0)
  }

  /** The free space with which a call never waits for the host and sends all it has. */
  function Need(op: Op): nat {
    match op
    case SetTerminal(_) => 2
    case TerminalOut(_, text) => |text| + 4
    case Write(data) => |data|
    case SetFlags(_) => 0
  }

  function Needs(ops: seq<Op>): nat {
    if ops == [] then 0 else Needs(ops[..|ops| - 1]) + Need(ops[|ops| - 1])
  }

  /** The mode word before call `i`: only SetFlags changes it. */
  function ModeBefore(mode: nat, ops: seq<Op>, i: nat): nat
    requires i <= |ops|
  {
    if i == 0 then mode
    else if ops[i - 1].SetFlags? then ops[i - 1].mode
    else ModeBefore(mode, ops, i - 1)
  }

  /**
  The record of a run: for each call its log entry, the free space `free` at its start and the
  free space `avail` it sampled, and the most rounds one of its inner blocking writes took.
  `active` is the active terminal when the call starts.
  */
  datatype Step = Step(entry: Entry, active: nat, free: nat, avail: nat, rounds: nat)

  /** The state a run ends in: the active terminal and a lower bound of the free space. */
  datatype Rest = Rest(active: nat, free: nat)

  function After(steps: seq<Step>, end: Rest, i: nat): Rest
    requires i <= |steps|
  {
    if i == |steps| then end else Rest(steps[i].active, steps[i].free)
  }

  function Log(steps: seq<Step>): (log: seq<Entry>)
    ensures |log| == |steps|
  {
    seq(|steps|, i requires 0 <= i < |steps| => steps[i].entry)
  }

  /** Step `i` is the answer to call `i`, with a conservative sample of at most `size` - 1 bytes. */
  predicate StepOk(mode: nat, ops: seq<Op>, steps: seq<Step>, end: Rest, size: nat, i: nat)
    requires i < |steps| <= |ops|
  {
    var s, next, m := steps[i], After(steps, end, i + 1), ModeBefore(mode, ops, i);
    var answer := AnswerTo(ops[i], s.active, m, s.avail);
    && s.entry == answer.entry && next.active == answer.active
    && s.free <= s.avail < size && s.free <= next.free + answer.bytes
    && (m % 4 == MODE_SKIP || m % 4 == MODE_TRIM ==> s.rounds <= 2)
  }

  /** `payload` is what the mode leaves of the data when `room` bytes of it fit; nothing in an unknown mode. */
  predicate Trimmed(data: seq<Byte>, mode: nat, room: int, payload: seq<Byte>) {
    && payload <= data
    && (mode == MODE_SKIP ==> |payload| == if |data| <= room then |data| else 0)
    && (mode == MODE_TRIM ==> |payload| == if room < 0 then 0 else Min(|data|, room))
    && (mode == MODE_BLOCK ==> payload == data)
    && (mode > MODE_BLOCK ==> payload == [])
  }

  /**
  What a call puts on record and does to the active terminal and the free space. The text of
  TerminalOut has four bytes less room than there are; if they are not there, or the text is not
  to be cut, no switch is sent either. Terminals that do not exist are refused.
  */
  predicate Obeys(op: Op, mode: nat, s: Step, next: Rest) {
    match op
    case SetTerminal(t) =>
      var switches := t < TERMINALS && (mode % 4 == MODE_BLOCK || 2 <= s.avail);
      && s.entry.payload == [] && next.active == (if switches then t else s.active)
      && s.free <= next.free + (if switches then 2 else 0)
    case TerminalOut(t, text) =>
      var refused := t >= TERMINALS || mode % 4 > MODE_BLOCK || (mode % 4 == MODE_SKIP && s.avail < |text| + 4)
                     || (mode % 4 == MODE_TRIM && s.avail < 4);
      && next.active == s.active && s.entry.terminal == t
      && (t < TERMINALS ==> Trimmed(text, mode % 4, s.avail - 4, s.entry.payload))
      && s.free <= next.free + (if refused then 0 else |s.entry.payload| + 4)
      && (refused ==> s.entry.payload == [])
    case Write(data) =>
      && next.active == s.active == s.entry.terminal && Trimmed(data, mode, s.avail, s.entry.payload)
      && s.free <= next.free + |s.entry.payload|
    case SetFlags(_) => s.entry.payload == [] && next.active == s.active && s.free <= next.free
  }

  lemma StepsObey(mode: nat, ops: seq<Op>, steps: seq<Step>, end: Rest, size: nat)
    requires StepsOk(mode, ops, steps, end, size)
    ensures forall i :: 0 <= i < |steps| ==>
              Obeys(ops[i], ModeBefore(mode, ops, i), steps[i], After(steps, end, i + 1))
  {
    forall i | 0 <= i < |steps|
      ensures Obeys(ops[i], ModeBefore(mode, ops, i), steps[i], After(steps, end, i + 1))
    {
      assert StepOk(mode, ops, steps, end, size, i);
    }
  }

  predicate StepsOk(mode: nat, ops: seq<Op>, steps: seq<Step>, end: Rest, size: nat) {
    |steps| <= |ops| && forall i :: 0 <= i < |steps| ==> StepOk(mode, ops, steps, end, size, i)
  }

  /** A run goes to the end, or stops at a blocking call that lacks room and waits for the host. */
  predicate Completed(mode: nat, ops: seq<Op>, steps: seq<Step>, end: Rest) {
    || |steps| == |ops|
    || (|steps| < |ops| && ModeBefore(mode, ops, |steps|) % 4 == MODE_BLOCK && end.free < Need(ops[|steps|]))
  }

  lemma OneMoreStep(mode: nat, ops: seq<Op>, steps: seq<Step>, s: Step, end: Rest, size: nat)
    requires |steps| < |ops| && StepsOk(mode, ops, steps, Rest(s.active, s.free), size)
    requires var m := ModeBefore(mode, ops, |steps|);
      var answer := AnswerTo(ops[|steps|], s.active, m, s.avail);
      && s.entry == answer.entry && end.active == answer.active
      && s.free <= s.avail < size && s.free <= end.free + answer.bytes
      && (m % 4 == MODE_SKIP || m % 4 == MODE_TRIM ==> s.rounds <= 2)
    ensures StepsOk(mode, ops, steps + [s], end, size)
    ensures Filed(Log(steps + [s])) == Filed(Log(steps)) + Tagged(s.entry.terminal, s.entry.payload)
  {
    assert Log(steps + [s])[..|steps|] == Log(steps);
    forall i | 0 <= i < |steps + [s]|
      ensures StepOk(mode, ops, steps + [s], end, size, i)
    {
      if i < |steps| {
        assert StepOk(mode, ops, steps, Rest(s.active, s.free), size, i);
        assert After(steps + [s], end, i + 1) == After(steps, Rest(s.active, s.free), i + 1);
      }
    }
  }

  /** A call that finds room for all it has sends all of it. */
  predicate Whole(op: Op, mode: nat, e: Entry) {
    match op
    case TerminalOut(terminal, text) => terminal < TERMINALS && mode % 4 != 3 ==> e == Entry(terminal, text)
    case Write(data) => mode <= MODE_BLOCK ==> e.payload == data
    case _ => true
  }

  lemma RoomIsEnough(op: Op, active: nat, mode: nat, avail: nat)
    requires Need(op) <= avail
    ensures Whole(op, mode, AnswerTo(op, active, mode, avail).entry)
    ensures AnswerTo(op, active, mode, avail).bytes <= Need(op)
    ensures op.SetTerminal? && op.terminal < TERMINALS ==> AnswerTo(op, active, mode, avail).active == op.terminal
  {
  }

  lemma RoomyStep(mode: nat, ops: seq<Op>, steps: seq<Step>, end: Rest, size: nat, i: nat)
    requires i < |steps| <= |ops| && StepOk(mode, ops, steps, end, size, i) && Need(ops[i]) <= steps[i].free
    ensures Whole(ops[i], ModeBefore(mode, ops, i), steps[i].entry)
    ensures After(steps, end, i + 1).free >= steps[i].free - Need(ops[i])
  {
    RoomIsEnough(ops[i], steps[i].active, ModeBefore(mode, ops, i), steps[i].avail);
  }

  lemma {:induction false} RoomLeft(mode: nat, ops: seq<Op>, steps: seq<Step>, end: Rest, size: nat, i: nat)
    requires StepsOk(mode, ops, steps, end, size) && i <= |steps|
    requires Needs(ops) <= After(steps, end, 0).free
    ensures After(steps, end, i).free >= After(steps, end, 0).free - Needs(ops[..i])
  {
    if i == 0 {
      assert Needs(ops[..0]) == 0;
    } else {
      RoomLeft(mode, ops, steps, end, size, i - 1);
      NeedsGrow(ops, i - 1);
      assert StepOk(mode, ops, steps, end, size, i - 1);
      RoomyStep(mode, ops, steps, end, size, i - 1);
      NeedsStep(ops, i - 1);
    }
  }

  lemma NeedsStep(ops: seq<Op>, i: nat)
    requires i < |ops|
    ensures Needs(ops[..i + 1]) == Needs(ops[..i]) + Need(ops[i])
  {
    assert ops[..i + 1][..i] == ops[..i];
  }

  /**
  A run whose calls need no more than the free space at its start goes to its end and delivers
  everything, whatever the modes and however slow the host.
  */
  lemma SmallRunIsWhole(mode: nat, ops: seq<Op>, steps: seq<Step>, end: Rest, size: nat)
    requires StepsOk(mode, ops, steps, end, size) && Completed(mode, ops, steps, end)
    requires Needs(ops) <= After(steps, end, 0).free
    ensures |steps| == |ops|
    ensures forall i :: 0 <= i < |steps| ==> Whole(ops[i], ModeBefore(mode, ops, i), steps[i].entry)
  {
    RoomLeft(mode, ops, steps, end, size, |steps|);
    NeedsGrow(ops, |steps|);
    forall i | 0 <= i < |steps|
      ensures Whole(ops[i], ModeBefore(mode, ops, i), steps[i].entry)
    {
      RoomLeft(mode, ops, steps, end, size, i);
      NeedsGrow(ops, i);
      assert StepOk(mode, ops, steps, end, size, i);
      RoomyStep(mode, ops, steps, end, size, i);
    }
  }

  lemma {:induction false} NeedsGrow(ops: seq<Op>, i: nat)
    requires i <= |ops|
    ensures Needs(ops[..i]) <= Needs(ops)
    ensures i < |ops| ==> Needs(ops[..i]) + Need(ops[i]) <= Needs(ops)
    decreases |ops|
  {
    if i == |ops| {
      assert ops[..i] == ops;
    } else {
      var front := ops[..|ops| - 1];
      assert front[..i] == ops[..i];
      NeedsGrow(front, i);
    }
  }

  class Channel {
    const ring: UpRing
    var active: Byte

    constructor (size: nat)
      requires 0 < size < 0x1_0000_0000
      ensures Valid() && InStep() && fresh(ring) && fresh(ring.buf)
      ensures ring.Published() == [] && active == 0
    {
      ring := new UpRing(size, MODE_SKIP);
      active := 0;
    }

    ghost predicate Valid()
      reads this, ring
    {
      ring.Valid() && active < TERMINALS
    }

    ghost function View(): Host
      requires Valid()
      reads this, ring, ring.buf
    {
      Receive(START, ring.Published())
    }

    /** A host that has read everything is on the active terminal, between escapes. */
    ghost predicate InStep()
      requires Valid()
      reads this, ring, ring.buf
    {
      View().terminal == active && !View().escaped
    }

    /** SEGGER_RTT_SetTerminal. `done` is false when the blocking write is still waiting. */
    method SetTerminal(terminal: Byte, patience: nat) returns (r: int, done: bool, ghost avail: nat)
      requires Valid()
      modifies this, ring, ring.buf
      ensures Valid() && ring.flags == old(ring.flags)
      ensures old(ring.Free()) <= avail < ring.buf.Length
      ensures r == if terminal < TERMINALS && (ring.flags % 4 == MODE_BLOCK || 2 <= avail) then 0 else -1
      ensures r == -1 ==> done && ring.Published() == old(ring.Published()) && active == old(active)
      ensures r == -1 ==> ring.Free() >= old(ring.Free())
      ensures r == 0 ==> active == terminal < TERMINALS
      ensures r == 0 && done ==> ring.Published() == old(ring.Published()) + Switch(terminal)
      ensures r == 0 && done ==> ring.Free() >= old(ring.Free()) - 2
      ensures old(ring.Published()) <= ring.Published()
      ensures !done ==> ring.flags % 4 == MODE_BLOCK
      ensures old(ring.Free()) >= 2 && terminal < TERMINALS ==> r == 0 && done
    {
      r, done, avail := 0, true, ring.Free();
      if terminal < TERMINALS {
        var ac := Switch(terminal);
        if ring.flags % 4 == MODE_BLOCK {
          active := terminal;
          var written, polls, stalls := ring.WriteBlocking(ac, patience);
          done := written == |ac|;
          assert done ==> ac[..written] == ac;
        } else {
          var room := ring.GetAvail();
          avail := room;
          if room >= 2 {
            active := terminal;
            ring.WriteNoCheck(ac);
          } else {
            r := -1;
          }
        }
      } else {
        r := -1;
      }
    }

    /** _PostTerminalSwitch; with two free bytes it finishes in two rounds, whatever the host does. */
    method PostTerminalSwitch(terminal: Byte, patience: nat) returns (done: bool, rounds: nat)
      requires Valid() && terminal < TERMINALS
      modifies ring`wrOff, ring`rdOff, ring`consumed, ring.buf
      ensures Valid()
      ensures done ==> ring.Published() == old(ring.Published()) + Switch(terminal)
      ensures old(ring.Published()) <= ring.Published()
      ensures done ==> ring.Free() >= old(ring.Free()) - 2
      ensures old(ring.Free()) >= 2 ==> done && rounds <= 2
    {
      var ac := Switch(terminal);
      var written, polls, stalls := ring.WriteBlocking(ac, patience);
      done, rounds := written == |ac|, polls;
      assert done ==> ac[..written] == ac;
    }

    /**
    The three inner writes every mode of SEGGER_RTT_TerminalOut shares; `rounds` is the most
    that one of them needed.
    */
    method PostFramed(terminal: Byte, s: seq<Byte>, patience: nat) returns (n: nat, done: bool, rounds: nat)
      requires Valid() && terminal < TERMINALS
      modifies ring`wrOff, ring`rdOff, ring`consumed, ring.buf
      ensures Valid() && n <= |s|
      ensures done ==> n == |s|
      ensures done ==> ring.Published() == old(ring.Published()) + (Switch(terminal) + s + Switch(active))
      ensures old(ring.Published()) <= ring.Published()
      ensures done ==> ring.Free() >= old(ring.Free()) - |s| - 4
      ensures |s| + 4 <= old(ring.Free()) ==> done && rounds <= 2
    {
      ghost var before := ring.Published();
      n := 0;
      done, rounds := PostTerminalSwitch(terminal, patience);
      if !done { return; }
      var polls, stalls;
      n, polls, stalls := ring.WriteBlocking(s, patience);
      done, rounds := n == |s|, Max(rounds, polls);
      if !done { return; }
      assert s[..n] == s;
      var last;
      done, last := PostTerminalSwitch(active, patience);
      rounds := Max(rounds, last);
      assert before + Switch(terminal) + s + Switch(active) == before + (Switch(terminal) + s + Switch(active));
    }

    /** SEGGER_RTT_TerminalOut; `avail` is the free space it sampled, `sent` whether it wrote at all. */
    method TerminalOut(terminal: Byte, s: seq<Byte>, patience: nat)
      returns (status: int, ghost avail: nat, sent: bool, done: bool, rounds: nat)
      requires Valid()
      modifies ring`wrOff, ring`rdOff, ring`consumed, ring.buf
      ensures Valid() && old(ring.Free()) <= avail < ring.buf.Length
      ensures terminal >= TERMINALS || ring.flags % 4 > MODE_BLOCK ==> !sent
      ensures terminal < TERMINALS && ring.flags % 4 == MODE_SKIP ==> (sent <==> |s| + 4 <= avail)
      ensures terminal < TERMINALS && ring.flags % 4 == MODE_TRIM ==> (sent <==> 4 <= avail)
      ensures terminal < TERMINALS && ring.flags % 4 == MODE_BLOCK ==> sent
      ensures !sent ==> done && rounds == 0
      ensures !sent ==> status == if terminal < TERMINALS && ring.flags % 4 == MODE_SKIP then 0 else -1
      ensures !sent ==> ring.Published() == old(ring.Published()) && ring.Free() >= old(ring.Free())
      ensures sent && done ==> status == if ring.flags % 4 == MODE_TRIM then Min(|s|, avail - 4) else |s|
      ensures sent && done ==>
                ring.Published() == old(ring.Published()) + (Switch(terminal) + s[..status] + Switch(active))
      ensures sent && done ==> ring.Free() >= old(ring.Free()) - status - 4
      ensures old(ring.Published()) <= ring.Published()
      ensures ring.flags % 4 != MODE_BLOCK || Need(Op.TerminalOut(terminal, s)) <= old(ring.Free()) ==>
                done && rounds <= 2
    {
      avail, sent, done, rounds := ring.Free(), false, true, 0;
      if terminal < TERMINALS {
        var room := ring.GetAvail();
        avail := room;
        var n;
        if ring.flags % 4 == MODE_SKIP {
          if room < |s| + 4 {
            status := 0;
          } else {
            sent := true;
            n, done, rounds := PostFramed(terminal, s, patience);
            status := n;
            assert s[..|s|] == s;
          }
        } else if ring.flags % 4 == MODE_TRIM {
          if room < 4 {
            status := -1;
          } else {
            sent := true;
            n, done, rounds := PostFramed(terminal, s[..if |s| < room - 4 then |s| else room - 4], patience);
            status := n;
          }
        } else if ring.flags % 4 == MODE_BLOCK {
          sent := true;
          n, done, rounds := PostFramed(terminal, s, patience);
          status := n;
          assert s[..|s|] == s;
        } else {
          status := -1;
        }
      } else {
        status := -1;
      }
    }

    /** TerminalOut as the host sees it. */
    method CallTerminalOut(terminal: Byte, text: seq<Byte>, patience: nat)
      returns (e: Entry, done: bool, rounds: nat, ghost avail: nat)
      requires Valid() && InStep() && Plain(text)
      modifies this, ring, ring.buf
      ensures Valid() && ring.flags == old(ring.flags) && old(ring.Free()) <= avail < ring.buf.Length
      ensures done ==> InStep() && View().seen == old(View()).seen + Tagged(e.terminal, e.payload)
      ensures done ==> var answer := AnswerTo(Op.TerminalOut(terminal, text), old(active), ring.flags, avail);
                e == answer.entry && active == answer.active && ring.Free() >= old(ring.Free()) - answer.bytes
      ensures !done ==> ring.flags % 4 == MODE_BLOCK && old(ring.Free()) < |text| + 4
      ensures old(ring.Published()) <= ring.Published()
      ensures ring.flags % 4 < MODE_BLOCK ==> rounds <= 2
    {
      ghost var bytes := ring.Published();
      ghost var view := View();
      var status, sent;
      status, avail, sent, done, rounds := TerminalOut(terminal, text, patience);
      e := Entry(terminal, []);
      if sent && done {
        e := Entry(terminal, text[..status]);
        assert e.payload == Sent(terminal, text, ring.flags, avail).value by {
          assert text[..|text|] == text;
        }
        assert Plain(e.payload);
        ReceiveAppend(START, bytes, Switch(terminal) + e.payload + Switch(active));
        ReceiveFramed(view, terminal, e.payload);
      }
    }

    /** SetTerminal as the host sees it. */
    method CallSetTerminal(terminal: Byte, patience: nat) returns (e: Entry, done: bool, ghost avail: nat)
      requires Valid() && InStep()
      modifies this, ring, ring.buf
      ensures Valid() && ring.flags == old(ring.flags) && old(ring.Free()) <= avail < ring.buf.Length
      ensures done ==> InStep() && View().seen == old(View()).seen + Tagged(e.terminal, e.payload)
      ensures done ==> var answer := AnswerTo(Op.SetTerminal(terminal), old(active), ring.flags, avail);
                e == answer.entry && active == answer.active && ring.Free() >= old(ring.Free()) - answer.bytes
      ensures !done ==> ring.flags % 4 == MODE_BLOCK && old(ring.Free()) < 2
      ensures old(ring.Published()) <= ring.Published()
    {
      ghost var bytes := ring.Published();
      ghost var view := View();
      e := Entry(0, []);
      var r;
      r, done, avail := SetTerminal(terminal, patience);
      if r == 0 && done {
        ReceiveAppend(START, bytes, Switch(terminal));
        ReceiveSwitch(view, terminal);
      }
    }

    /** A write as the host sees it. */
    method CallWrite(data: seq<Byte>, patience: nat) returns (e: Entry, done: bool, ghost avail: nat)
      requires Valid() && InStep() && Plain(data)
      modifies this, ring, ring.buf
      ensures Valid() && ring.flags == old(ring.flags) && old(ring.Free()) <= avail < ring.buf.Length
      ensures done ==> InStep() && View().seen == old(View()).seen + Tagged(e.terminal, e.payload)
      ensures done ==> var answer := AnswerTo(Op.Write(data), old(active), ring.flags, avail);
                e == answer.entry && active == answer.active && ring.Free() >= old(ring.Free()) - answer.bytes
      ensures !done ==> ring.flags % 4 == MODE_BLOCK && old(ring.Free()) < |data|
      ensures old(ring.Published()) <= ring.Published()
    {
      ghost var bytes := ring.Published();
      ghost var view := View();
      var status;
      status, done, avail := ring.WriteNoLock(data, patience);
      e := Entry(active, data[..status]);
      ReceiveAppend(START, bytes, e.payload);
      assert Plain(e.payload);
      ReceivePlain(view, e.payload);
    }

    /** One call: it does what AnswerTo says, and the host files the entry it logs. */
    method Call(op: Op, patience: nat) returns (e: Entry, done: bool, rounds: nat, ghost avail: nat)
      requires Valid() && InStep() && Sendable(op)
      modifies this, ring, ring.buf
      ensures Valid() && old(ring.Free()) <= avail < ring.buf.Length
      ensures done ==> InStep() && View().seen == old(View()).seen + Tagged(e.terminal, e.payload)
      ensures done ==> var answer := AnswerTo(op, old(active), old(ring.flags), avail);
                e == answer.entry && active == answer.active && ring.Free() >= old(ring.Free()) - answer.bytes
      ensures !done ==> old(ring.flags) % 4 == MODE_BLOCK && old(ring.Free()) < Need(op)
      ensures old(ring.flags) % 4 < MODE_BLOCK ==> rounds <= 2
      ensures ring.flags == if op.SetFlags? then op.mode else old(ring.flags)
      ensures old(ring.Published()) <= ring.Published()
    {
      e, done, rounds, avail := Entry(0, []), true, 0, ring.Free();
      match op {
        case SetTerminal(terminal) =>
          e, done, avail := CallSetTerminal(terminal, patience);
        case TerminalOut(terminal, text) =>
          e, done, rounds, avail := CallTerminalOut(terminal, text, patience);
        case Write(data) =>
          e, done, avail := CallWrite(data, patience);
        case SetFlags(mode) =>
          assert View().seen + Tagged(0, []) == View().seen;
          ring.flags := mode;
      }
    }

    /**
    Any run of calls, in any mix of modes. Every call does exactly what its answer says, with a
    free space sample that is at least the true one, and the true one shrinks only by what the
    run itself sends. The run goes on to its end unless a blocking call lacks room. The records
    of a host that has read everything are then exactly the log: each call's bytes, under the
    terminal that call addressed. A host that lags behind has the front of these records.
    */
    method Session(ops: seq<Op>, patience: nat) returns (ghost steps: seq<Step>, ghost end: Rest)
      requires Valid() && InStep() && View().seen == []
      requires forall op :: op in ops ==> Sendable(op)
      modifies this, ring, ring.buf
      ensures Valid() && StepsOk(old(ring.flags), ops, steps, end, ring.buf.Length)
      ensures forall i :: 0 <= i < |steps| ==>
                Obeys(ops[i], ModeBefore(old(ring.flags), ops, i), steps[i], After(steps, end, i + 1))
      ensures After(steps, end, 0) == Rest(old(active), old(ring.Free()))
      ensures Completed(old(ring.flags), ops, steps, end)
      ensures |steps| == |ops| ==> InStep() && View().seen == Filed(Log(steps)) && end == Rest(active, ring.Free())
      ensures Filed(Log(steps)) <= View().seen
      ensures Receive(START, ring.consumed).seen <= View().seen
    {
      steps, end := [], Rest(active, ring.Free());
      ghost var mode := ring.flags;
      for i := 0 to |ops|
        invariant Valid() && InStep() && |steps| == i
        invariant end == Rest(active, ring.Free()) && After(steps, end, 0) == Rest(old(active), old(ring.Free()))
        invariant ring.flags == ModeBefore(mode, ops, i)
        invariant View().seen == Filed(Log(steps))
        invariant StepsOk(mode, ops, steps, end, ring.buf.Length)
      {
        ghost var bytes := ring.Published();
        var e, done, rounds;
        ghost var avail;
        e, done, rounds, avail := Call(ops[i], patience);
        if !done {
          SeenGrows(START, bytes, ring.Published());
          SeenGrows(START, ring.consumed, ring.Published());
          StepsObey(mode, ops, steps, end, ring.buf.Length);
          return;
        }
        ghost var s := Step(e, end.active, end.free, avail, rounds);
        OneMoreStep(mode, ops, steps, s, Rest(active, ring.Free()), ring.buf.Length);
        steps, end := steps + [s], Rest(active, ring.Free());
      }
      SeenGrows(START, ring.consumed, ring.Published());
      StepsObey(mode, ops, steps, end, ring.buf.Length);
    }
  }
}
