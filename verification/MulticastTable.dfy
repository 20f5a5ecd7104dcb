/**
The multicast group table of the switch (l2.c): 64 slots searched in line, driven through the
group registers (rtl8367c_asicdrv_lut.c). It is a finite map from address and VLAN to a port
mask, with room for 64 keys.
*/
module MulticastTable {
  import opened Prelude

  const SLOTS := 64
  const VID_MAX := 0xFFF
  const NO_SLOT := 0xFFFF

  datatype Key = Key(addr: nat, vid: nat)

  /** The registers of one slot: the group address without its leading 1110, halved. */
  datatype Slot = Slot(high: nat, low: nat, vid: nat, mask: nat, valid: bool)

  datatype GroupStatus = Ok | L2Vid | InputError | PortMask | TableFull | Failed

  /** 224.0.0.0 to 239.255.255.255 */
  predicate IsMulticast(addr: nat) { 0xE000_0000 <= addr < 0xF000_0000 }

  /** The address registers as written and as read back. */
  function SlotFor(addr: nat, vid: nat, mask: nat, valid: bool): Slot {
    Slot(addr % 0x1000_0000 / 0x1_0000, addr % 0x1_0000, vid, mask, valid)
  }

  function AddressOf(s: Slot): nat { 0xE000_0000 + s.high % 0x1000 * 0x1_0000 + s.low % 0x1_0000 }

  function KeyOf(s: Slot): Key { Key(AddressOf(s), s.vid) }

  lemma AddressComesBack(addr: nat, vid: nat, mask: nat, valid: bool)
    requires IsMulticast(addr)
    ensures KeyOf(SlotFor(addr, vid, mask, valid)) == Key(addr, vid)
    ensures var s := SlotFor(addr, vid, mask, valid);
      s.high * 0x1_0000 + s.low == addr - 0xE000_0000 && s.low < 0x1_0000 && s.high < 0x1000
  {
  }

  // ---------------------------------------------------------------- slots as a map

  predicate Unique(es: seq<Slot>) {
    forall i, j :: 0 <= i < j < |es| && es[i].valid && es[j].valid ==> KeyOf(es[i]) != KeyOf(es[j])
  }

  /** The groups the slots stand for. */
  function Groups(es: seq<Slot>): map<Key, nat> {
    if es == [] then map[]
    else
      var front, s := es[..|es| - 1], es[|es| - 1];
      if s.valid then Groups(front)[KeyOf(s) := s.mask] else Groups(front)
  }

  function InUse(es: seq<Slot>): (n: nat)
    ensures n <= |es|
  {
    if es == [] then 0 else InUse(es[..|es| - 1]) + if es[|es| - 1].valid then 1 else 0
  }

  predicate Stored(es: seq<Slot>, k: Key) {
    exists i :: 0 <= i < |es| && es[i].valid && KeyOf(es[i]) == k
  }

  lemma {:induction false} KeysAreStored(es: seq<Slot>, k: Key)
    ensures k in Groups(es) <==> Stored(es, k)
  {
    if es == [] {
    } else {
      var front, s := es[..|es| - 1], es[|es| - 1];
      KeysAreStored(front, k);
      if Stored(front, k) {
        var i :| 0 <= i < |front| && front[i].valid && KeyOf(front[i]) == k;
        assert es[i] == front[i];
      }
    }
  }

  /** With unique keys the map shows every slot. */
  lemma {:induction false} SlotShows(es: seq<Slot>, i: nat)
    requires Unique(es) && i < |es| && es[i].valid
    ensures KeyOf(es[i]) in Groups(es) && Groups(es)[KeyOf(es[i])] == es[i].mask
  {
    if i == |es| - 1 {
    } else {
      SlotShows(es[..|es| - 1], i);
    }
  }

  /** The map has as many keys as slots are in use. */
  lemma {:induction false} SizeIsUse(es: seq<Slot>)
    requires Unique(es)
    ensures |Groups(es)| == InUse(es)
  {
    if es == [] {
    } else {
      var front, s := es[..|es| - 1], es[|es| - 1];
      SizeIsUse(front);
      KeysAreStored(front, KeyOf(s));
    }
  }

  lemma {:induction false} FullWhenAllUsed(es: seq<Slot>)
    ensures InUse(es) == |es| <==> forall i :: 0 <= i < |es| ==> es[i].valid
  {
    if es == [] {
    } else {
      FullWhenAllUsed(es[..|es| - 1]);
    }
  }

  /** Two maps are equal if every key says so. */
  lemma SameMap(m: map<Key, nat>, n: map<Key, nat>)
    requires forall k :: k in m <==> k in n
    requires forall k :: k in m ==> m[k] == n[k]
    ensures m == n
  {
  }

  /** Filling a slot that is free or holds the key already sets the key. */
  lemma PutSets(es: seq<Slot>, i: nat, s: Slot)
    requires Unique(es) && i < |es| && s.valid
    requires forall j :: 0 <= j < |es| && j != i && es[j].valid ==> KeyOf(es[j]) != KeyOf(s)
    requires es[i].valid ==> KeyOf(es[i]) == KeyOf(s)
    ensures Unique(es[i := s]) && Groups(es[i := s]) == Groups(es)[KeyOf(s) := s.mask]
  {
    var after := es[i := s];
    forall k
      ensures k in Groups(after) <==> k in Groups(es)[KeyOf(s) := s.mask]
      ensures k in Groups(after) ==> Groups(after)[k] == Groups(es)[KeyOf(s) := s.mask][k]
    {
      KeysAreStored(es, k);
      KeysAreStored(after, k);
      if Stored(after, k) {
        var j :| 0 <= j < |after| && after[j].valid && KeyOf(after[j]) == k;
        SlotShows(after, j);
        if j != i {
          SlotShows(es, j);
        }
      }
      if k != KeyOf(s) && Stored(es, k) {
        var j :| 0 <= j < |es| && es[j].valid && KeyOf(es[j]) == k;
        assert after[j].valid && KeyOf(after[j]) == k;
      }
      if k == KeyOf(s) {
        assert after[i].valid;
      }
    }
    SameMap(Groups(after), Groups(es)[KeyOf(s) := s.mask]);
  }

  /** Clearing a slot removes its key and no other. */
  lemma ClearRemoves(es: seq<Slot>, i: nat, s: Slot)
    requires Unique(es) && i < |es| && es[i].valid && !s.valid
    ensures Unique(es[i := s]) && Groups(es[i := s]) == Groups(es) - {KeyOf(es[i])}
  {
    var after, gone := es[i := s], KeyOf(es[i]);
    forall k
      ensures k in Groups(after) <==> k in Groups(es) - {gone}
      ensures k in Groups(after) ==> Groups(after)[k] == Groups(es)[k]
    {
      KeysAreStored(es, k);
      KeysAreStored(after, k);
      if Stored(after, k) {
        var j :| 0 <= j < |after| && after[j].valid && KeyOf(after[j]) == k;
        assert j != i && es[j] == after[j];
        SlotShows(after, j);
        SlotShows(es, j);
      }
      if k != gone && Stored(es, k) {
        var j :| 0 <= j < |es| && es[j].valid && KeyOf(es[j]) == k;
        assert after[j].valid && KeyOf(after[j]) == k;
      }
    }
    SameMap(Groups(after), Groups(es) - {gone});
  }

  // ---------------------------------------------------------------- the operations on the map

  /** Logical port masks and their physical form; an invalid mask has none. */
  datatype PortMap = PortMap(toPhysical: nat -> Option<nat>, toLogical: nat -> nat)

  ghost predicate Invertible(p: PortMap) {
    forall m :: p.toPhysical(m).Some? ==> p.toLogical(p.toPhysical(m).value) == m
  }

  datatype Op = Add(addr: nat, vid: nat, ports: nat) | Del(addr: nat, vid: nat) | Get(addr: nat, vid: nat)

  /** A status, and the ports that a successful Get returns. */
  datatype Reply = Reply(status: GroupStatus, ports: Option<nat>)

  function AddReply(m: map<Key, nat>, addr: nat, vid: nat, physical: Option<nat>): GroupStatus {
    if vid > VID_MAX then L2Vid
    else if !IsMulticast(addr) then InputError
    else if physical.None? then PortMask
    else if Key(addr, vid) in m || |m| < SLOTS then Ok else TableFull
  }

  function DelReply(m: map<Key, nat>, addr: nat, vid: nat): GroupStatus {
    if vid > VID_MAX then L2Vid
    else if !IsMulticast(addr) then InputError
    else if Key(addr, vid) in m then Ok else Failed
  }

  function GetReply(m: map<Key, nat>, addr: nat, vid: nat): GroupStatus {
    if !IsMulticast(addr) then InputError
    else if vid > VID_MAX then L2Vid
    else if Key(addr, vid) in m then Ok else Failed
  }

  /** One operation on a map with room for SLOTS keys. */
  function Apply(m: map<Key, nat>, op: Op, p: PortMap): (map<Key, nat>, Reply) {
    match op
    case Add(addr, vid, ports) =>
      var status := AddReply(m, addr, vid, p.toPhysical(ports));
      (if status == Ok then m[Key(addr, vid) := p.toPhysical(ports).value] else m, Reply(status, None))
    case Del(addr, vid) =>
      var status := DelReply(m, addr, vid);
      (if status == Ok then m - {Key(addr, vid)} else m, Reply(status, None))
    case Get(addr, vid) =>
      var status := GetReply(m, addr, vid);
      (m, Reply(status, if status == Ok then Some(p.toLogical(m[Key(addr, vid)])) else None))
  }

  function Run(m: map<Key, nat>, ops: seq<Op>, p: PortMap): (map<Key, nat>, seq<Reply>)
    decreases |ops|
  {
    if ops == [] then (m, [])
    else
      var (before, replies) := Run(m, ops[..|ops| - 1], p);
      var (after, reply) := Apply(before, ops[|ops| - 1], p);
      (after, replies + [reply])
  }

  /** Operations on other keys change nothing for this one. */
  lemma OthersStay(m: map<Key, nat>, op: Op, p: PortMap, k: Key)
    requires Key(op.addr, op.vid) != k || op.Get?
    ensures k in Apply(m, op, p).0 <==> k in m
    ensures k in m ==> Apply(m, op, p).0[k] == m[k]
  {
  }

  lemma {:induction false} UntouchedStays(m: map<Key, nat>, ops: seq<Op>, p: PortMap, k: Key)
    requires forall i :: 0 <= i < |ops| ==> ops[i].Get? || Key(ops[i].addr, ops[i].vid) != k
    ensures k in Run(m, ops, p).0 <==> k in m
    ensures k in m ==> Run(m, ops, p).0[k] == m[k]
    decreases |ops|
  {
    if ops == [] {
    } else {
      var front := ops[..|ops| - 1];
      UntouchedStays(m, front, p, k);
      OthersStay(Run(m, front, p).0, ops[|ops| - 1], p, k);
    }
  }

  /** A group that the table can name. */
  predicate Nameable(addr: nat, vid: nat) { vid <= 4095 && 0xE000_0000 <= addr < 0xF000_0000 }

  /** When operations succeed, and what they are told if not. */
  lemma RepliesExact(m: map<Key, nat>, p: PortMap, addr: nat, vid: nat, ports: nat)
    ensures var (after, reply) := Apply(m, Add(addr, vid, ports), p);
      && (reply.status == Ok <==>
            Nameable(addr, vid) && p.toPhysical(ports).Some? && (Key(addr, vid) in m || |m| < 64))
      && (reply.status == TableFull <==>
            Nameable(addr, vid) && p.toPhysical(ports).Some? && Key(addr, vid) !in m && |m| >= 64)
      && (reply.status == L2Vid <==> vid > 4095)
      && (reply.status == PortMask <==> Nameable(addr, vid) && p.toPhysical(ports).None?)
      && after == (if reply.status == Ok then m[Key(addr, vid) := p.toPhysical(ports).value] else m)
    ensures var (after, reply) := Apply(m, Del(addr, vid), p);
      && (reply.status == Ok <==> Nameable(addr, vid) && Key(addr, vid) in m)
      && (reply.status == Failed <==> Nameable(addr, vid) && Key(addr, vid) !in m)
      && (reply.status == L2Vid <==> vid > 4095)
      && after == (if reply.status == Ok then m - {Key(addr, vid)} else m)
    ensures var (after, reply) := Apply(m, Get(addr, vid), p);
      && (reply.status == Ok <==> Nameable(addr, vid) && Key(addr, vid) in m)
      && (reply.status == Failed <==> Nameable(addr, vid) && Key(addr, vid) !in m)
      && (reply.status == InputError <==> !(0xE000_0000 <= addr < 0xF000_0000))
      && after == m && (reply.ports.Some? <==> reply.status == Ok)
      && (reply.status == Ok ==> reply.ports.value == p.toLogical(m[Key(addr, vid)]))
  {
  }

  /** Get returns the mask of the last Add, whatever happened to other groups since. */
  lemma {:induction false} GetReturnsLastAdd(m: map<Key, nat>, p: PortMap, addr: nat, vid: nat, ports: nat,
                                              between: seq<Op>)
    requires Invertible(p) && Nameable(addr, vid) && p.toPhysical(ports).Some?
    requires Key(addr, vid) in m || |m| < 64
    requires forall i :: 0 <= i < |between| ==>
               between[i].Get? || Key(between[i].addr, between[i].vid) != Key(addr, vid)
    ensures var now := Run(Apply(m, Add(addr, vid, ports), p).0, between, p).0;
      Apply(now, Get(addr, vid), p).1 == Reply(Ok, Some(ports))
  {
    UntouchedStays(Apply(m, Add(addr, vid, ports), p).0, between, p, Key(addr, vid));
  }

  /** After a successful Del the group is gone. */
  lemma {:induction false} DelForgets(m: map<Key, nat>, p: PortMap, addr: nat, vid: nat, between: seq<Op>)
    requires Nameable(addr, vid) && Key(addr, vid) in m
    requires forall i :: 0 <= i < |between| ==>
               between[i].Get? || Key(between[i].addr, between[i].vid) != Key(addr, vid)
    ensures var now := Run(Apply(m, Del(addr, vid), p).0, between, p).0;
      Apply(now, Get(addr, vid), p).1 == Reply(Failed, None)
  {
    UntouchedStays(Apply(m, Del(addr, vid), p).0, between, p, Key(addr, vid));
  }

  // ---------------------------------------------------------------- the table

  class Table {
    const slots: array<Slot>

    ghost predicate Valid()
      reads this, slots
    {
      slots.Length == SLOTS && Unique(slots[..])
    }

    /** The map the table stands for. */
    ghost function Map(): map<Key, nat>
      reads this, slots
    {
      Groups(slots[..])
    }

    constructor ()
      ensures Valid() && Map() == map[] && fresh(slots)
    {
      slots := new Slot[SLOTS](_ => Slot(0, 0, 0, 0, false));
      new;
      NoneStored(slots[..]);
    }

    /** The scan all operations share: the slot with the key, and the first free one before it. */
    method Find(k: Key) returns (at: nat, free: nat)
      requires Valid()
      ensures at <= SLOTS && (at < SLOTS ==> slots[at].valid && KeyOf(slots[at]) == k)
      ensures at < SLOTS <==> k in Map()
      ensures free == NO_SLOT || (free < SLOTS && !slots[free].valid)
      ensures |Map()| <= SLOTS && (at == SLOTS ==> (free == NO_SLOT <==> |Map()| == SLOTS))
    {
      at, free := 0, NO_SLOT;
      while at < SLOTS
        invariant at <= SLOTS
        invariant forall j :: 0 <= j < at ==> !(slots[j].valid && KeyOf(slots[j]) == k)
        invariant free == NO_SLOT || (free < SLOTS && !slots[free].valid)
        invariant free == NO_SLOT ==> forall j :: 0 <= j < at ==> slots[j].valid
      {
        if slots[at].valid && KeyOf(slots[at]) == k {
          SlotShows(slots[..], at);
          SizeIsUse(slots[..]);
          return;
        }
        if !slots[at].valid && free == NO_SLOT {
          free := at;
        }
        at := at + 1;
      }
      KeysAreStored(slots[..], k);
      SizeIsUse(slots[..]);
      FullWhenAllUsed(slots[..]);
    }

    method SetSlot(at: nat, s: Slot)
      requires Valid() && at < SLOTS
      modifies slots
      ensures slots[..] == old(slots[..])[at := s]
    {
      slots[at] := s;
    }

    /** _rtk_l2_ipMcastGroupEntry_add */
    method AddEntry(addr: nat, vid: nat, ports: nat, p: PortMap) returns (r: GroupStatus)
      requires Valid()
      modifies slots
      ensures Valid() && (Map(), Reply(r, None)) == Apply(old(Map()), Add(addr, vid, ports), p)
      ensures r == Ok <==> Nameable(addr, vid) && p.toPhysical(ports).Some?
                           && (Key(addr, vid) in old(Map()) || |old(Map())| < 64)
      ensures r == Ok ==> Map() == old(Map())[Key(addr, vid) := p.toPhysical(ports).value]
      ensures r != Ok ==> slots[..] == old(slots[..])
    {
      if vid > VID_MAX { return L2Vid; }
      if !IsMulticast(addr) { return InputError; }
      if p.toPhysical(ports).None? { return PortMask; }
      var physical := p.toPhysical(ports).value;
      var at, free := Find(Key(addr, vid));
      AddressComesBack(addr, vid, physical, true);
      var s := SlotFor(addr, vid, physical, true);
      if at < SLOTS {
        SlotShows(slots[..], at);
        if slots[at].mask != physical {
          PutSets(slots[..], at, s);
          SetSlot(at, s);
        } else {
          SameMap(Map(), Map()[Key(addr, vid) := physical]);
        }
        return Ok;
      }
      if free == NO_SLOT { return TableFull; }
      NotStored(slots[..], Key(addr, vid));
      PutSets(slots[..], free, s);
      SetSlot(free, s);
      return Ok;
    }

    /** _rtk_l2_ipMcastGroupEntry_del */
    method DelEntry(addr: nat, vid: nat, p: PortMap) returns (r: GroupStatus)
      requires Valid()
      modifies slots
      ensures Valid() && (Map(), Reply(r, None)) == Apply(old(Map()), Del(addr, vid), p)
      ensures r == Ok <==> Nameable(addr, vid) && Key(addr, vid) in old(Map())
      ensures r == Ok ==> Map() == old(Map()) - {Key(addr, vid)}
      ensures r != Ok ==> slots[..] == old(slots[..])
    {
      if vid > VID_MAX { return L2Vid; }
      if !IsMulticast(addr) { return InputError; }
      var at, _ := Find(Key(addr, vid));
      if at == SLOTS { return Failed; }
      ClearRemoves(slots[..], at, SlotFor(0xE000_0000, 0, 0, false));
      SetSlot(at, SlotFor(0xE000_0000, 0, 0, false));
      return Ok;
    }

    /** _rtk_l2_ipMcastGroupEntry_get */
    method GetEntry(addr: nat, vid: nat, p: PortMap) returns (r: GroupStatus, ports: Option<nat>)
      requires Valid()
      ensures (Map(), Reply(r, ports)) == Apply(Map(), Get(addr, vid), p)
      ensures r == Ok <==> Nameable(addr, vid) && Key(addr, vid) in Map()
      ensures ports == if r == Ok then Some(p.toLogical(Map()[Key(addr, vid)])) else None
    {
      if !IsMulticast(addr) { return InputError, None; }
      if vid > VID_MAX { return L2Vid, None; }
      var at, _ := Find(Key(addr, vid));
      if at == SLOTS { return Failed, None; }
      SlotShows(slots[..], at);
      return Ok, Some(p.toLogical(slots[at].mask));
    }

    /** Any run of operations behaves like the map. */
    method Replay(ops: seq<Op>, p: PortMap) returns (replies: seq<Reply>)
      requires Valid()
      modifies slots
      ensures Valid() && (Map(), replies) == Run(old(Map()), ops, p)
    {
      replies := [];
      for i := 0 to |ops|
        invariant Valid() && (Map(), replies) == Run(old(Map()), ops[..i], p)
      {
        assert ops[..i + 1][..i] == ops[..i];
        var reply := Do(ops[i], p);
        replies := replies + [reply];
      }
      assert ops[..|ops|] == ops;
    }

    method Do(op: Op, p: PortMap) returns (reply: Reply)
      requires Valid()
      modifies slots
      ensures Valid() && (Map(), reply) == Apply(old(Map()), op, p)
    {
      var status, ports := Ok, None;
      match op {
        case Add(addr, vid, mask) => status := AddEntry(addr, vid, mask, p);
        case Del(addr, vid) => status := DelEntry(addr, vid, p);
        case Get(addr, vid) => status, ports := GetEntry(addr, vid, p);
      }
      return Reply(status, ports);
    }
  }

  lemma NotStored(es: seq<Slot>, k: Key)
    requires k !in Groups(es)
    ensures forall j :: 0 <= j < |es| && es[j].valid ==> KeyOf(es[j]) != k
  {
    KeysAreStored(es, k);
  }

  lemma {:induction false} NoneStored(es: seq<Slot>)
    requires forall i :: 0 <= i < |es| ==> !es[i].valid
    ensures Groups(es) == map[]
  {
    if es == [] {
    } else {
      NoneStored(es[..|es| - 1]);
    }
  }
}
