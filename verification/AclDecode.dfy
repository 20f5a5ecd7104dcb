/**
cfg_get (acl.c) decodes the stored action. What an accepted request comes back as: the CVLAN,
SVLAN, priority and egress-tag groups return their last enabled action with its operand; the
forwarding group does so under an exact condition.
*/
module AclDecode {
  import opened Prelude
  import opened AclFields
  import opened AclDriver
  import opened AclActions

  /** The action of a group that stands last in ORDER among the enabled ones. */
  ghost predicate IsLast(enabled: set<ActType>, g: Group, t: Option<ActType>, i: nat)
    requires i <= |ORDER|
  {
    match t
    case None => NoneAfter(enabled, g, -1, i)
    case Some(a) =>
      && GroupOf(a) == g && a in enabled
      && (exists k :: 0 <= k < i && ORDER[k] == a && NoneAfter(enabled, g, k, i))
  }

  ghost predicate NoneAfter(enabled: set<ActType>, g: Group, k: int, i: nat)
    requires -1 <= k && i <= |ORDER|
  {
    forall j :: k < j < i && GroupOf(ORDER[j]) == g ==> ORDER[j] !in enabled
  }

  function LastIn(l: Lasts, g: Group): Option<ActType>
    requires g != OtherGroup
  {
    if g.CvlanGroup? then l.cv else if g.SvlanGroup? then l.sv else if g.PriGroup? then l.pri
    else if g.FwdGroup? then l.fwd else l.tag
  }

  lemma NextLast(l: Lasts, t: ActType, g: Group)
    requires g != OtherGroup
    ensures LastIn(Next(l, t), g) == if GroupOf(t) == g then Some(t) else LastIn(l, g)
  {
  }

  lemma ExtendNone(enabled: set<ActType>, g: Group, k: int, i: nat)
    requires i < |ORDER| && -1 <= k < i && NoneAfter(enabled, g, k, i)
    requires GroupOf(ORDER[i]) != g || ORDER[i] !in enabled
    ensures NoneAfter(enabled, g, k, i + 1)
  {
  }

  lemma ExtendLast(enabled: set<ActType>, g: Group, t: Option<ActType>, n: Option<ActType>, i: nat)
    requires i < |ORDER| && IsLast(enabled, g, t, i)
    requires n == if ORDER[i] in enabled && GroupOf(ORDER[i]) == g then Some(ORDER[i]) else t
    ensures IsLast(enabled, g, n, i + 1)
  {
    var u := ORDER[i];
    if u in enabled && GroupOf(u) == g {
      assert NoneAfter(enabled, g, i, i + 1);
    } else if t.None? {
      ExtendNone(enabled, g, -1, i);
    } else {
      var k :| 0 <= k < i && ORDER[k] == t.value && NoneAfter(enabled, g, k, i);
      ExtendNone(enabled, g, k, i);
    }
  }

  lemma StepLast(enabled: set<ActType>, g: Group, i: nat)
    requires i < |ORDER| && g != OtherGroup
    ensures LastIn(LastsAt(enabled, i + 1), g)
            == var u := ORDER[i]; if u in enabled && GroupOf(u) == g then Some(u) else LastIn(LastsAt(enabled, i), g)
  {
    NextLast(LastsAt(enabled, i), ORDER[i], g);
  }

  lemma LastStaysLast(enabled: set<ActType>, g: Group, i: nat)
    requires i < |ORDER| && g != OtherGroup && IsLast(enabled, g, LastIn(LastsAt(enabled, i), g), i)
    ensures IsLast(enabled, g, LastIn(LastsAt(enabled, i + 1), g), i + 1)
  {
    StepLast(enabled, g, i);
    ExtendLast(enabled, g, LastIn(LastsAt(enabled, i), g), LastIn(LastsAt(enabled, i + 1), g), i);
  }

  lemma NothingIsLast(enabled: set<ActType>, g: Group)
    requires g != OtherGroup
    ensures IsLast(enabled, g, LastIn(LastsAt(enabled, 0), g), 0)
  {
  }

  /** What the fold keeps for a group is the enabled action that stands last in the order. */
  lemma {:induction false} LastIsLast(enabled: set<ActType>, g: Group, i: nat)
    requires i <= |ORDER| && g != OtherGroup
    ensures IsLast(enabled, g, LastIn(LastsAt(enabled, i), g), i)
  {
    if i == 0 {
      NothingIsLast(enabled, g);
    } else {
      LastIsLast(enabled, g, i - 1);
      LastStaysLast(enabled, g, i - 1);
    }
  }

  predicate CvlanCoheres(t: Option<ActType>, operand: Option<ActType>) {
    t.Some? ==> GroupOf(t.value) == CvlanGroup && (t.value.CvlanSvid? || operand == t)
  }

  predicate SvlanCoheres(t: Option<ActType>, operand: Option<ActType>) {
    t.Some? ==> GroupOf(t.value) == SvlanGroup && (t.value.SvlanCvid? || operand == t)
  }

  predicate FwdCoheres(t: Option<ActType>, code: Option<ActType>, ports: Option<ActType>) {
    t.Some? ==> GroupOf(t.value) == FwdGroup && (t.value.Isolation? || code == t) && (t.value.TrapCpu? || ports == t)
  }

  predicate PriCoheres(t: Option<ActType>) { t.Some? ==> GroupOf(t.value) == PriGroup }

  predicate TagCoheres(t: Option<ActType>) { t.Some? ==> GroupOf(t.value) == TagGroup }

  /** The operand of a group belongs to its last action, unless that action takes none. */
  predicate Coherent(l: Lasts) {
    && CvlanCoheres(l.cv, l.cvOperand) && SvlanCoheres(l.sv, l.svOperand) && PriCoheres(l.pri)
    && FwdCoheres(l.fwd, l.fwdCode, l.fwdPorts) && TagCoheres(l.tag)
  }

  lemma CvlanStays(l: Lasts, t: ActType)
    requires Coherent(l) && GroupOf(t) == CvlanGroup
    ensures Coherent(NextCvlan(l, t))
  {
  }

  lemma SvlanStays(l: Lasts, t: ActType)
    requires Coherent(l) && GroupOf(t) == SvlanGroup
    ensures Coherent(NextSvlan(l, t))
  {
  }

  lemma FwdStays(l: Lasts, t: ActType)
    requires Coherent(l) && GroupOf(t) == FwdGroup
    ensures Coherent(NextFwd(l, t))
  {
  }

  lemma NextCoheres(l: Lasts, t: ActType)
    requires Coherent(l)
    ensures Coherent(Next(l, t))
  {
    match GroupOf(t)
    case CvlanGroup => CvlanStays(l, t);
    case SvlanGroup => SvlanStays(l, t);
    case FwdGroup => FwdStays(l, t);
    case PriGroup => assert Coherent(l.(pri := Some(t)));
    case TagGroup => assert Coherent(l.(tag := Some(t)));
    case OtherGroup => assert Coherent(NextOther(l, t));
  }

  lemma {:induction false} LastsCohere(enabled: set<ActType>, i: nat)
    requires i <= |ORDER|
    ensures Coherent(LastsAt(enabled, i))
  {
    if i == 0 {
    } else {
      LastsCohere(enabled, i - 1);
      NextCoheres(LastsAt(enabled, i - 1), ORDER[i - 1]);
    }
  }

  // ---------------------------------------------------------------- every bit field fits

  predicate OperandsFit(o: Operands) {
    && o.cvidx < 0x80 && o.svidx < 0x80 && o.meter0 < 0x80 && o.meter1 < 0x80 && o.meter2 < 0x80 && o.meter3 < 0x80
    && o.ports < 0x800 && o.cpuPorts < 0x800 && o.priority < 0x80 && o.pin < 0x10
  }

  lemma OperandsDoFit(q: Request, e: Env)
    requires EnvOk(q, e)
    ensures OperandsFit(OperandsOf(q, e))
  {
  }

  lemma ClosedFits(o: Operands, l: Lasts)
    requires OperandsFit(o)
    ensures ActFits(Closed(o, l).act)
  {
  }

  // ---------------------------------------------------------------- decoding

  /** RTL8367C_ACL_FWD_*: 0 mirror (to more ports), 1 redirect, 2 mirror function, 3 trap. */
  function GetFwd(on: bool, ext: Word16, fwdact: Word16, ports: Word16, cpuPorts: Word16): Option<ActType> {
    if !on then None
    else if ext == 1 then Some(Isolation)
    else if fwdact == 3 then Some(TrapCpu)
    else if fwdact == 2 then Some(Mirror)
    else if fwdact == 1 then Some(if ports == 0 then Drop else Redirect)
    else Some(if ports == cpuPorts then CopyCpu else AddDstport)
  }

  function GetPri(on: bool, priact: Word16): Option<ActType> {
    if !on then None
    else Some(if priact == 0 then Priority else if priact == 2 then PriRemark else if priact == 1 then DscpRemark
              else Policing3)
  }

  function GetSvlan(on: bool, sact: Word16): Option<ActType> {
    if !on then None
    else Some(if sact == 0 then SvlanIngress else if sact == 1 then SvlanEgress else if sact == 2 then SvlanCvid
              else Policing2)
  }

  function GetTag(on: bool, ext: Word16, fmt: Word16): Option<ActType> {
    if !on || (ext != TAG_ONLY && ext != BOTH_VLAN_TAG) then None
    else Some(if fmt == 0 then TagUntag else if fmt == 1 then TagTag else if fmt == 2 then TagKeep else TagKeepRemark)
  }

  function GetCvlan(on: bool, ext: Word16, cact: Word16): Option<ActType> {
    if !on || (ext != VLAN_ONLY && ext != BOTH_VLAN_TAG) then None
    else Some(if cact == 0 then CvlanIngress else if cact == 1 then CvlanEgress else if cact == 2 then CvlanSvid
              else Policing1)
  }

  function Singleton(t: Option<ActType>): set<ActType> { if t.Some? then {t.value} else {} }

  function Flagged(b: bool, t: ActType): set<ActType> { if b then {t} else {} }

  function OrZero(b: bool, x: bv32): bv32 { if b then x else 0 }

  predicate TakesCvid(t: Option<ActType>) { t == Some(CvlanIngress) || t == Some(CvlanEgress) }

  predicate TakesSvid(t: Option<ActType>) { t == Some(SvlanIngress) || t == Some(SvlanEgress) }

  predicate TakesPriority(t: Option<ActType>) { t == Some(Priority) || t == Some(DscpRemark) || t == Some(PriRemark) }

  predicate TakesPorts(t: Option<ActType>) {
    t == Some(Isolation) || t == Some(Mirror) || t == Some(Redirect) || t == Some(AddDstport)
  }

  /** The five exclusive groups of a stored action, and the independent actions. */
  datatype Groups = Groups(fwd: Option<ActType>, pri: Option<ActType>, sv: Option<ActType>,
                           cv: Option<ActType>, tag: Option<ActType>, meter: bool, intr: bool, gpo: bool)

  function GroupsOf(a: Act, c: Ctrl, cpuPorts: Word16): Groups {
    Groups(GetFwd(c.fwd, a.fwdExt, a.fwdact, a.fwdPorts, cpuPorts), GetPri(c.priority, a.priact),
           GetSvlan(c.svlan, a.sact), GetCvlan(c.cvlan, a.cactExt, a.cact), GetTag(c.cvlan, a.cactExt, a.tagFmt),
           c.policing, c.intGpio && a.intr == 1, c.intGpio && a.gpio == 1)
  }

  function Members(g: Groups): set<ActType> {
    Singleton(g.fwd) + Singleton(g.pri) + Singleton(g.sv) + Singleton(g.cv) + Singleton(g.tag)
    + Flagged(g.meter, Policing0) + Flagged(g.intr, Interrupt) + Flagged(g.gpo, Gpo)
  }

  function Reported(g: Groups, a: Act, e: Env): Request {
    Request(
      Members(g), OrZero(TakesCvid(g.cv), e.cvlanVid(a.cvidx)), OrZero(TakesSvid(g.sv), e.svlanVid(a.svidx)),
      OrZero(g.meter, a.meter as bv32), OrZero(g.cv == Some(Policing1), a.cvidx as bv32),
      OrZero(g.sv == Some(Policing2), a.svidx as bv32), OrZero(g.pri == Some(Policing3), a.pridx as bv32),
      OrZero(TakesPorts(g.fwd), e.toLogical(a.fwdPorts)), OrZero(TakesPriority(g.pri), a.pridx as bv32),
      OrZero(g.gpo, a.pin as bv32))
  }

  /** The request cfg_get reports; operands of absent actions are zero. */
  function Decode(a: Act, c: Ctrl, e: Env): Request { Reported(GroupsOf(a, c, e.cpuPorts), a, e) }

  // ---------------------------------------------------------------- group by group

  /** The forwarding actions whose code or operand another action claims first. */
  predicate FwdAmbiguous(t: ActType, ports: Word16, cpuPorts: Word16) {
    t.CopyCpu? || (t.AddDstport? && ports == cpuPorts) || (t.Redirect? && ports == 0)
  }

  /** What cfg_get takes a forwarding action for. */
  function FwdShown(t: ActType, ports: Word16, cpuPorts: Word16): (u: ActType)
    ensures u == t <==> !FwdAmbiguous(t, ports, cpuPorts)
  {
    if t.CopyCpu? then Mirror
    else if t.AddDstport? && ports == cpuPorts then CopyCpu
    else if t.Redirect? && ports == 0 then Drop
    else t
  }

  lemma FwdComesBack(o: Operands, l: Lasts)
    requires Coherent(l)
    ensures var c := Closed(o, l);
      GetFwd(c.ctrl.fwd, c.act.fwdExt, c.act.fwdact, c.act.fwdPorts, o.cpuPorts)
      == if l.fwd.Some? then Some(FwdShown(l.fwd.value, o.ports, o.cpuPorts)) else None
  {
  }

  lemma PriComesBack(o: Operands, l: Lasts)
    requires Coherent(l)
    ensures GetPri(Closed(o, l).ctrl.priority, Closed(o, l).act.priact) == l.pri
  {
  }

  lemma SvlanComesBack(o: Operands, l: Lasts)
    requires Coherent(l)
    ensures GetSvlan(Closed(o, l).ctrl.svlan, Closed(o, l).act.sact) == l.sv
  {
  }

  lemma CvlanComesBack(o: Operands, l: Lasts)
    requires Coherent(l)
    ensures var c := Closed(o, l); GetCvlan(c.ctrl.cvlan, c.act.cactExt, c.act.cact) == l.cv
  {
  }

  lemma TagComesBack(o: Operands, l: Lasts)
    requires Coherent(l)
    ensures var c := Closed(o, l); GetTag(c.ctrl.cvlan, c.act.cactExt, c.act.tagFmt) == l.tag
  {
  }

  // ---------------------------------------------------------------- what an accepted request comes back as

  /** The enabled action of a group that LastIsLast puts last. */
  function Winner(enabled: set<ActType>, g: Group): Option<ActType>
    requires g != OtherGroup
  {
    LastIn(LastsAt(enabled, |ORDER|), g)
  }

  /** cfg_get on what cfg_add stored. */
  function Returned(s: State, e: Env): Request { Decode(UnpackAct(PackAct(s.act)), s.ctrl, e) }

  /** `s` is what the fold leaves for `q`. */
  predicate Stored(q: Request, e: Env, s: State) { Fold(q, e, |ORDER|) == Done(s) }

  function ActOf(q: Request, e: Env): Act { Closed(OperandsOf(q, e), LastsAt(q.enabled, |ORDER|)).act }

  function GroupsBack(q: Request, e: Env): Groups {
    var c := Closed(OperandsOf(q, e), LastsAt(q.enabled, |ORDER|));
    GroupsOf(c.act, c.ctrl, e.cpuPorts)
  }

  lemma StoredIsClosed(q: Request, e: Env, s: State)
    requires EnvOk(q, e) && Stored(q, e, s)
    ensures Returned(s, e) == Reported(GroupsBack(q, e), ActOf(q, e), e)
    ensures s.act == ActOf(q, e) && Accepted(q, e, |ORDER|) && Coherent(LastsAt(q.enabled, |ORDER|))
  {
    FoldCloses(q, e, |ORDER|);
    LastsCohere(q.enabled, |ORDER|);
    OperandsDoFit(q, e);
    ClosedFits(OperandsOf(q, e), LastsAt(q.enabled, |ORDER|));
    ActComesBack(s.act);
  }

  lemma GroupsComeBack(q: Request, e: Env)
    requires Coherent(LastsAt(q.enabled, |ORDER|))
    ensures var (g, w) := (GroupsBack(q, e), q.enabled);
      && g.cv == Winner(w, CvlanGroup) && g.sv == Winner(w, SvlanGroup)
      && g.pri == Winner(w, PriGroup) && g.tag == Winner(w, TagGroup)
  {
    var o, l := OperandsOf(q, e), LastsAt(q.enabled, |ORDER|);
    PriComesBack(o, l);
    SvlanComesBack(o, l);
    CvlanComesBack(o, l);
    TagComesBack(o, l);
  }

  /** What cfg_get reports, field by field. */
  lemma VidsReported(r: Request, g: Groups, a: Act, e: Env)
    requires r == Reported(g, a, e)
    ensures r.cvid == OrZero(TakesCvid(g.cv), e.cvlanVid(a.cvidx))
    ensures r.svid == OrZero(TakesSvid(g.sv), e.svlanVid(a.svidx))
  {
  }

  lemma CvlanMeterReported(r: Request, g: Groups, a: Act, e: Env)
    requires r == Reported(g, a, e)
    ensures r.policing1 == OrZero(g.cv == Some(Policing1), a.cvidx as bv32)
  {
  }

  lemma SvlanMeterReported(r: Request, g: Groups, a: Act, e: Env)
    requires r == Reported(g, a, e)
    ensures r.policing2 == OrZero(g.sv == Some(Policing2), a.svidx as bv32)
  {
  }

  lemma PriorityReported(r: Request, g: Groups, a: Act, e: Env)
    requires r == Reported(g, a, e)
    ensures r.policing3 == OrZero(g.pri == Some(Policing3), a.pridx as bv32)
    ensures r.priority == OrZero(TakesPriority(g.pri), a.pridx as bv32)
  {
  }

  lemma PortsReported(r: Request, g: Groups, a: Act, e: Env)
    requires r == Reported(g, a, e)
    ensures r.enabled == Members(g) && r.ports == OrZero(TakesPorts(g.fwd), e.toLogical(a.fwdPorts))
  {
  }

  lemma OthersReported(r: Request, g: Groups, a: Act, e: Env)
    requires r == Reported(g, a, e)
    ensures r.policing0 == OrZero(g.meter, a.meter as bv32) && r.pin == OrZero(g.gpo, a.pin as bv32)
  {
  }

  lemma GroupedBack(q: Request, e: Env)
    ensures AllGrouped(GroupsBack(q, e))
  {
    var c := Closed(OperandsOf(q, e), LastsAt(q.enabled, |ORDER|));
    GroupsAreGrouped(c.act, c.ctrl, e.cpuPorts);
  }

  lemma WinnerPassed(q: Request, e: Env, g: Group)
    requires g != OtherGroup && Accepted(q, e, |ORDER|) && Winner(q.enabled, g).Some?
    ensures Check(Winner(q.enabled, g).value, q, e) == Ok
  {
    LastIsLast(q.enabled, g, |ORDER|);
  }

  predicate Grouped(t: Option<ActType>, g: Group) { t.Some? ==> GroupOf(t.value) == g }

  predicate AllGrouped(g: Groups) {
    Grouped(g.fwd, FwdGroup) && Grouped(g.pri, PriGroup) && Grouped(g.sv, SvlanGroup)
    && Grouped(g.cv, CvlanGroup) && Grouped(g.tag, TagGroup)
  }

  lemma FwdIsGrouped(on: bool, ext: Word16, fwdact: Word16, ports: Word16, cpuPorts: Word16)
    ensures Grouped(GetFwd(on, ext, fwdact, ports, cpuPorts), FwdGroup)
  {
  }

  lemma RestIsGrouped(on: bool, ext: Word16, code: Word16)
    ensures Grouped(GetPri(on, code), PriGroup) && Grouped(GetSvlan(on, code), SvlanGroup)
    ensures Grouped(GetCvlan(on, ext, code), CvlanGroup) && Grouped(GetTag(on, ext, code), TagGroup)
  {
  }

  lemma GroupsAreGrouped(a: Act, c: Ctrl, cpuPorts: Word16)
    ensures AllGrouped(GroupsOf(a, c, cpuPorts))
  {
    FwdIsGrouped(c.fwd, a.fwdExt, a.fwdact, a.fwdPorts, cpuPorts);
    RestIsGrouped(c.priority, 0, a.priact);
    RestIsGrouped(c.svlan, 0, a.sact);
    RestIsGrouped(c.cvlan, a.cactExt, a.cact);
    RestIsGrouped(c.cvlan, a.cactExt, a.tagFmt);
  }

  function ActionIn(g: Groups, k: Group): Option<ActType>
    requires k != OtherGroup
  {
    match k
    case CvlanGroup => g.cv
    case SvlanGroup => g.sv
    case PriGroup => g.pri
    case FwdGroup => g.fwd
    case TagGroup => g.tag
  }

  /** The set reported is the disjoint union of the groups. */
  lemma MembersByGroup(g: Groups, t: ActType)
    requires AllGrouped(g) && GroupOf(t) != OtherGroup
    ensures t in Members(g) <==> ActionIn(g, GroupOf(t)) == Some(t)
  {
  }

  lemma OtherMembers(g: Groups)
    requires AllGrouped(g)
    ensures Policing0 in Members(g) <==> g.meter
    ensures Interrupt in Members(g) <==> g.intr
    ensures Gpo in Members(g) <==> g.gpo
  {
  }

  lemma InIsWinner(g: Groups, q: Request, k: Group)
    requires k != FwdGroup && k != OtherGroup
    requires g.cv == Winner(q.enabled, CvlanGroup) && g.sv == Winner(q.enabled, SvlanGroup)
    requires g.pri == Winner(q.enabled, PriGroup) && g.tag == Winner(q.enabled, TagGroup)
    ensures ActionIn(g, k) == Winner(q.enabled, k)
  {
  }

  /** In the VLAN, priority and tag groups cfg_get enables exactly the last enabled action. */
  lemma LastActionsComeBack(q: Request, e: Env, s: State, t: ActType)
    requires EnvOk(q, e) && Stored(q, e, s) && GroupOf(t) != FwdGroup && GroupOf(t) != OtherGroup
    ensures t in Returned(s, e).enabled <==> Winner(q.enabled, GroupOf(t)) == Some(t)
  {
    StoredIsClosed(q, e, s);
    PortsReported(Returned(s, e), GroupsBack(q, e), ActOf(q, e), e);
    GroupsComeBack(q, e);
    InIsWinner(GroupsBack(q, e), q, GroupOf(t));
    GroupedBack(q, e);
    MembersByGroup(GroupsBack(q, e), t);
  }

  /** The operand of a group's last action, as the closed form holds it. */
  lemma OperandWords(q: Request, e: Env)
    requires Coherent(LastsAt(q.enabled, |ORDER|))
    ensures var (a, o, cv, sv, pri) := (ActOf(q, e), OperandsOf(q, e), Winner(q.enabled, CvlanGroup),
                                        Winner(q.enabled, SvlanGroup), Winner(q.enabled, PriGroup));
      && (cv.Some? && !cv.value.CvlanSvid? ==> a.cvidx == CvlanOperand(cv.value, o))
      && (sv.Some? && !sv.value.SvlanCvid? ==> a.svidx == SvlanOperand(sv.value, o))
      && (pri.Some? ==> a.pridx == PriOperand(pri.value, o))
  {
  }

  lemma CvlanField(q: Request, e: Env, t: ActType)
    requires EnvOk(q, e) && Check(t, q, e) == Ok
    ensures TakesCvid(Some(t)) ==> e.cvlanVid(CvlanOperand(t, OperandsOf(q, e))) == q.cvid
    ensures t.Policing1? ==> CvlanOperand(t, OperandsOf(q, e)) as bv32 == q.policing1
  {
  }

  lemma SvlanField(q: Request, e: Env, t: ActType)
    requires EnvOk(q, e) && Check(t, q, e) == Ok
    ensures TakesSvid(Some(t)) ==> e.svlanVid(SvlanOperand(t, OperandsOf(q, e))) == q.svid
    ensures t.Policing2? ==> SvlanOperand(t, OperandsOf(q, e)) as bv32 == q.policing2
  {
  }

  /** The 7-bit word of a priority action still tells its operand. */
  predicate Carries(t: ActType, word: Word16, q: Request) {
    && (TakesPriority(Some(t)) ==> word as bv32 == q.priority)
    && (t.Policing3? ==> (word as bv32 == q.policing3 <==> q.policing3 < 0x80))
  }

  lemma SevenCarries(t: ActType, q: Request)
    ensures q.priority < 0x80 && !t.Policing3? ==> Carries(t, Seven(q.priority), q)
    ensures t.Policing3? ==> Carries(t, Seven(q.policing3), q)
  {
  }

  lemma PriorityFits(q: Request, e: Env, t: ActType)
    requires Check(t, q, e) == Ok
    ensures TakesPriority(Some(t)) ==> q.priority < 0x80
  {
  }

  lemma PriorityField(q: Request, e: Env, t: ActType)
    requires Check(t, q, e) == Ok && GroupOf(t) == PriGroup
    ensures Carries(t, PriOperand(t, OperandsOf(q, e)), q)
  {
    PriorityFits(q, e, t);
    SevenCarries(t, q);
  }

  lemma CvlanOperandsComeBack(q: Request, e: Env, s: State)
    requires EnvOk(q, e) && Stored(q, e, s)
    ensures Returned(s, e).cvid == OrZero(TakesCvid(Winner(q.enabled, CvlanGroup)), q.cvid)
    ensures Returned(s, e).policing1 == OrZero(Winner(q.enabled, CvlanGroup) == Some(Policing1), q.policing1)
  {
    StoredIsClosed(q, e, s);
    VidsReported(Returned(s, e), GroupsBack(q, e), ActOf(q, e), e);
    CvlanMeterReported(Returned(s, e), GroupsBack(q, e), ActOf(q, e), e);
    GroupsComeBack(q, e);
    OperandWords(q, e);
    if Winner(q.enabled, CvlanGroup).Some? {
      WinnerPassed(q, e, CvlanGroup);
      CvlanField(q, e, Winner(q.enabled, CvlanGroup).value);
    }
  }

  lemma SvlanOperandsComeBack(q: Request, e: Env, s: State)
    requires EnvOk(q, e) && Stored(q, e, s)
    ensures Returned(s, e).svid == OrZero(TakesSvid(Winner(q.enabled, SvlanGroup)), q.svid)
    ensures Returned(s, e).policing2 == OrZero(Winner(q.enabled, SvlanGroup) == Some(Policing2), q.policing2)
  {
    StoredIsClosed(q, e, s);
    VidsReported(Returned(s, e), GroupsBack(q, e), ActOf(q, e), e);
    SvlanMeterReported(Returned(s, e), GroupsBack(q, e), ActOf(q, e), e);
    GroupsComeBack(q, e);
    OperandWords(q, e);
    if Winner(q.enabled, SvlanGroup).Some? {
      WinnerPassed(q, e, SvlanGroup);
      SvlanField(q, e, Winner(q.enabled, SvlanGroup).value);
    }
  }

  /** The VLAN operands come back with their actions; operands of other actions are zero. */
  lemma VlanOperandsComeBack(q: Request, e: Env, s: State)
    requires EnvOk(q, e) && Stored(q, e, s)
    ensures Returned(s, e).cvid == OrZero(TakesCvid(Winner(q.enabled, CvlanGroup)), q.cvid)
    ensures Returned(s, e).policing1 == OrZero(Winner(q.enabled, CvlanGroup) == Some(Policing1), q.policing1)
    ensures Returned(s, e).svid == OrZero(TakesSvid(Winner(q.enabled, SvlanGroup)), q.svid)
    ensures Returned(s, e).policing2 == OrZero(Winner(q.enabled, SvlanGroup) == Some(Policing2), q.policing2)
  {
    CvlanOperandsComeBack(q, e, s);
    SvlanOperandsComeBack(q, e, s);
  }

  lemma WordCarries(q: Request, e: Env, t: ActType)
    requires Accepted(q, e, |ORDER|) && Coherent(LastsAt(q.enabled, |ORDER|)) && Winner(q.enabled, PriGroup) == Some(t)
    ensures Carries(t, ActOf(q, e).pridx, q)
  {
    OperandWords(q, e);
    WinnerPassed(q, e, PriGroup);
    PriorityField(q, e, t);
    assert ActOf(q, e).pridx == PriOperand(t, OperandsOf(q, e));
  }

  lemma CarriedIsReported(r: Request, g: Groups, a: Act, t: ActType, q: Request)
    requires r.policing3 == OrZero(g.pri == Some(Policing3), a.pridx as bv32)
    requires r.priority == OrZero(TakesPriority(g.pri), a.pridx as bv32) && g.pri == Some(t) && Carries(t, a.pridx, q)
    ensures TakesPriority(Some(t)) ==> r.priority == q.priority
    ensures t.Policing3? ==> (r.policing3 == q.policing3 <==> q.policing3 < 0x80)
  {
  }

  /**
  The priority comes back with its action. The meter of POLICING_3 does exactly when it fits
  its field: the range check looks at the priority instead.
  */
  lemma PriorityOperandComesBack(q: Request, e: Env, s: State, t: ActType)
    requires EnvOk(q, e) && Stored(q, e, s) && Winner(q.enabled, PriGroup) == Some(t)
    ensures TakesPriority(Some(t)) ==> Returned(s, e).priority == q.priority
    ensures t.Policing3? ==> (Returned(s, e).policing3 == q.policing3 <==> q.policing3 < 0x80)
    ensures !TakesPriority(Some(t)) ==> Returned(s, e).priority == 0
    ensures !t.Policing3? ==> Returned(s, e).policing3 == 0
  {
    StoredIsClosed(q, e, s);
    PriorityReported(Returned(s, e), GroupsBack(q, e), ActOf(q, e), e);
    GroupsComeBack(q, e);
    WordCarries(q, e, t);
    CarriedIsReported(Returned(s, e), GroupsBack(q, e), ActOf(q, e), t, q);
  }

  /** The port mask of a forwarding action that is shown with one. */
  lemma PortsField(q: Request, e: Env, t: ActType)
    requires EnvOk(q, e) && Check(t, q, e) == Ok
    requires TakesPorts(Some(FwdShown(t, OperandsOf(q, e).ports, e.cpuPorts)))
    ensures e.toLogical(PortsOperand(t, OperandsOf(q, e))) == if t.CopyCpu? then e.toLogical(e.cpuPorts) else q.ports
    ensures !t.TrapCpu?
  {
  }

  lemma ForwardGroup(q: Request, e: Env)
    requires Coherent(LastsAt(q.enabled, |ORDER|))
    ensures var (t, o) := (Winner(q.enabled, FwdGroup), OperandsOf(q, e));
      && GroupsBack(q, e).fwd == (if t.Some? then Some(FwdShown(t.value, o.ports, e.cpuPorts)) else None)
      && (t.Some? ==> GroupOf(t.value) == FwdGroup)
      && (t.Some? && !t.value.TrapCpu? ==> ActOf(q, e).fwdPorts == PortsOperand(t.value, o))
  {
    FwdComesBack(OperandsOf(q, e), LastsAt(q.enabled, |ORDER|));
  }

  /**
  The one forwarding action that comes back, if any was enabled: the last one, except that
  COPY_CPU shows as MIRROR, ADD_DSTPORT to just the CPU port as COPY_CPU, and REDIRECT to no
  port as DROP.
  */
  lemma ForwardShows(q: Request, e: Env, s: State, u: ActType)
    requires EnvOk(q, e) && Stored(q, e, s) && GroupOf(u) == FwdGroup
    ensures var t := Winner(q.enabled, FwdGroup);
      u in Returned(s, e).enabled <==> t.Some? && u == FwdShown(t.value, OperandsOf(q, e).ports, e.cpuPorts)
  {
    StoredIsClosed(q, e, s);
    PortsReported(Returned(s, e), GroupsBack(q, e), ActOf(q, e), e);
    ForwardGroup(q, e);
    GroupedBack(q, e);
    MembersByGroup(GroupsBack(q, e), u);
  }

  /** With it comes its port mask; that of COPY_CPU is the CPU port. */
  lemma ForwardPortsShow(q: Request, e: Env, s: State, t: ActType)
    requires EnvOk(q, e) && Stored(q, e, s) && Winner(q.enabled, FwdGroup) == Some(t)
    ensures Returned(s, e).ports == if !TakesPorts(Some(FwdShown(t, OperandsOf(q, e).ports, e.cpuPorts))) then 0
                                    else if t.CopyCpu? then e.toLogical(e.cpuPorts) else q.ports
  {
    StoredIsClosed(q, e, s);
    PortsReported(Returned(s, e), GroupsBack(q, e), ActOf(q, e), e);
    ForwardGroup(q, e);
    WinnerPassed(q, e, FwdGroup);
    if TakesPorts(GroupsBack(q, e).fwd) {
      PortsField(q, e, t);
    }
  }

  /**
  The last forwarding action comes back if and only if it is not COPY_CPU, not ADD_DSTPORT to
  just the CPU port and not REDIRECT to no port; then its port mask comes back too.
  */
  lemma ForwardComesBack(q: Request, e: Env, s: State)
    requires EnvOk(q, e) && Stored(q, e, s) && Winner(q.enabled, FwdGroup).Some?
    ensures var (t, r) := (Winner(q.enabled, FwdGroup), Returned(s, e));
      && (t.value in r.enabled <==> !FwdAmbiguous(t.value, OperandsOf(q, e).ports, e.cpuPorts))
      && (t.value in r.enabled && TakesPorts(t) ==> r.ports == q.ports)
  {
    var t := Winner(q.enabled, FwdGroup).value;
    LastIsLast(q.enabled, FwdGroup, |ORDER|);
    ForwardShows(q, e, s, t);
    ForwardPortsShow(q, e, s, t);
  }

  lemma OtherTurns(i: nat)
    requires i < |ORDER|
    ensures (i == 8 <==> ORDER[i] == Policing0) && (i == 20 <==> ORDER[i] == Interrupt)
    ensures i == 21 <==> ORDER[i] == Gpo
  {
  }

  lemma NextFlags(l: Lasts, t: ActType)
    ensures var n := Next(l, t);
      && (n.meter <==> l.meter || t.Policing0?) && (n.intr <==> l.intr || t.Interrupt?) && (n.gpo <==> l.gpo || t.Gpo?)
  {
  }

  lemma {:induction false} Flags(enabled: set<ActType>, i: nat)
    requires i <= |ORDER|
    ensures var l := LastsAt(enabled, i);
      && (l.meter <==> i > 8 && Policing0 in enabled) && (l.intr <==> i > 20 && Interrupt in enabled)
      && (l.gpo <==> i > 21 && Gpo in enabled)
  {
    if i == 0 {
    } else {
      Flags(enabled, i - 1);
      OtherTurns(i - 1);
      NextFlags(LastsAt(enabled, i - 1), ORDER[i - 1]);
    }
  }

  lemma OtherGroups(q: Request, e: Env)
    ensures var (g, a) := (GroupsBack(q, e), ActOf(q, e));
      && (g.meter <==> Policing0 in q.enabled) && (g.intr <==> Interrupt in q.enabled) && (g.gpo <==> Gpo in q.enabled)
      && (g.meter ==> a.meter == Seven(q.policing0)) && (g.gpo ==> a.pin == Four(q.pin))
  {
    Flags(q.enabled, |ORDER|);
  }

  lemma MeterPassed(q: Request, e: Env)
    requires Accepted(q, e, |ORDER|) && Policing0 in q.enabled
    ensures q.policing0 < e.meterLimit
  {
    assert ORDER[8] == Policing0;
    assert Check(ORDER[8], q, e) == Ok;
  }

  /** The meter index fits its field. */
  lemma MeterField(q: Request, e: Env)
    requires EnvOk(q, e) && q.policing0 < e.meterLimit
    ensures Seven(q.policing0) as bv32 == q.policing0
  {
  }

  lemma PinField(q: Request)
    ensures Four(q.pin) as bv32 == q.pin <==> q.pin < 16
  {
  }

  /** The independent actions come back. */
  lemma OthersComeBack(q: Request, e: Env, s: State)
    requires EnvOk(q, e) && Stored(q, e, s)
    ensures Policing0 in Returned(s, e).enabled <==> Policing0 in q.enabled
    ensures Interrupt in Returned(s, e).enabled <==> Interrupt in q.enabled
    ensures Gpo in Returned(s, e).enabled <==> Gpo in q.enabled
  {
    StoredIsClosed(q, e, s);
    PortsReported(Returned(s, e), GroupsBack(q, e), ActOf(q, e), e);
    OtherGroups(q, e);
    GroupedBack(q, e);
    OtherMembers(GroupsBack(q, e));
  }

  /** So do their operands; the GPO pin does exactly when it fits four bits. */
  lemma OtherOperandsComeBack(q: Request, e: Env, s: State)
    requires EnvOk(q, e) && Stored(q, e, s)
    ensures Returned(s, e).policing0 == OrZero(Policing0 in q.enabled, q.policing0)
    ensures Gpo !in q.enabled ==> Returned(s, e).pin == 0
    ensures Gpo in q.enabled ==> (Returned(s, e).pin == q.pin <==> q.pin < 16)
  {
    StoredIsClosed(q, e, s);
    OthersReported(Returned(s, e), GroupsBack(q, e), ActOf(q, e), e);
    OtherGroups(q, e);
    if Policing0 in q.enabled {
      MeterPassed(q, e);
      MeterField(q, e);
    }
    PinField(q);
  }

  /** The extension says both exactly when some VLAN and some tag action are enabled. */
  lemma ExtensionMeans(q: Request, e: Env, s: State)
    requires Stored(q, e, s)
    ensures s.act.cactExt == BOTH_VLAN_TAG <==>
              (exists t :: t in q.enabled && GroupOf(t) == CvlanGroup)
              && (exists t :: t in q.enabled && GroupOf(t) == TagGroup)
  {
    FoldCloses(q, e, |ORDER|);
    GroupEmpty(q.enabled, CvlanGroup);
    GroupEmpty(q.enabled, TagGroup);
  }

  lemma VlanAndTagTurns(t: ActType)
    requires GroupOf(t) == CvlanGroup || GroupOf(t) == TagGroup
    ensures exists i :: 0 <= i < |ORDER| && ORDER[i] == t
  {
    if GroupOf(t) == CvlanGroup {
      assert ORDER[0] == CvlanIngress && ORDER[1] == CvlanEgress && ORDER[2] == CvlanSvid && ORDER[3] == Policing1;
    } else {
      assert ORDER[22] == TagUntag && ORDER[23] == TagTag && ORDER[24] == TagKeep && ORDER[25] == TagKeepRemark;
    }
  }

  lemma GroupEmpty(enabled: set<ActType>, g: Group)
    requires g == CvlanGroup || g == TagGroup
    ensures LastIn(LastsAt(enabled, |ORDER|), g).Some? <==> exists t :: t in enabled && GroupOf(t) == g
  {
    LastIsLast(enabled, g, |ORDER|);
    if t :| t in enabled && GroupOf(t) == g {
      VlanAndTagTurns(t);
    }
  }
}
