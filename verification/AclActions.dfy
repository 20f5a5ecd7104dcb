/**
The action half of a filter (acl.c): cfg_add folds the enabled actions, in their fixed order,
into one hardware action and six control bits; cfg_get decodes them. The last enabled action
of each group wins, and the theorems say which requests come back as they went in.
*/
module AclActions {
  import opened Prelude
  import opened AclFields
  import opened AclDriver

  /** rtk_filter_act_enable_t */
  datatype ActType =
    | CvlanIngress | CvlanEgress | CvlanSvid | Policing1
    | SvlanIngress | SvlanEgress | SvlanCvid | Policing2
    | Policing0
    | CopyCpu | Drop | AddDstport | Redirect | Mirror | TrapCpu | Isolation
    | Priority | DscpRemark | PriRemark | Policing3
    | Interrupt | Gpo
    | TagUntag | TagTag | TagKeep | TagKeepRemark

  /** Actions that share the bit fields they set. */
  datatype Group = CvlanGroup | SvlanGroup | PriGroup | FwdGroup | TagGroup | OtherGroup

  function GroupOf(t: ActType): Group {
    match t
    case CvlanIngress | CvlanEgress | CvlanSvid | Policing1 => CvlanGroup
    case SvlanIngress | SvlanEgress | SvlanCvid | Policing2 => SvlanGroup
    case CopyCpu | Drop | AddDstport | Redirect | Mirror | TrapCpu | Isolation => FwdGroup
    case Priority | DscpRemark | PriRemark | Policing3 => PriGroup
    case TagUntag | TagTag | TagKeep | TagKeepRemark => TagGroup
    case Policing0 | Interrupt | Gpo => OtherGroup
  }

  /** The order of the action loop. */
  const ORDER: seq<ActType> := [
    CvlanIngress, CvlanEgress, CvlanSvid, Policing1, SvlanIngress, SvlanEgress, SvlanCvid, Policing2,
    Policing0, CopyCpu, Drop, AddDstport, Redirect, Mirror, TrapCpu, Isolation,
    Priority, DscpRemark, PriRemark, Policing3, Interrupt, Gpo, TagUntag, TagTag, TagKeep, TagKeepRemark]

  /** rtk_filter_action_t; `policing` are the four meter indices. */
  datatype Request = Request(
    enabled: set<ActType>, cvid: bv32, svid: bv32,
    policing0: bv32, policing1: bv32, policing2: bv32, policing3: bv32,
    ports: bv32, priority: bv32, pin: bv32)

  /** The VLAN tables, the port map and the meters the code consults. */
  datatype Env = Env(
    cvlanIdx: bv32 -> Option<Word16>, cvlanVid: Word16 -> bv32,
    svlanIdx: bv32 -> Option<Word16>, svlanVid: Word16 -> bv32,
    toPhysical: bv32 -> Option<Word16>, toLogical: Word16 -> bv32,
    meterLimit: bv32, cpuPorts: Word16)

  /**
  What the request needs of its surroundings: the look-ups of its own operands can be undone,
  and indices and port masks fit their bit fields.
  */
  predicate EnvOk(q: Request, e: Env) {
    && (var i := e.cvlanIdx(q.cvid); i.Some? ==> i.value < 0x80 && e.cvlanVid(i.value) == q.cvid)
    && (var i := e.svlanIdx(q.svid); i.Some? ==> i.value < 0x80 && e.svlanVid(i.value) == q.svid)
    && (var m := e.toPhysical(q.ports); m.Some? ==> m.value < 0x800 && e.toLogical(m.value) == q.ports)
    && e.meterLimit <= 0x80 && e.cpuPorts < 0x800
  }

  /** The six action control bits. */
  datatype Ctrl = Ctrl(cvlan: bool, svlan: bool, priority: bool, policing: bool, fwd: bool, intGpio: bool)

  const NO_CTRL := Ctrl(false, false, false, false, false, false)

  datatype State = State(act: Act, ctrl: Ctrl)

  datatype CfgStatus = Ok | EntryIndex | InputError | PortMask | VlanTable | TableFull

  datatype Outcome = Done(state: State) | Failed(why: CfgStatus)

  const VLAN_ONLY: Word16 := 0
  const BOTH_VLAN_TAG: Word16 := 1
  const TAG_ONLY: Word16 := 2

  /** A value cut to a 7-bit or 4-bit field. */
  function Seven(x: bv32): (w: Word16)
    ensures w < 0x80 && (x < 0x80 <==> w as bv32 == x)
  {
    Low(x) & 0x7F
  }

  function Four(x: bv32): (w: Word16)
    ensures w < 0x10 && (x < 0x10 <==> w as bv32 == x)
  {
    Low(x) & 0xF
  }

  function CvlanCode(t: ActType): Word16 {
    if t.CvlanIngress? then 0 else if t.CvlanEgress? then 1 else if t.CvlanSvid? then 2 else 3
  }

  function SvlanCode(t: ActType): Word16 {
    if t.SvlanIngress? then 0 else if t.SvlanEgress? then 1 else if t.SvlanCvid? then 2 else 3
  }

  function PriCode(t: ActType): Word16 {
    if t.Priority? then 0 else if t.DscpRemark? then 1 else if t.PriRemark? then 2 else 3
  }

  function TagCode(t: ActType): Word16 {
    if t.TagUntag? then 0 else if t.TagTag? then 1 else if t.TagKeep? then 2 else 3
  }

  function FailIf(bad: bool, why: CfgStatus): (r: CfgStatus)
    ensures r == Ok || r == why
  {
    if bad then why else Ok
  }

  /** The checks of one case of the action switch. */
  function Check(t: ActType, q: Request, e: Env): CfgStatus {
    if t.CvlanIngress? || t.CvlanEgress? then
      if q.cvid > 0x1FFF then InputError else FailIf(e.cvlanIdx(q.cvid).None?, VlanTable)
    else if t.SvlanIngress? || t.SvlanEgress? then FailIf(e.svlanIdx(q.svid).None?, VlanTable)
    else if t.Policing0? then FailIf(q.policing0 >= e.meterLimit, InputError)
    else if t.Policing1? then FailIf(q.policing1 >= e.meterLimit, InputError)
    else if t.Policing2? then FailIf(q.policing2 >= e.meterLimit, InputError)
    else if t.Policing3? then FailIf(q.priority >= e.meterLimit, InputError)  // not policing3
    else if t.Priority? || t.PriRemark? then FailIf(q.priority > 7, InputError)
    else if t.DscpRemark? then FailIf(q.priority > 63, InputError)
    else if t.AddDstport? || t.Redirect? || t.Mirror? || t.Isolation? then
      FailIf(e.toPhysical(q.ports).None?, PortMask)
    else Ok
  }

  function Get<T>(o: Option<T>, default: T): T { if o.Some? then o.value else default }

  /** The operands, as the hardware fields take them. */
  datatype Operands = Operands(
    cvidx: Word16, svidx: Word16, meter0: Word16, meter1: Word16, meter2: Word16, meter3: Word16,
    ports: Word16, cpuPorts: Word16, priority: Word16, pin: Word16)

  function OperandsOf(q: Request, e: Env): Operands {
    Operands(Get(e.cvlanIdx(q.cvid), 0), Get(e.svlanIdx(q.svid), 0),
             Seven(q.policing0), Seven(q.policing1), Seven(q.policing2), Seven(q.policing3),
             Get(e.toPhysical(q.ports), 0), e.cpuPorts, Seven(q.priority), Four(q.pin))
  }

  function CvlanOperand(t: ActType, o: Operands): Word16 { if t.Policing1? then o.meter1 else o.cvidx }

  function SvlanOperand(t: ActType, o: Operands): Word16 { if t.Policing2? then o.meter2 else o.svidx }

  function PriOperand(t: ActType, o: Operands): Word16 { if t.Policing3? then o.meter3 else o.priority }

  function PortsOperand(t: ActType, o: Operands): Word16 {
    if t.Drop? then 0 else if t.CopyCpu? then o.cpuPorts else o.ports
  }

  /** FILTER_ENACT_FWD_TYPE; COPY_CPU borrows the code of MIRROR, DROP that of REDIRECT. */
  function FwdCode(t: ActType): Word16 {
    if t.AddDstport? then 0 else if t.Redirect? || t.Drop? then 1 else if t.TrapCpu? then 3 else 2
  }

  /** The code of an action is its place in the enumeration, counted from the first of its group. */
  lemma CodesAreOffsets(t: ActType)
    ensures GroupOf(t) == CvlanGroup ==> ORDER[0 + CvlanCode(t) as nat] == t
    ensures GroupOf(t) == SvlanGroup ==> ORDER[4 + SvlanCode(t) as nat] == t
    ensures GroupOf(t) == PriGroup ==> ORDER[16 + PriCode(t) as nat] == t
    ensures GroupOf(t) == TagGroup ==> ORDER[22 + TagCode(t) as nat] == t
    ensures t.AddDstport? || t.Redirect? || t.Mirror? || t.TrapCpu? ==> ORDER[11 + FwdCode(t) as nat] == t
    ensures FwdCode(CopyCpu) == FwdCode(Mirror) && FwdCode(Drop) == FwdCode(Redirect)
  {
  }

  /** A VLAN action next to what the control bits say is there already. */
  function WithCvlan(s: State, t: ActType, o: Operands): State {
    var ext := if s.ctrl.cvlan then (if s.act.cactExt == TAG_ONLY then BOTH_VLAN_TAG else s.act.cactExt) else VLAN_ONLY;
    var cvidx := if t.CvlanSvid? then s.act.cvidx else CvlanOperand(t, o);
    State(s.act.(cact := CvlanCode(t), cvidx := cvidx, cactExt := ext), s.ctrl.(cvlan := true))
  }

  /** A tag action next to what the control bits say is there already. */
  function WithTag(s: State, t: ActType): State {
    var ext := if s.ctrl.cvlan then (if s.act.cactExt == VLAN_ONLY then BOTH_VLAN_TAG else s.act.cactExt) else TAG_ONLY;
    State(s.act.(tagFmt := TagCode(t), cactExt := ext), s.ctrl.(cvlan := true))
  }

  function WithSvlan(s: State, t: ActType, o: Operands): State {
    var svidx := if t.SvlanCvid? then s.act.svidx else SvlanOperand(t, o);
    State(s.act.(sact := SvlanCode(t), svidx := svidx), s.ctrl.(svlan := true))
  }

  function WithPri(s: State, t: ActType, o: Operands): State {
    State(s.act.(priact := PriCode(t), pridx := PriOperand(t, o)), s.ctrl.(priority := true))
  }

  function WithIsolation(s: State, o: Operands): State {
    State(s.act.(fwdExt := 1, fwdPorts := o.ports), s.ctrl.(fwd := true))
  }

  /** MIRROR clears the CVLAN extension where its neighbours clear the forwarding extension. */
  function WithMirror(s: State, o: Operands): State {
    State(s.act.(fwdact := 2, cactExt := VLAN_ONLY, fwdPorts := o.ports), s.ctrl.(fwd := true))
  }

  function WithTrap(s: State): State {
    State(s.act.(fwdact := 3, fwdExt := 0), s.ctrl.(fwd := true))
  }

  function WithPorts(s: State, t: ActType, o: Operands): State {
    State(s.act.(fwdact := FwdCode(t), fwdExt := 0, fwdPorts := PortsOperand(t, o)), s.ctrl.(fwd := true))
  }

  function WithFwd(s: State, t: ActType, o: Operands): State {
    if t.Isolation? then WithIsolation(s, o)
    else if t.Mirror? then WithMirror(s, o)
    else if t.TrapCpu? then WithTrap(s)
    else WithPorts(s, t, o)
  }

  function WithMeter(s: State, o: Operands): State {
    State(s.act.(meter := o.meter0), s.ctrl.(policing := true))
  }

  function WithInterrupt(s: State): State {
    State(s.act.(intr := 1), s.ctrl.(intGpio := true))
  }

  function WithGpo(s: State, o: Operands): State {
    State(s.act.(gpio := 1, pin := o.pin), s.ctrl.(intGpio := true))
  }

  function WithOther(s: State, t: ActType, o: Operands): State {
    if t.Policing0? then WithMeter(s, o) else if t.Interrupt? then WithInterrupt(s) else WithGpo(s, o)
  }

  /** The assignments of one case of the action switch. */
  function Apply(s: State, t: ActType, o: Operands): State {
    match GroupOf(t)
    case CvlanGroup => WithCvlan(s, t, o)
    case SvlanGroup => WithSvlan(s, t, o)
    case PriGroup => WithPri(s, t, o)
    case FwdGroup => WithFwd(s, t, o)
    case TagGroup => WithTag(s, t)
    case OtherGroup => WithOther(s, t, o)
  }

  /** One round of the action loop; the first failing check ends it. */
  function Round(before: Outcome, t: ActType, q: Request, e: Env): Outcome {
    if before.Failed? || t !in q.enabled then before
    else if Check(t, q, e) != Ok then Failed(Check(t, q, e))
    else Done(Apply(before.state, t, OperandsOf(q, e)))
  }

  function Fold(q: Request, e: Env, i: nat): Outcome
    requires i <= |ORDER|
  {
    if i == 0 then Done(State(NO_ACT, NO_CTRL)) else Round(Fold(q, e, i - 1), ORDER[i - 1], q, e)
  }

  // ---------------------------------------------------------------- the last action of each group

  /** The last enabled action of every group, and the last that wrote each operand. */
  datatype Lasts = Lasts(
    cv: Option<ActType>, cvOperand: Option<ActType>, sv: Option<ActType>, svOperand: Option<ActType>,
    pri: Option<ActType>, fwd: Option<ActType>, fwdCode: Option<ActType>, fwdPorts: Option<ActType>,
    tag: Option<ActType>, meter: bool, intr: bool, gpo: bool)

  const NO_LASTS := Lasts(None, None, None, None, None, None, None, None, None, false, false, false)

  function NextCvlan(l: Lasts, t: ActType): Lasts {
    l.(cv := Some(t), cvOperand := if t.CvlanSvid? then l.cvOperand else Some(t))
  }

  function NextSvlan(l: Lasts, t: ActType): Lasts {
    l.(sv := Some(t), svOperand := if t.SvlanCvid? then l.svOperand else Some(t))
  }

  function NextFwd(l: Lasts, t: ActType): Lasts {
    l.(fwd := Some(t), fwdCode := if t.Isolation? then l.fwdCode else Some(t),
       fwdPorts := if t.TrapCpu? then l.fwdPorts else Some(t))
  }

  function NextOther(l: Lasts, t: ActType): Lasts {
    if t.Policing0? then l.(meter := true) else if t.Interrupt? then l.(intr := true) else l.(gpo := true)
  }

  function Next(l: Lasts, t: ActType): Lasts {
    match GroupOf(t)
    case CvlanGroup => NextCvlan(l, t)
    case SvlanGroup => NextSvlan(l, t)
    case PriGroup => l.(pri := Some(t))
    case FwdGroup => NextFwd(l, t)
    case TagGroup => l.(tag := Some(t))
    case OtherGroup => NextOther(l, t)
  }

  /** The enabled types among the first `i`, in order. */
  function LastsAt(enabled: set<ActType>, i: nat): Lasts
    requires i <= |ORDER|
  {
    if i == 0 then NO_LASTS
    else
      var l := LastsAt(enabled, i - 1);
      if ORDER[i - 1] in enabled then Next(l, ORDER[i - 1]) else l
  }

  function CvIdx(t: Option<ActType>, o: Operands): Word16 { if t.Some? then CvlanOperand(t.value, o) else 0 }
  function CvCode(t: Option<ActType>): Word16 { if t.Some? then CvlanCode(t.value) else 0 }
  function SvIdx(t: Option<ActType>, o: Operands): Word16 { if t.Some? then SvlanOperand(t.value, o) else 0 }
  function SvCode(t: Option<ActType>): Word16 { if t.Some? then SvlanCode(t.value) else 0 }
  function PriIdx(t: Option<ActType>, o: Operands): Word16 { if t.Some? then PriOperand(t.value, o) else 0 }
  function PriKind(t: Option<ActType>): Word16 { if t.Some? then PriCode(t.value) else 0 }
  function FwdPorts(t: Option<ActType>, o: Operands): Word16 { if t.Some? then PortsOperand(t.value, o) else 0 }
  function FwdKind(t: Option<ActType>): Word16 { if t.Some? then FwdCode(t.value) else 0 }
  function TagKind(t: Option<ActType>): Word16 { if t.Some? then TagCode(t.value) else 0 }
  function Bit(b: bool): Word16 { if b then 1 else 0 }
  function IfSet(b: bool, w: Word16): Word16 { if b then w else 0 }

  function Extension(cv: Option<ActType>, tag: Option<ActType>): Word16 {
    if tag.None? then VLAN_ONLY else if cv.Some? then BOTH_VLAN_TAG else TAG_ONLY
  }

  /** The hardware action and control bits that the last actions call for. */
  function Closed(o: Operands, l: Lasts): State {
    State(
      Act(CvIdx(l.cvOperand, o), CvCode(l.cv), SvIdx(l.svOperand, o), SvCode(l.sv), IfSet(l.meter, o.meter0),
          FwdPorts(l.fwdPorts, o), FwdKind(l.fwdCode), PriIdx(l.pri, o), PriKind(l.pri),
          IfSet(l.gpo, o.pin), Bit(l.gpo), Bit(l.intr),
          Extension(l.cv, l.tag), Bit(l.fwd == Some(Isolation)), TagKind(l.tag)),
      Ctrl(l.cv.Some? || l.tag.Some?, l.sv.Some?, l.pri.Some?, l.meter, l.fwd.Some?, l.intr || l.gpo))
  }

  lemma CvlanCloses(o: Operands, l: Lasts, t: ActType)
    requires l.tag.None?
    ensures WithCvlan(Closed(o, l), t, o) == Closed(o, NextCvlan(l, t))
  {
  }

  lemma SvlanCloses(o: Operands, l: Lasts, t: ActType)
    ensures WithSvlan(Closed(o, l), t, o) == Closed(o, NextSvlan(l, t))
  {
  }

  lemma PriCloses(o: Operands, l: Lasts, t: ActType)
    ensures WithPri(Closed(o, l), t, o) == Closed(o, l.(pri := Some(t)))
  {
  }

  lemma MirrorCloses(o: Operands, l: Lasts)
    requires l.tag.None? && l.fwd != Some(Isolation)
    ensures WithMirror(Closed(o, l), o) == Closed(o, NextFwd(l, Mirror))
  {
  }

  lemma PortsClose(o: Operands, l: Lasts, t: ActType)
    requires !t.Mirror? && !t.TrapCpu? && !t.Isolation?
    ensures WithPorts(Closed(o, l), t, o) == Closed(o, NextFwd(l, t))
  {
  }

  lemma FwdCloses(o: Operands, l: Lasts, t: ActType)
    requires t.Mirror? ==> l.tag.None? && l.fwd != Some(Isolation)
    ensures WithFwd(Closed(o, l), t, o) == Closed(o, NextFwd(l, t))
  {
    if t.Mirror? {
      MirrorCloses(o, l);
    } else if !t.TrapCpu? && !t.Isolation? {
      PortsClose(o, l, t);
    }
  }

  lemma TagCloses(o: Operands, l: Lasts, t: ActType)
    ensures WithTag(Closed(o, l), t) == Closed(o, l.(tag := Some(t)))
  {
  }

  lemma MeterCloses(o: Operands, l: Lasts)
    ensures WithMeter(Closed(o, l), o) == Closed(o, l.(meter := true))
  {
  }

  lemma InterruptCloses(o: Operands, l: Lasts)
    ensures WithInterrupt(Closed(o, l)) == Closed(o, l.(intr := true))
  {
  }

  lemma GpoCloses(o: Operands, l: Lasts)
    ensures WithGpo(Closed(o, l), o) == Closed(o, l.(gpo := true))
  {
  }

  lemma OtherCloses(o: Operands, l: Lasts, t: ActType)
    ensures WithOther(Closed(o, l), t, o) == Closed(o, NextOther(l, t))
  {
    if t.Policing0? {
      MeterCloses(o, l);
    } else if t.Interrupt? {
      InterruptCloses(o, l);
    } else {
      GpoCloses(o, l);
    }
  }

  /** One more action on the closed form is the closed form of one more action. */
  lemma StepCloses(o: Operands, l: Lasts, t: ActType)
    requires GroupOf(t) == CvlanGroup || t.Mirror? ==> l.tag.None?
    requires t.Mirror? ==> l.fwd != Some(Isolation)
    ensures Apply(Closed(o, l), t, o) == Closed(o, Next(l, t))
  {
    match GroupOf(t)
    case CvlanGroup => CvlanCloses(o, l, t);
    case SvlanGroup => SvlanCloses(o, l, t);
    case PriGroup => PriCloses(o, l, t);
    case FwdGroup => FwdCloses(o, l, t);
    case TagGroup => TagCloses(o, l, t);
    case OtherGroup => OtherCloses(o, l, t);
  }

  lemma Turns(i: nat)
    requires i < |ORDER|
    ensures i >= 22 <==> GroupOf(ORDER[i]) == TagGroup
    ensures i <= 13 <== GroupOf(ORDER[i]) == CvlanGroup || ORDER[i] == Mirror
    ensures i == 15 <== ORDER[i] == Isolation
  {
  }

  lemma NextKeeps(l: Lasts, t: ActType)
    ensures GroupOf(t) != TagGroup ==> Next(l, t).tag == l.tag
    ensures Next(l, t).fwd == l.fwd || Next(l, t).fwd == Some(t)
  {
  }

  /** Tag actions come last and isolation after mirroring, so no later action overwrites their bits. */
  lemma {:induction false} NoTagYet(enabled: set<ActType>, i: nat)
    requires i < |ORDER|
    ensures i <= 22 ==> LastsAt(enabled, i).tag.None?
    ensures i <= 15 ==> LastsAt(enabled, i).fwd != Some(Isolation)
  {
    if i == 0 {
    } else {
      NoTagYet(enabled, i - 1);
      Turns(i - 1);
      NextKeeps(LastsAt(enabled, i - 1), ORDER[i - 1]);
    }
  }

  predicate Accepted(q: Request, e: Env, i: nat)
    requires i <= |ORDER|
  {
    forall j :: 0 <= j < i && ORDER[j] in q.enabled ==> Check(ORDER[j], q, e) == Ok
  }

  /** Every type has its turn in the action loop. */
  lemma TurnOf(t: ActType) returns (i: nat)
    ensures i < |ORDER| && ORDER[i] == t
  {
    match GroupOf(t)
    case CvlanGroup => i := TurnAmong(t, 0);
    case SvlanGroup => i := TurnAmong(t, 4);
    case FwdGroup => i := if t.CopyCpu? then 9 else if t.Drop? then 10 else if t.AddDstport? then 11
                          else if t.Redirect? then 12 else if t.Mirror? then 13 else if t.TrapCpu? then 14 else 15;
    case PriGroup => i := TurnAmong(t, 16);
    case TagGroup => i := TurnAmong(t, 22);
    case OtherGroup => i := if t.Policing0? then 8 else if t.Interrupt? then 20 else 21;
  }

  lemma TurnAmong(t: ActType, from: nat) returns (i: nat)
    requires (from, GroupOf(t)) in [(0, CvlanGroup), (4, SvlanGroup), (16, PriGroup), (22, TagGroup)]
    ensures i < |ORDER| && ORDER[i] == t
  {
    i := if ORDER[from] == t then from else if ORDER[from + 1] == t then from + 1
         else if ORDER[from + 2] == t then from + 2 else from + 3;
  }

  /** What an action asks of the request; most ask nothing. */
  predicate Passes(t: ActType, q: Request, e: Env) {
    match t
    case CvlanIngress | CvlanEgress => q.cvid <= 0x1FFF && e.cvlanIdx(q.cvid).Some?
    case SvlanIngress | SvlanEgress => e.svlanIdx(q.svid).Some?
    case Policing0 => q.policing0 < e.meterLimit
    case Policing1 => q.policing1 < e.meterLimit
    case Policing2 => q.policing2 < e.meterLimit
    case Policing3 => q.priority < e.meterLimit
    case Priority | PriRemark => q.priority <= 7
    case DscpRemark => q.priority <= 63
    case AddDstport | Redirect | Mirror | Isolation => e.toPhysical(q.ports).Some?
    case CvlanSvid | SvlanCvid | CopyCpu | Drop | TrapCpu | Interrupt | Gpo => true
    case TagUntag | TagTag | TagKeep | TagKeepRemark => true
  }

  lemma CheckExact(t: ActType, q: Request, e: Env)
    ensures Check(t, q, e) == Ok <==> Passes(t, q, e)
  {
    if GroupOf(t) == PriGroup {
      PriCheckExact(t, q, e);
    } else if t.Policing0? || t.Policing1? || t.Policing2? {
      MeterCheckExact(t, q, e);
    }
  }

  lemma PriCheckExact(t: ActType, q: Request, e: Env)
    requires GroupOf(t) == PriGroup
    ensures Check(t, q, e) == Ok <==> Passes(t, q, e)
  {
  }

  lemma MeterCheckExact(t: ActType, q: Request, e: Env)
    requires t.Policing0? || t.Policing1? || t.Policing2?
    ensures Check(t, q, e) == Ok <==> Passes(t, q, e)
  {
  }

  /** The requests that the action loop takes are those that give every enabled action what it asks. */
  lemma AcceptedExact(q: Request, e: Env)
    ensures Accepted(q, e, |ORDER|) <==> forall t :: t in q.enabled ==> Passes(t, q, e)
  {
    forall t | t in q.enabled
      ensures exists i :: 0 <= i < |ORDER| && ORDER[i] == t
      ensures Check(t, q, e) == Ok <==> Passes(t, q, e)
    {
      var i := TurnOf(t);
      CheckExact(t, q, e);
    }
  }

  lemma ClosedStep(o: Operands, enabled: set<ActType>, i: nat)
    requires i < |ORDER|
    ensures var l := LastsAt(enabled, i); Apply(Closed(o, l), ORDER[i], o) == Closed(o, Next(l, ORDER[i]))
  {
    NoTagYet(enabled, i);
    Turns(i);
    StepCloses(o, LastsAt(enabled, i), ORDER[i]);
  }

  lemma AcceptedStep(q: Request, e: Env, i: nat)
    requires i < |ORDER|
    ensures Accepted(q, e, i + 1) <==> Accepted(q, e, i) && (ORDER[i] in q.enabled ==> Check(ORDER[i], q, e) == Ok)
  {
  }

  lemma RoundCloses(q: Request, e: Env, t: ActType, before: Outcome, o: Operands, l: Lasts)
    requires o == OperandsOf(q, e)
    requires before.Done? ==> before.state == Closed(o, l) && Apply(before.state, t, o) == Closed(o, Next(l, t))
    ensures before.Failed? || (t in q.enabled && Check(t, q, e) != Ok) ==> Round(before, t, q, e).Failed?
    ensures before.Done? && (t in q.enabled ==> Check(t, q, e) == Ok) ==>
              Round(before, t, q, e) == Done(Closed(o, if t in q.enabled then Next(l, t) else l))
  {
  }

  /** The loop accepts exactly the requests whose enabled actions pass their checks, and ends in the closed form. */
  lemma {:induction false} FoldCloses(q: Request, e: Env, i: nat)
    requires i <= |ORDER|
    ensures Accepted(q, e, i) ==> Fold(q, e, i) == Done(Closed(OperandsOf(q, e), LastsAt(q.enabled, i)))
    ensures !Accepted(q, e, i) ==> Fold(q, e, i).Failed?
  {
    if i == 0 {
    } else {
      FoldCloses(q, e, i - 1);
      AcceptedStep(q, e, i - 1);
      ClosedStep(OperandsOf(q, e), q.enabled, i - 1);
      RoundCloses(q, e, ORDER[i - 1], Fold(q, e, i - 1), OperandsOf(q, e), LastsAt(q.enabled, i - 1));
    }
  }

  lemma {:induction false} StaysFailed(q: Request, e: Env, i: nat, j: nat)
    requires i <= j <= |ORDER| && Fold(q, e, i).Failed?
    ensures Fold(q, e, j) == Fold(q, e, i)
  {
    if i == j {
    } else {
      StaysFailed(q, e, i, j - 1);
    }
  }

  /** One case of the action switch, if the action is enabled. */
  method MergeOne(s: State, t: ActType, q: Request, e: Env) returns (out: Outcome)
    ensures out == Round(Done(s), t, q, e)
  {
    if t !in q.enabled { return Done(s); }
    var why := Check(t, q, e);
    if why != Ok { return Failed(why); }
    return Done(Apply(s, t, OperandsOf(q, e)));
  }

  /** The action loop of cfg_add. */
  method MergeActions(q: Request, e: Env) returns (out: Outcome)
    ensures out == Fold(q, e, |ORDER|)
    ensures out.Done? <==> Accepted(q, e, |ORDER|)
    ensures out.Done? ==> out.state == Closed(OperandsOf(q, e), LastsAt(q.enabled, |ORDER|))
  {
    FoldCloses(q, e, |ORDER|);
    out := Done(State(NO_ACT, NO_CTRL));
    for i := 0 to |ORDER|
      invariant out.Done? && Fold(q, e, i) == out
    {
      out := MergeOne(out.state, ORDER[i], q, e);
      if out.Failed? {
        StaysFailed(q, e, i + 1, |ORDER|);
        return;
      }
    }
  }
}
