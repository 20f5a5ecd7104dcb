/**
cfg_add and cfg_get on the rule table (acl.c). A filter becomes up to five consecutive slots;
an error leaves the table as it was.
*/
module AclConfig {
  import opened Prelude
  import opened AclFields
  import opened AclDriver
  import opened AclActions
  import opened AclDecode
  import AclList

  const RULE_MAX := 95
  const TAG_WORD := 7

  /** The type field of each template. */
  const KINDS: seq<Word16> := [0, 1, 2, 3, 4]

  /**
  The part of rtk_filter_cfg_t beside the field list. `tags` are the five packet-type flags of
  the tag indicator and `advanced` the sixteen others, each as value and mask bits.
  */
  datatype Criteria = Criteria(tags: Cell, advanced: Cell, active: Bits, invert: nat)

  // ---------------------------------------------------------------- the rules of a filter

  /** filter_advanceCaretagField: the templates with a word for the advanced packet types. */
  predicate TakesTags(t: nat) { t == 0 || t == 1 || t == 4 }

  /** The first template in use that takes them; failing that, the first that could. */
  function Home(valid: seq<bool>): (t: nat)
    requires |valid| == TEMPLATES
    ensures t < TEMPLATES && TakesTags(t)
  {
    if valid[0] then 0 else if valid[1] then 1 else if valid[4] then 4 else 0
  }

  function WithAdvanced(r: Rules, advanced: Cell): (s: Rules)
    requires r.Sized()
    ensures s.Sized()
  {
    if advanced == Cell(0, 0) then r
    else
      var t := Home(r.valid);
      Rules(r.cells[t * WORDS + TAG_WORD := advanced], r.valid[t := true])
  }

  /** The advanced packet types change one word; `t` is the first template that takes them, in use if any is. */
  lemma AdvancedPlaced(r: Rules, advanced: Cell) returns (t: nat)
    requires r.Sized() && advanced != Cell(0, 0)
    ensures t == 0 || t == 1 || t == 4
    ensures WithAdvanced(r, advanced) == Rules(r.cells[8 * t + 7 := advanced], r.valid[t := true])
    ensures r.valid[t] <==> r.valid[0] || r.valid[1] || r.valid[4]
    ensures (r.valid[0] ==> t == 0) && (r.valid[1] ==> t <= 1) && (!r.valid[t] ==> t == 0)
  {
    t := if r.valid[0] then 0 else if r.valid[1] then 1 else if r.valid[4] then 4 else 0;
  }

  method PlaceTags(cells: array<Cell>, valid: array<bool>, advanced: Cell)
    requires cells.Length == TEMPLATES * WORDS && valid.Length == TEMPLATES
    modifies cells, valid
    ensures Rules(cells[..], valid[..]) == WithAdvanced(Rules(old(cells[..]), old(valid[..])), advanced)
  {
    if advanced != Cell(0, 0) {
      var i := 0;
      while i < TEMPLATES && !(valid[i] && TakesTags(i))
        invariant i <= TEMPLATES
        invariant forall j :: 0 <= j < i ==> !(valid[j] && TakesTags(j))
      {
        i := i + 1;
      }
      if i == TEMPLATES {
        i := 0;  // the first that takes tags at all
        valid[i] := true;
      }
      cells[i * WORDS + TAG_WORD] := advanced;
    }
  }

  function Count(valid: seq<bool>): (n: nat)
    ensures n <= |valid|
  {
    if valid == [] then 0 else Count(valid[..|valid| - 1]) + if valid[|valid| - 1] then 1 else 0
  }

  method CountRules(valid: array<bool>) returns (n: nat)
    ensures n == Count(valid[..])
  {
    n := 0;
    for i := 0 to valid.Length
      invariant n == Count(valid[..i])
    {
      assert valid[..i + 1][..i] == valid[..i];
      if valid[i] {
        n := n + 1;
      }
    }
    assert valid[..valid.Length] == valid[..];
  }

  /** All templates of a filter: fields, advanced packet types. */
  function RulesFor(fields: seq<Field>, c: Criteria): (r: Rules)
    requires AllValid(fields)
    ensures r.Sized()
  {
    WithAdvanced(Compile(BLANK, fields), c.advanced)
  }

  function Words(cells: seq<Cell>, t: nat, care: bool): (w: seq<Word16>)
    requires |cells| == TEMPLATES * WORDS && t < TEMPLATES
    ensures |w| == WORDS
  {
    seq(WORDS, k requires 0 <= k < WORDS => if care then cells[t * WORDS + k].care else cells[t * WORDS + k].data)
  }

  function PortBits(ports: bv32, e: Env): Word16 { Get(e.toPhysical(ports), 0) }

  /** The active ports of a filter fit the hardware mask. */
  predicate PortsFit(c: Criteria, e: Env) { PortBits(c.active.value, e) < 0x800 && PortBits(c.active.mask, e) < 0x800 }

  /** Template `t` as the driver gets it. */
  function RuleOf(r: Rules, t: nat, c: Criteria, e: Env): Rule
    requires r.Sized() && t < TEMPLATES
  {
    Rule(RuleHalf(PortBits(c.active.value, e), KINDS[t], c.tags.data & 0x1F, Words(r.cells, t, false)),
         RuleHalf(PortBits(c.active.mask, e), 7, c.tags.care & 0x1F, Words(r.cells, t, true)),
         r.valid[t])
  }

  lemma RuleOfFits(r: Rules, t: nat, c: Criteria, e: Env)
    requires r.Sized() && t < TEMPLATES && PortsFit(c, e)
    ensures RuleFits(RuleOf(r, t, c, e))
  {
  }

  // ---------------------------------------------------------------- the table

  /** A slot with its action, action control and inversion flag. */
  datatype Entry = Entry(slot: Slot, act: ActWords, ctrl: Ctrl, inverted: bool)

  predicate SlotOk(s: Slot) { |s.data.words| == |s.care.words| == WORDS }

  /** A rule as it is written: only the first of a filter carries the action. */
  function EntryOf(r: Rule, s: State, first: bool, inverted: bool): Entry
    requires RuleFits(r)
  {
    Entry(StoreRule(r), PackAct(if first then s.act else NO_ACT), if first then s.ctrl else NO_CTRL, inverted)
  }

  /** The entries of the valid ones among the first `t` templates, in template order. */
  function Entries(r: Rules, c: Criteria, e: Env, s: State, t: nat): (es: seq<Entry>)
    requires r.Sized() && t <= TEMPLATES && PortsFit(c, e)
    ensures |es| == Count(r.valid[..t])
  {
    if t == 0 then []
    else
      var before := Entries(r, c, e, s, t - 1);
      assert r.valid[..t][..t - 1] == r.valid[..t - 1];
      RuleOfFits(r, t - 1, c, e);
      if r.valid[t - 1] then before + [EntryOf(RuleOf(r, t - 1, c, e), s, before == [], c.invert == 1)] else before
  }

  /** Template `i` with the action still to be written. */
  function NextEntry(r: Rules, i: nat, c: Criteria, e: Env, now: State): (x: Entry)
    requires r.Sized() && i < TEMPLATES && PortsFit(c, e)
    ensures SlotOk(x.slot)
  {
    RuleOfFits(r, i, c, e);
    EntryOf(RuleOf(r, i, c, e), now, true, c.invert == 1)
  }

  lemma EntriesStep(r: Rules, c: Criteria, e: Env, s: State, i: nat)
    requires r.Sized() && i < TEMPLATES && PortsFit(c, e)
    ensures Count(r.valid[..i + 1]) == Count(r.valid[..i]) + if r.valid[i] then 1 else 0
    ensures Count(r.valid[..i + 1]) <= Count(r.valid)
    ensures var now := if Count(r.valid[..i]) == 0 then s else State(NO_ACT, NO_CTRL);
      Entries(r, c, e, s, i + 1)
      == if r.valid[i] then Entries(r, c, e, s, i) + [NextEntry(r, i, c, e, now)] else Entries(r, c, e, s, i)
  {
    assert r.valid[..i + 1][..i] == r.valid[..i];
    CountGrows(r.valid, i + 1);
  }

  /** An unsigned 32-bit subtraction of one. */
  function LessOne(x: nat): nat { if x == 0 then 0xFFFF_FFFF else x - 1 }

  predicate PortsOk(c: Criteria, e: Env) { e.toPhysical(c.active.value).Some? && e.toPhysical(c.active.mask).Some? }

  /** The rules of a filter and their number. */
  method CompileFilter(cfg: AclList.FilterCfg, c: Criteria) returns (defect: Defect, rules: Rules, n: nat)
    requires cfg.Valid()
    ensures rules.Sized() && n == Count(rules.valid)
    ensures defect == AclList.FirstDefect(cfg.Fields()) && (defect.Sound? <==> AllValid(cfg.Fields()))
    ensures defect.Sound? ==> rules == RulesFor(cfg.Fields(), c)
  {
    cfg.SoundFields();
    var cells, valid;
    defect, cells, valid := AclList.CompileList(cfg);
    if !defect.Sound? {
      rules, n := BLANK, 0;
      BlankCounts();
      return;
    }
    PlaceTags(cells, valid, c.advanced);
    rules := Rules(cells[..], valid[..]);
    n := CountRules(valid);
  }

  lemma BlankCounts()
    ensures Count(BLANK.valid) == 0
  {
    NoneCounts(BLANK.valid);
  }

  lemma {:induction false} NoneCounts(valid: seq<bool>)
    requires forall i :: 0 <= i < |valid| ==> !valid[i]
    ensures Count(valid) == 0
  {
    if valid == [] {
      assert Count(valid) == 0;
    } else {
      NoneCounts(valid[..|valid| - 1]);
    }
  }

  class Table {
    const entries: array<Entry>
    /** The registers with the field types of each template. */
    const fieldTypes: seq<seq<Word16>>

    constructor (blank: Entry, fieldTypes: seq<seq<Word16>>)
      requires SlotOk(blank.slot) && !blank.slot.valid && |fieldTypes| == TEMPLATES
      ensures Valid() && Free(0, RULE_MAX + 1) && fresh(entries) && this.fieldTypes == fieldTypes
    {
      entries := new Entry[RULE_MAX + 1](_ => blank);
      this.fieldTypes := fieldTypes;
    }

    ghost predicate Valid()
      reads this, entries
    {
      && entries.Length == RULE_MAX + 1 && |fieldTypes| == TEMPLATES
      && forall i :: 0 <= i < entries.Length ==> SlotOk(entries[i].slot)
    }

    /** What a filter needs of table and request to be stored at `id` with `n` rules. */
    ghost predicate Admits(id: nat, n: nat, c: Criteria, q: Request, e: Env)
      requires Valid()
      reads this, entries
    {
      && 0 < id + n <= RULE_MAX + 1 && id <= RULE_MAX && PortsOk(c, e) && c.invert < 2
      && (forall t :: t in q.enabled ==> Passes(t, q, e)) && Free(id, id + n)
    }

    ghost predicate Free(from: nat, to: nat)
      requires Valid() && to <= RULE_MAX + 1
      reads this, entries
    {
      forall k :: from <= k < to ==> !entries[k].slot.valid
    }

    method AllFree(from: nat, to: nat) returns (free: bool)
      requires Valid() && from <= to <= RULE_MAX + 1
      ensures free <==> Free(from, to)
    {
      for i := from to to
        invariant Free(from, i)
      {
        if LoadRule(entries[i].slot).valid { return false; }
      }
      return true;
    }

    /** The four driver calls that fill one slot. */
    method Put(at: nat, x: Entry, ghost before: seq<Entry>, ghost written: seq<Entry>, ghost rest: seq<Entry>)
      requires Valid() && at <= RULE_MAX && SlotOk(x.slot)
      requires entries[..] == before + written + rest && at == |before| + |written|
      modifies entries
      ensures Valid() && entries[..] == before + (written + [x]) + rest[1..]
    {
      PutNext(before, written, rest, x);
      entries[at] := entries[at].(ctrl := x.ctrl);
      entries[at] := entries[at].(act := x.act);
      entries[at] := entries[at].(inverted := x.inverted);
      entries[at] := entries[at].(slot := x.slot);
    }

    /** The last loop of cfg_add. */
    method WriteRules(id: nat, r: Rules, c: Criteria, e: Env, s: State)
      requires Valid() && r.Sized() && PortsFit(c, e) && id + Count(r.valid) <= RULE_MAX + 1
      modifies entries
      ensures Valid()
      ensures entries[..] == old(entries[..id]) + Entries(r, c, e, s, TEMPLATES) + old(entries[id + Count(r.valid)..])
    {
      var ruleId := 0;
      var now := s;
      ghost var front, written, rest := entries[..id], [], entries[id..];
      assert r.valid[..TEMPLATES] == r.valid;
      for i := 0 to TEMPLATES
        invariant Valid() && ruleId == Count(r.valid[..i]) <= Count(r.valid)
        invariant now == if ruleId == 0 then s else State(NO_ACT, NO_CTRL)
        invariant written == Entries(r, c, e, s, i) && rest == old(entries[id..])[ruleId..]
        invariant entries[..] == front + written + rest
      {
        EntriesStep(r, c, e, s, i);
        if r.valid[i] {
          var x := NextEntry(r, i, c, e, now);
          Put(id + ruleId, x, front, written, rest);
          written, rest := written + [x], rest[1..];
          now := State(NO_ACT, NO_CTRL);
          ruleId := ruleId + 1;
        }
      }
    }

    /** cfg_add from the rule count on: everything is checked before anything is written. */
    method AddRules(id: nat, rules: Rules, n: nat, c: Criteria, q: Request, e: Env) returns (r: CfgStatus)
      requires Valid() && rules.Sized() && n == Count(rules.valid) && PortsFit(c, e) && id <= RULE_MAX
      modifies entries
      ensures Valid()
      ensures r != Ok ==> entries[..] == old(entries[..])
      ensures r == Ok <==> old(Admits(id, n, c, q, e))
      ensures r == EntryIndex <==> id + n == 0 || id + n > RULE_MAX + 1
      ensures r == TableFull ==> id + n <= RULE_MAX + 1 && !old(Free(id, id + n))
      ensures r == Ok ==>
                && id + n <= RULE_MAX + 1 && Fold(q, e, |ORDER|).Done?
                && entries[..] == old(entries[..id]) + Entries(rules, c, e, Fold(q, e, |ORDER|).state, TEMPLATES)
                                  + old(entries[id + n..])
    {
      if LessOne(id + n) > RULE_MAX { return EntryIndex; }
      if !PortsOk(c, e) { return PortMask; }
      if c.invert >= 2 { return InputError; }
      AcceptedExact(q, e);
      var out := MergeActions(q, e);
      if out.Failed? {
        FailsForReason(q, e, |ORDER|);
        return out.why;
      }
      var free := AllFree(id, id + n);
      if !free { return TableFull; }
      WriteRules(id, rules, c, e, out.state);
      return Ok;
    }

    /**
    _rtk_filter_igrAcl_cfg_add with drivers that succeed; `ruleNum` is reported once it is
    known. `defect` says that compiling the list is not defined in C (see CompileList).
    */
    method CfgAdd(id: nat, cfg: AclList.FilterCfg, c: Criteria, q: Request, e: Env)
      returns (defect: Defect, r: CfgStatus, ruleNum: Option<nat>)
      requires Valid() && cfg.Valid() && PortsFit(c, e)
      modifies entries
      ensures Valid()
      ensures defect == if id <= RULE_MAX then AclList.FirstDefect(cfg.Fields()) else Sound
      ensures !defect.Sound? || r != Ok ==> entries[..] == old(entries[..])
      ensures id > RULE_MAX ==> r == EntryIndex && ruleNum.None?
      ensures id <= RULE_MAX && defect.Sound? ==>
                AllValid(cfg.Fields()) && var rules := RulesFor(cfg.Fields(), c);
                && ruleNum == Some(Count(rules.valid))
                && (r == Ok <==> old(Admits(id, Count(rules.valid), c, q, e)))
                && (r == EntryIndex <==> id + Count(rules.valid) == 0 || id + Count(rules.valid) > RULE_MAX + 1)
                && (r == Ok ==>
                      && id + Count(rules.valid) <= RULE_MAX + 1 && Fold(q, e, |ORDER|).Done?
                      && entries[..] == old(entries[..id])
                                        + Entries(rules, c, e, Fold(q, e, |ORDER|).state, TEMPLATES)
                                        + old(entries[id + Count(rules.valid)..]))
    {
      if id > RULE_MAX { return Sound, EntryIndex, None; }
      var rules, n;
      defect, rules, n := CompileFilter(cfg, c);
      if !defect.Sound? { return defect, InputError, None; }
      r := AddRules(id, rules, n, c, q, e);
      ruleNum := Some(n);
    }

    /**
    _rtk_filter_igrAcl_cfg_get; nothing is reported for a free slot. `overrun` says that it looks
    for the advanced packet types outside their table (see LeavesTable).
    */
    method CfgGet(id: nat, e: Env) returns (overrun: bool, r: CfgStatus, got: Option<Report>)
      requires Valid()
      ensures r == if id <= RULE_MAX then Ok else EntryIndex
      ensures overrun <==> id <= RULE_MAX && LeavesTable(entries[id].slot)
      ensures got == if id <= RULE_MAX && entries[id].slot.valid && !overrun
                     then Some(ReportOf(entries[id], e, fieldTypes)) else None
    {
      if id > RULE_MAX { return false, EntryIndex, None; }
      var rule := LoadRule(entries[id].slot);
      if !rule.valid { return false, Ok, None; }
      var active := Bits(e.toLogical(rule.data.ports), e.toLogical(rule.care.ports));
      var tags := Cell(rule.data.tags, rule.care.tags);
      var advanced := None;
      if rule.data.kind as nat >= TEMPLATES { return true, Ok, None; }
      if TakesTags(rule.data.kind as nat) {
        if rule.care.kind as nat >= TEMPLATES { return true, Ok, None; }
        advanced := Some(Cell(rule.data.words[TAG_WORD], rule.care.words[TagColumn(rule.care.kind as nat)]));
      }
      var action := Decode(UnpackAct(entries[id].act), entries[id].ctrl, e);
      return false, Ok,
        Some(Report(rule, active, tags, advanced, action, entries[id].inverted, fieldTypes[rule.data.kind as nat]));
    }
  }

  /**
  What cfg_get reports: the raw rule, the active ports in logical form, the packet-type flags
  of the tag indicator and the advanced ones, the action, the inversion flag, the field types.
  */
  datatype Report = Report(rule: Rule, active: Bits, tags: Cell, advanced: Option<Cell>, action: Request,
                           inverted: bool, fieldTypes: seq<Word16>)

  /** The second column of filter_advanceCaretagField. */
  function TagColumn(t: nat): (k: nat)
    ensures k < WORDS
  {
    if TakesTags(t) then TAG_WORD else 0
  }

  /**
  The type of the rule picks the word with the values of the advanced packet types, and the
  care bits of the type pick the word with their masks, both from a table of five rows.
  */
  predicate LeavesTable(s: Slot)
    requires SlotOk(s)
  {
    var rule := LoadRule(s);
    && rule.valid
    && (rule.data.kind as nat >= TEMPLATES
        || (TakesTags(rule.data.kind as nat) && rule.care.kind as nat >= TEMPLATES))
  }

  /** The ports of a slot in logical form. */
  function ActivePorts(s: Slot, e: Env): Bits
    requires SlotOk(s)
  {
    Bits(e.toLogical(LoadRule(s).data.ports), e.toLogical(LoadRule(s).care.ports))
  }

  function ReportOf(x: Entry, e: Env, fieldTypes: seq<seq<Word16>>): Report
    requires SlotOk(x.slot) && x.slot.valid && !LeavesTable(x.slot) && |fieldTypes| == TEMPLATES
  {
    var rule := LoadRule(x.slot);
    var kind := rule.data.kind as nat;
    Report(rule, ActivePorts(x.slot, e), Cell(rule.data.tags, rule.care.tags),
           if TakesTags(kind)
           then Some(Cell(rule.data.words[TAG_WORD], rule.care.words[TagColumn(rule.care.kind as nat)]))
           else None,
           Shown(x, e), x.inverted, fieldTypes[kind])
  }

  lemma PutNext<T>(a: seq<T>, written: seq<T>, b: seq<T>, x: T)
    requires b != []
    ensures (a + written + b)[|a| + |written| := x] == a + (written + [x]) + b[1..]
  {
  }

  /** The action cfg_get shows for an entry. */
  function Shown(x: Entry, e: Env): Request { Decode(UnpackAct(x.act), x.ctrl, e) }

  /** The valid templates among the first `t`, in order. */
  function Chosen(valid: seq<bool>, t: nat): (ts: seq<nat>)
    requires t <= |valid|
    ensures |ts| == Count(valid[..t])
    ensures forall i :: 0 <= i < |ts| ==> ts[i] < t && valid[ts[i]]
    ensures forall i, j :: 0 <= i < j < |ts| ==> ts[i] < ts[j]
    ensures forall x :: 0 <= x < t && valid[x] ==> x in ts
  {
    if t == 0 then []
    else
      assert valid[..t][..t - 1] == valid[..t - 1];
      if valid[t - 1] then Chosen(valid, t - 1) + [t - 1] else Chosen(valid, t - 1)
  }

  lemma CheckNames(t: ActType, q: Request, e: Env)
    ensures Check(t, q, e) != TableFull && Check(t, q, e) != EntryIndex
  {
  }

  /** A failing fold names a check that failed. */
  lemma {:induction false} FailsForReason(q: Request, e: Env, i: nat)
    requires i <= |ORDER| && Fold(q, e, i).Failed?
    ensures Fold(q, e, i).why != Ok && Fold(q, e, i).why != TableFull && Fold(q, e, i).why != EntryIndex
  {
    if Fold(q, e, i - 1).Done? {
      CheckNames(ORDER[i - 1], q, e);
    } else {
      FailsForReason(q, e, i - 1);
    }
  }

  /** Entry k holds the k-th valid template, and the action if it is the first. */
  lemma {:induction false} EntryAt(r: Rules, c: Criteria, e: Env, s: State, t: nat, k: nat)
    requires r.Sized() && t <= TEMPLATES && PortsFit(c, e) && k < Count(r.valid[..t])
    ensures var x := Chosen(r.valid, t)[k];
      && x < TEMPLATES && RuleFits(RuleOf(r, x, c, e))
      && Entries(r, c, e, s, t)[k] == EntryOf(RuleOf(r, x, c, e), s, k == 0, c.invert == 1)
  {
    assert r.valid[..t][..t - 1] == r.valid[..t - 1];
    RuleOfFits(r, t - 1, c, e);
    if k == Count(r.valid[..t - 1]) {
    } else {
      EntryAt(r, c, e, s, t - 1, k);
    }
  }

  /** What cfg_add stored first shows exactly what the fold left; the others show no action. */
  lemma FirstShowsAction(r: Rules, c: Criteria, e: Env, s: State, k: nat)
    requires r.Sized() && PortsFit(c, e) && k < Count(r.valid)
    ensures Entries(r, c, e, s, TEMPLATES)[k].slot.valid
    ensures k == 0 ==> Shown(Entries(r, c, e, s, TEMPLATES)[k], e) == Returned(s, e)
    ensures k > 0 ==> Shown(Entries(r, c, e, s, TEMPLATES)[k], e).enabled == {}
  {
    assert r.valid[..TEMPLATES] == r.valid;
    EntryAt(r, c, e, s, TEMPLATES, k);
    if k > 0 {
      NothingShows(e);
    }
  }

  /**
  On the table that CfgAdd leaves for `q`, CfgGet at the same index shows the stored action,
  to which the theorems of AclDecode apply.
  */
  lemma GetAfterAdd(before: seq<Entry>, r: Rules, c: Criteria, q: Request, e: Env, s: State, after: seq<Entry>)
    requires r.Sized() && PortsFit(c, e) && 0 < Count(r.valid) && Stored(q, e, s)
    ensures |Entries(r, c, e, s, TEMPLATES)| == Count(r.valid)
    ensures var first := (before + Entries(r, c, e, s, TEMPLATES) + after)[|before|];
      first.slot.valid && Shown(first, e) == Returned(s, e)
  {
    assert r.valid[..TEMPLATES] == r.valid;
    var es := Entries(r, c, e, s, TEMPLATES);
    assert (before + es + after)[|before|] == es[0];
    FirstShowsAction(r, c, e, s, 0);
  }

  lemma KindsFit(t: nat)
    requires t < TEMPLATES
    ensures KINDS[t] & 7 == KINDS[t] && KINDS[t] as nat == t
  {
  }

  /**
  What cfg_get reads in slot k of a filter. Template number, words, validity and the flags of
  the tag indicator are those of the k-th valid template, as far as its care bits go; the whole
  rule is, if and only if not all of the three highest ports are both set and cared for.
  */
  lemma RuleAfterAdd(r: Rules, c: Criteria, e: Env, s: State, k: nat)
    requires r.Sized() && PortsFit(c, e) && k < Count(r.valid)
    ensures |Entries(r, c, e, s, TEMPLATES)| == Count(r.valid) == |Chosen(r.valid, TEMPLATES)|
    ensures var x := Chosen(r.valid, TEMPLATES)[k];
      x < TEMPLATES && var rule, slot := RuleOf(r, x, c, e), Entries(r, c, e, s, TEMPLATES)[k].slot;
      && RuleFits(rule) && SlotOk(slot)
      && (LoadRule(slot) == Masked(rule) <==> (rule.data.ports & rule.care.ports) >> 8 != 7)
      && LoadRule(slot).data.kind == KINDS[x] && LoadRule(slot).valid
      && LoadRule(slot).data.words == Masked(rule).data.words && LoadRule(slot).care.words == rule.care.words
      && LoadRule(slot).data.tags == Masked(rule).data.tags && LoadRule(slot).care.tags == rule.care.tags
  {
    assert r.valid[..TEMPLATES] == r.valid;
    EntryAt(r, c, e, s, TEMPLATES, k);
    var x := Chosen(r.valid, TEMPLATES)[k];
    RuleComesBack(RuleOf(r, x, c, e));
    FieldsComeBack(RuleOf(r, x, c, e));
    KindsFit(x);
  }

  predicate ShowsCell(l: Rule, w: nat, cells: seq<Cell>)
    requires w < WORDS == |cells| == |l.data.words| == |l.care.words|
  {
    ShowsWord(l, w, cells[w].data, cells[w].care)
  }

  /** Not all of the three highest ports are set and cared for. */
  predicate HighPortsFree(v: Word16, m: Word16) { v & m < 0x700 }

  predicate ShowsCells(l: Rule, cells: seq<Cell>)
    requires WORDS == |cells| == |l.data.words| == |l.care.words|
  {
    forall w :: 0 <= w < WORDS ==> ShowsCell(l, w, cells)
  }

  /** What cfg_get reads of template `x` of a filter: words, flags and ports as they were given. */
  predicate ShowsTemplate(l: Rule, x: nat, r: Rules, c: Criteria, e: Env)
    requires r.Sized() && x < TEMPLATES
  {
    && l.valid && |l.data.words| == |l.care.words| == WORDS
    && ShowsCells(l, r.cells[8 * x..8 * x + 8])
    && ShowsTags(l, c.tags.data & 0x1F, c.tags.care & 0x1F)
    && (HighPortsFree(PortBits(c.active.value, e), PortBits(c.active.mask, e)) ==>
          ShowsPorts(l, PortBits(c.active.value, e), PortBits(c.active.mask, e)))
  }

  lemma HighPortsBelow(v: Word16, m: Word16)
    requires HighPortsFree(v, m)
    ensures (v & m) >> 8 != 7
  {
  }

  lemma TemplateShows(r: Rules, x: nat, c: Criteria, e: Env, l: Rule)
    requires r.Sized() && x < TEMPLATES && r.valid[x] && PortsFit(c, e)
    requires RuleFits(RuleOf(r, x, c, e)) && l == LoadRule(StoreRule(RuleOf(r, x, c, e)))
    ensures ShowsTemplate(l, x, r, c, e)
  {
    var rule := RuleOf(r, x, c, e);
    RuleShows(rule, l, 0);
    var cells := r.cells[8 * x..8 * x + 8];
    forall w | 0 <= w < WORDS
      ensures ShowsCell(l, w, cells)
    {
      RuleShows(rule, l, w);
      assert cells[w] == r.cells[8 * x + w];
    }
    FieldsComeBack(rule);
    if HighPortsFree(PortBits(c.active.value, e), PortBits(c.active.mask, e)) {
      HighPortsBelow(PortBits(c.active.value, e), PortBits(c.active.mask, e));
      PortsShow(rule, l);
    }
  }

  /**
  What cfg_get reads in slot k of a filter: the k-th valid template, as it was given and as far
  as it is cared for; the ports, unless all of the three highest ones are set and cared for.
  */
  lemma SlotAfterAdd(r: Rules, c: Criteria, e: Env, s: State, k: nat)
    requires r.Sized() && PortsFit(c, e) && k < Count(r.valid)
    ensures |Entries(r, c, e, s, TEMPLATES)| == Count(r.valid) == |Chosen(r.valid, TEMPLATES)|
    ensures SlotOk(Entries(r, c, e, s, TEMPLATES)[k].slot) && Chosen(r.valid, TEMPLATES)[k] < TEMPLATES
    ensures ShowsTemplate(LoadRule(Entries(r, c, e, s, TEMPLATES)[k].slot), Chosen(r.valid, TEMPLATES)[k], r, c, e)
  {
    assert r.valid[..TEMPLATES] == r.valid;
    EntryAt(r, c, e, s, TEMPLATES, k);
    var x := Chosen(r.valid, TEMPLATES)[k];
    TemplateShows(r, x, c, e, LoadRule(StoreRule(RuleOf(r, x, c, e))));
  }

  lemma PortsOfTemplate(l: Rule, x: nat, r: Rules, c: Criteria, e: Env, pv: Word16, pm: Word16, seen: Word16)
    requires r.Sized() && x < TEMPLATES && ShowsTemplate(l, x, r, c, e)
    requires pv == PortBits(c.active.value, e) && pm == PortBits(c.active.mask, e)
    requires seen == pv & pm && HighPortsFree(pv, pm)
    ensures l.data.ports == seen && l.care.ports == pm
  {
    assert ShowsPorts(l, pv, pm);
  }

  /**
  The active ports that cfg_get reports: those given to cfg_add, as far as they are cared for,
  and the ports cared for themselves.
  */
  lemma ActivePortsComeBack(r: Rules, c: Criteria, e: Env, s: State, k: nat,
                            pv: Word16, pm: Word16, seen: Word16, slot: Slot)
    requires r.Sized() && PortsFit(c, e) && k < Count(r.valid)
    requires e.toPhysical(c.active.value) == Some(pv) && e.toPhysical(c.active.mask) == Some(pm)
    requires seen == pv & pm && HighPortsFree(pv, pm) && e.toLogical(pm) == c.active.mask
    requires |Entries(r, c, e, s, TEMPLATES)| == Count(r.valid) && slot == Entries(r, c, e, s, TEMPLATES)[k].slot
    ensures SlotOk(slot) && ActivePorts(slot, e) == Bits(e.toLogical(seen), c.active.mask)
    ensures seen == pv && e.toLogical(pv) == c.active.value ==> ActivePorts(slot, e) == c.active
  {
    SlotAfterAdd(r, c, e, s, k);
    PortsOfTemplate(LoadRule(slot), Chosen(r.valid, TEMPLATES)[k], r, c, e, pv, pm, seen);
  }

  /** The whole report on a slot for which cfg_get stays inside its table. */
  lemma ReportAfterAdd(r: Rules, c: Criteria, e: Env, s: State, k: nat, fieldTypes: seq<seq<Word16>>)
    requires r.Sized() && PortsFit(c, e) && k < Count(r.valid) && |fieldTypes| == TEMPLATES
    ensures |Entries(r, c, e, s, TEMPLATES)| == Count(r.valid) == |Chosen(r.valid, TEMPLATES)|
    ensures var (x, entry) := (Chosen(r.valid, TEMPLATES)[k], Entries(r, c, e, s, TEMPLATES)[k]);
      && SlotOk(entry.slot) && entry.slot.valid && x < TEMPLATES
      && (!LeavesTable(entry.slot) ==>
            var report := ReportOf(entry, e, fieldTypes);
            && report.rule == LoadRule(entry.slot) && report.active == ActivePorts(entry.slot, e)
            && ShowsTemplate(report.rule, x, r, c, e)
            && report.tags == Cell(report.rule.data.tags, report.rule.care.tags)
            && report.advanced.None? && report.inverted == (c.invert == 1) && report.fieldTypes == fieldTypes[x]
            && (k == 0 ==> report.action == Returned(s, e)) && (k > 0 ==> report.action.enabled == {}))
  {
    SlotAfterAdd(r, c, e, s, k);
    FirstShowsAction(r, c, e, s, k);
    GetLeavesTable(r, c, e, s, k);
    EntryAt(r, c, e, s, TEMPLATES, k);
  }

  /**
  cfg_get leaves the table on exactly those slots of a filter whose template has a word for the
  advanced packet types: the care bits of the type are 7 in every rule that cfg_add writes.
  */
  lemma GetLeavesTable(r: Rules, c: Criteria, e: Env, s: State, k: nat)
    requires r.Sized() && PortsFit(c, e) && k < Count(r.valid)
    ensures |Entries(r, c, e, s, TEMPLATES)| == |Chosen(r.valid, TEMPLATES)| == Count(r.valid)
    ensures var slot := Entries(r, c, e, s, TEMPLATES)[k].slot;
      SlotOk(slot) && (LeavesTable(slot) <==> TakesTags(Chosen(r.valid, TEMPLATES)[k]))
  {
    RuleAfterAdd(r, c, e, s, k);
    EntryAt(r, c, e, s, TEMPLATES, k);
    CareTypeLeavesTable(r, c, e, Chosen(r.valid, TEMPLATES)[k]);
    KindsFit(Chosen(r.valid, TEMPLATES)[k]);
  }

  lemma CareTypeLeavesTable(r: Rules, c: Criteria, e: Env, t: nat)
    requires r.Sized() && PortsFit(c, e) && t < TEMPLATES
    ensures RuleFits(RuleOf(r, t, c, e)) && LoadRule(StoreRule(RuleOf(r, t, c, e))).care.kind as nat >= TEMPLATES
  {
    RuleOfFits(r, t, c, e);
    FieldsComeBack(RuleOf(r, t, c, e));
  }

  /**
  A filter needs no rule exactly if it has no field and no advanced packet type. The unsigned
  range check refuses it for slot 0 alone.
  */
  lemma EmptyFilter(fields: seq<Field>, c: Criteria, id: nat)
    requires AllValid(fields) && id <= RULE_MAX
    ensures Count(RulesFor(fields, c).valid) == 0 <==> fields == [] && c.advanced == Cell(0, 0)
    ensures fields == [] && c.advanced == Cell(0, 0) ==>
              (LessOne(id + Count(RulesFor(fields, c).valid)) > RULE_MAX <==> id == 0)
  {
    var r := RulesFor(fields, c);
    if fields == [] && c.advanced == Cell(0, 0) {
      BlankCounts();
    } else if fields == [] {
      SomeCounts(r.valid, Home(BLANK.valid));
    } else {
      FieldsMark(BLANK, fields);
      var t :| 0 <= t < TEMPLATES && Compile(BLANK, fields).valid[t];
      SomeCounts(r.valid, t);
    }
  }

  lemma SomeCounts(valid: seq<bool>, t: nat)
    requires t < |valid| && valid[t]
    ensures Count(valid) > 0
  {
    CountGrows(valid, t + 1);
    assert valid[..t + 1][..t] == valid[..t];
  }

  /** A list of fields makes some template valid. */
  lemma {:induction false} FieldsMark(r: Rules, fields: seq<Field>)
    requires r.Sized() && AllValid(fields)
    requires fields != [] || exists t :: 0 <= t < TEMPLATES && r.valid[t]
    ensures exists t :: 0 <= t < TEMPLATES && Compile(r, fields).valid[t]
    decreases |fields|
  {
    if fields == [] {
      assert Compile(r, fields) == r;
    } else {
      var f := fields[0];
      assert ValidField(f) && forall g :: g in fields[1..] ==> g in fields;
      var t := TemplateOf(f.positions[0]);
      assert f.positions[0] in f.positions;
      assert Marks(f, t);
      assert Applied(r, f).valid[t];
      FieldsMark(Applied(r, f), fields[1..]);
      assert Compile(r, fields) == Compile(Applied(r, f), fields[1..]);
    }
  }

  lemma NothingShows(e: Env)
    ensures Decode(UnpackAct(PackAct(NO_ACT)), NO_CTRL, e).enabled == {}
  {
  }

  lemma {:induction false} CountGrows(valid: seq<bool>, t: nat)
    requires t <= |valid|
    ensures Count(valid[..t]) <= Count(valid)
    decreases |valid| - t
  {
    if t == |valid| {
      assert valid[..t] == valid;
    } else {
      assert valid[..t + 1][..t] == valid[..t];
      CountGrows(valid, t + 1);
    }
  }
}
