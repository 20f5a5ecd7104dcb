/**
How rules and actions are laid out in the switch tables (rtl8367c_asicdrv_acl.c): the
conversions between the structures of the API and table words. Packing an action loses
nothing. A rule comes back with its data masked by its care bits, as a ternary match needs
no more, except for one slip in the reader.
*/
module AclDriver {
  import opened AclFields

  // ---------------------------------------------------------------- rules

  /** struct acl_rule_st: an 11-bit port mask, a 3-bit type, 5 tag bits, eight words. */
  datatype RuleHalf = RuleHalf(ports: Word16, kind: Word16, tags: Word16, words: seq<Word16>)

  datatype Rule = Rule(data: RuleHalf, care: RuleHalf, valid: bool)

  predicate HalfFits(h: RuleHalf) {
    h.ports < 0x800 && h.kind < 8 && h.tags < 0x20 && |h.words| == WORDS
  }

  predicate RuleFits(r: Rule) { HalfFits(r.data) && HalfFits(r.care) }

  /** The first table word and the extension word of one half. */
  function InfoWord(ports: Word16, kind: Word16, tags: Word16): Word16 {
    ((ports & 0xFF) << 8) | ((tags & 0x1F) << 3) | (kind & 0x07)
  }

  function ExtWord(ports: Word16): Word16 { ((ports >> 8) & 0x7) << 1 }

  function InfoOf(h: RuleHalf): Word16 { InfoWord(h.ports, h.kind, h.tags) }

  /** The fields back out of the words; `high` are the three extension bits. */
  function PortsOf(info: Word16, high: Word16): Word16 { ((((high << 1) >> 1) & 0x7) << 8) | ((info >> 8) & 0xFF) }

  function KindOf(info: Word16): Word16 { info & 0x7 }

  function TagsOf(info: Word16): Word16 { (info & 0xF8) >> 3 }

  /** A table slot: each half as info word, eight words and the 3 extension bits. */
  datatype Side = Side(info: Word16, words: seq<Word16>, ext: Word16)

  datatype Slot = Slot(data: Side, care: Side, valid: bool)

  function And(a: seq<Word16>, b: seq<Word16>): seq<Word16>
    requires |a| == |b|
  {
    seq(|a|, i requires 0 <= i < |a| => a[i] & b[i])
  }

  function AndNot(a: seq<Word16>, b: seq<Word16>): seq<Word16>
    requires |a| == |b|
  {
    seq(|a|, i requires 0 <= i < |a| => a[i] & !b[i])
  }

  function Xor(a: seq<Word16>, b: seq<Word16>): seq<Word16>
    requires |a| == |b|
  {
    seq(|a|, i requires 0 <= i < |a| => a[i] ^ b[i])
  }

  /** The extension bits set in both masks, and those only in the first. */
  function BothHigh(care: Word16, data: Word16): Word16 { ((ExtWord(care) & ExtWord(data)) >> 1) & 0x7 }

  function OnlyHigh(care: Word16, data: Word16): Word16 { ((ExtWord(care) & !ExtWord(data)) >> 1) & 0x7 }

  /** setAsicAclRule: care & ~data and care & data go to the two sides of the slot. */
  function StoreRule(r: Rule): Slot
    requires RuleFits(r)
  {
    var (di, ci, dp, cp) := (InfoOf(r.data), InfoOf(r.care), r.data.ports, r.care.ports);
    Slot(Side(ci & di, And(r.care.words, r.data.words), BothHigh(cp, dp)),
         Side(ci & !di, AndNot(r.care.words, r.data.words), OnlyHigh(cp, dp)),
         r.valid)
  }

  function HalfFrom(info: Word16, words: seq<Word16>, high: Word16): RuleHalf {
    RuleHalf(PortsOf(info, high), KindOf(info), TagsOf(info), words)
  }

  /** getAsicAclRule. The extension bits of the data side are reduced modulo 7, not masked with 7. */
  function LoadRule(s: Slot): Rule
    requires |s.data.words| == |s.care.words|
  {
    Rule(HalfFrom(s.data.info, s.data.words, s.data.ext % 7),
         HalfFrom(s.care.info ^ s.data.info, Xor(s.care.words, s.data.words), (s.care.ext & 0x7) ^ (s.data.ext % 7)),
         s.valid)
  }

  /** The rule as far as it can match anything: data bits nobody cares about are cleared. */
  function Masked(r: Rule): Rule
    requires RuleFits(r)
  {
    r.(data := RuleHalf(r.data.ports & r.care.ports, r.data.kind & r.care.kind, r.data.tags & r.care.tags,
                    And(r.care.words, r.data.words)))
  }

  /** Where the fields of a half stand in the table. */
  lemma InfoLayout(p: Word16, k: Word16, t: Word16)
    requires p < 0x800 && k < 8 && t < 0x20
    ensures InfoWord(p, k, t) == (p & 0xFF) * 0x100 + t * 8 + k && ExtWord(p) == (p >> 8) * 2
  {
  }

  /** The bits of a packet word that are clear though they have to be set, or set though they have to be clear. */
  function Missed(x: Word16, must: Word16, clear: Word16): Word16 { (must & !x) | (clear & x) }

  lemma MissedIs(x: Word16, d: Word16, c: Word16, must: Word16, clear: Word16)
    requires must == c & d && clear == c & !d
    ensures Missed(x, must, clear) == (x ^ d) & c
  {
  }

  /**
  What a slot demands of a packet word: on its data side stand the bits that have to be set, on
  its care side those that have to be clear. The word misses where it differs from the data of
  the rule in a bit that the rule cares for.
  */
  lemma SlotDemands(r: Rule, k: nat, x: Word16, s: Slot)
    requires RuleFits(r) && k < WORDS && s == StoreRule(r)
    ensures |s.data.words| == |s.care.words| == WORDS
    ensures Missed(x, s.data.words[k], s.care.words[k]) == (x ^ r.data.words[k]) & r.care.words[k]
  {
    SlotWords(r);
    WordMissed(r.care.words, r.data.words, k, x, r.care.words[k], r.data.words[k], s.data.words[k], s.care.words[k]);
  }

  lemma SlotWords(r: Rule)
    requires RuleFits(r)
    ensures StoreRule(r).data.words == And(r.care.words, r.data.words)
    ensures StoreRule(r).care.words == AndNot(r.care.words, r.data.words)
  {
  }

  lemma WordMissed(c: seq<Word16>, d: seq<Word16>, k: nat, x: Word16, ck: Word16, dk: Word16,
                   must: Word16, clear: Word16)
    requires |c| == |d| && k < |c| && must == And(c, d)[k] && clear == AndNot(c, d)[k] && ck == c[k] && dk == d[k]
    ensures Missed(x, must, clear) == (x ^ dk) & ck
  {
    SidesOf(c, d, k, ck, dk, must, clear);
    MissedIs(x, dk, ck, must, clear);
  }

  lemma SidesOf(c: seq<Word16>, d: seq<Word16>, k: nat, ck: Word16, dk: Word16, must: Word16, clear: Word16)
    requires |c| == |d| && k < |c| && must == And(c, d)[k] && clear == AndNot(c, d)[k] && ck == c[k] && dk == d[k]
    ensures must == ck & dk && clear == ck & !dk
  {
  }

  lemma CareComesBack(c: Word16, d: Word16)
    ensures (c & !d) ^ (c & d) == c
  {
  }

  lemma InfoFields(p: Word16, k: Word16, t: Word16)
    requires p < 0x800 && k < 8 && t < 0x20
    ensures KindOf(InfoWord(p, k, t)) == k && TagsOf(InfoWord(p, k, t)) == t
    ensures PortsOf(InfoWord(p, k, t), p >> 8) == p
  {
  }

  lemma WrongHighPorts(p: Word16, k: Word16, t: Word16, high: Word16)
    requires p < 0x800 && k < 8 && t < 0x20 && high < 8 && high != p >> 8
    ensures PortsOf(InfoWord(p, k, t), high) != p
  {
  }

  lemma InfoMasked(p: Word16, k: Word16, t: Word16, p': Word16, k': Word16, t': Word16)
    requires p < 0x800 && k < 8 && t < 0x20
    ensures InfoWord(p, k, t) & InfoWord(p', k', t') == InfoWord(p' & p, k' & k, t' & t)
    ensures p' & p < 0x800 && k' & k < 8 && t' & t < 0x20
  {
  }

  lemma HighPorts(c: Word16, d: Word16)
    requires c < 0x800 && d < 0x800
    ensures BothHigh(c, d) == (d & c) >> 8 && BothHigh(c, d) < 8
    ensures (OnlyHigh(c, d) & 0x7) ^ BothHigh(c, d) == c >> 8
  {
  }

  lemma ModSeven(e: Word16)
    requires e < 8
    ensures e % 7 < 8 && (e % 7 == e <==> e != 7)
  {
  }

  lemma WordsComeBack(c: seq<Word16>, d: seq<Word16>)
    requires |c| == |d|
    ensures Xor(AndNot(c, d), And(c, d)) == c
  {
    forall i | 0 <= i < |c|
      ensures Xor(AndNot(c, d), And(c, d))[i] == c[i]
    {
      CareComesBack(c[i], d[i]);
    }
  }

  lemma HalfComesBack(h: RuleHalf, high: Word16)
    requires HalfFits(h) && high < 8
    ensures HalfFrom(InfoOf(h), h.words, high) == h <==> high == h.ports >> 8
  {
    InfoFields(h.ports, h.kind, h.tags);
    if high != h.ports >> 8 {
      WrongHighPorts(h.ports, h.kind, h.tags, high);
    }
  }

  lemma MaskedFits(r: Rule)
    requires RuleFits(r)
    ensures HalfFits(Masked(r).data)
    ensures InfoOf(r.care) & InfoOf(r.data) == InfoOf(Masked(r).data)
  {
    InfoMasked(r.care.ports, r.care.kind, r.care.tags, r.data.ports, r.data.kind, r.data.tags);
  }

  lemma DataSide(r: Rule)
    requires RuleFits(r)
    ensures var s, m := StoreRule(r), Masked(r).data;
      s.data.info == InfoOf(m) && s.data.words == m.words && s.data.ext == m.ports >> 8 && s.data.ext < 8
  {
    HighPorts(r.care.ports, r.data.ports);
    MaskedFits(r);
  }

  lemma CareSide(r: Rule)
    requires RuleFits(r)
    ensures var s, c := StoreRule(r), r.care;
      && s.care.info ^ s.data.info == InfoOf(c) && Xor(s.care.words, s.data.words) == c.words
      && (s.care.ext & 0x7) ^ s.data.ext == c.ports >> 8
  {
    CareComesBack(InfoOf(r.care), InfoOf(r.data));
    WordsComeBack(r.care.words, r.data.words);
    HighPorts(r.care.ports, r.data.ports);
  }

  lemma HighBound(p: Word16)
    requires p < 0x800
    ensures p >> 8 < 8
  {
  }

  /** The slot represents data half `m` and care half `c`. */
  predicate Holds(s: Slot, m: RuleHalf, c: RuleHalf) {
    && HalfFits(m) && HalfFits(c) && |s.data.words| == |s.care.words| == WORDS
    && s.data.info == InfoOf(m) && s.data.words == m.words && s.data.ext == m.ports >> 8 && s.data.ext < 8
    && s.care.info ^ s.data.info == InfoOf(c) && Xor(s.care.words, s.data.words) == c.words
    && (s.care.ext & 0x7) ^ s.data.ext == c.ports >> 8 && c.ports >> 8 < 8
  }

  lemma SlotHolds(r: Rule)
    requires RuleFits(r)
    ensures Holds(StoreRule(r), Masked(r).data, r.care)
  {
    MaskedFits(r);
    DataSide(r);
    CareSide(r);
    HighBound(r.care.ports);
  }

  lemma DataLoads(s: Slot, m: RuleHalf, c: RuleHalf)
    requires Holds(s, m, c)
    ensures LoadRule(s).data == m <==> s.data.ext != 7
  {
    ModSeven(s.data.ext);
    HalfComesBack(m, s.data.ext % 7);
  }

  lemma CareLoads(s: Slot, m: RuleHalf, c: RuleHalf)
    requires Holds(s, m, c) && s.data.ext != 7
    ensures LoadRule(s).care == c
  {
    ModSeven(s.data.ext);
    HalfComesBack(c, c.ports >> 8);
  }

  lemma SlotLoads(s: Slot, m: RuleHalf, c: RuleHalf)
    requires Holds(s, m, c)
    ensures LoadRule(s) == Rule(m, c, s.valid) <==> s.data.ext != 7
  {
    DataLoads(s, m, c);
    if s.data.ext != 7 {
      CareLoads(s, m, c);
    }
  }

  /**
  Writing a rule and reading it back masks its data, if and only if not all of the three
  highest ports are both set and cared for.
  */
  lemma RuleComesBack(r: Rule)
    requires RuleFits(r)
    ensures LoadRule(StoreRule(r)) == Masked(r) <==> (r.data.ports & r.care.ports) >> 8 != 7
  {
    SlotHolds(r);
    SlotLoads(StoreRule(r), Masked(r).data, r.care);
  }

  /** Type, tags and words come back whatever the ports are. */
  lemma FieldsComeBack(r: Rule)
    requires RuleFits(r)
    ensures var l, m := LoadRule(StoreRule(r)), Masked(r);
      && l.data.kind == m.data.kind && l.data.tags == m.data.tags && l.data.words == m.data.words
      && l.care.kind == r.care.kind && l.care.tags == r.care.tags && l.care.words == r.care.words
      && l.valid == r.valid
  {
    SlotHolds(r);
    var m := Masked(r).data;
    InfoFields(m.ports, m.kind, m.tags);
    InfoFields(r.care.ports, r.care.kind, r.care.tags);
  }

  /** The rule shows word `w`, the value as far as it is cared for. */
  predicate ShowsWord(l: Rule, w: nat, data: Word16, care: Word16)
    requires w < WORDS && |l.data.words| == |l.care.words| == WORDS
  {
    l.care.words[w] == care && l.data.words[w] == care & data
  }

  predicate ShowsTags(l: Rule, data: Word16, care: Word16) { l.care.tags == care && l.data.tags == data & care }

  predicate ShowsPorts(l: Rule, data: Word16, care: Word16) { l.care.ports == care && l.data.ports == data & care }

  lemma MaskedShows(r: Rule, l: Rule, w: nat)
    requires RuleFits(r) && w < WORDS && |l.data.words| == |l.care.words| == WORDS
    requires l.data.words == Masked(r).data.words && l.care.words == r.care.words
    ensures ShowsWord(l, w, r.data.words[w], r.care.words[w])
  {
  }

  lemma TagsShow(r: Rule, l: Rule)
    requires RuleFits(r) && l.data.tags == Masked(r).data.tags && l.care.tags == r.care.tags
    ensures ShowsTags(l, r.data.tags, r.care.tags)
  {
  }

  /** What is read of a rule that was written: each field by itself. */
  lemma RuleShows(r: Rule, l: Rule, w: nat)
    requires RuleFits(r) && l == LoadRule(StoreRule(r)) && w < WORDS
    ensures |l.data.words| == |l.care.words| == WORDS
    ensures ShowsWord(l, w, r.data.words[w], r.care.words[w]) && ShowsTags(l, r.data.tags, r.care.tags)
  {
    FieldsComeBack(r);
    MaskedShows(r, l, w);
    TagsShow(r, l);
  }

  lemma PortsShow(r: Rule, l: Rule)
    requires RuleFits(r) && l == LoadRule(StoreRule(r)) && (r.data.ports & r.care.ports) >> 8 != 7
    ensures ShowsPorts(l, r.data.ports, r.care.ports)
  {
    RuleComesBack(r);
  }

  // ---------------------------------------------------------------- actions

  /** acl_act_s with the widths of its bit fields. */
  datatype Act = Act(cvidx: Word16, cact: Word16, svidx: Word16, sact: Word16, meter: Word16,
                     fwdPorts: Word16, fwdact: Word16, pridx: Word16, priact: Word16,
                     pin: Word16, gpio: Word16, intr: Word16,
                     cactExt: Word16, fwdExt: Word16, tagFmt: Word16)

  const NO_ACT := Act(0, 0, 0, 0, 0, 0, 0, 0, 0, 0, 0, 0, 0, 0, 0)

  predicate ActFits(a: Act) {
    && a.cvidx < 0x80 && a.cact < 4 && a.svidx < 0x80 && a.sact < 4 && a.meter < 0x80
    && a.fwdPorts < 0x800 && a.fwdact < 4 && a.pridx < 0x80 && a.priact < 4 && a.pin < 0x10
    && a.gpio < 2 && a.intr < 2 && a.cactExt < 4 && a.fwdExt < 2 && a.tagFmt < 4
  }

  datatype ActWords = ActWords(w0: Word16, w1: Word16, w2: Word16, w3: Word16)

  /** aclActStUser2Smi */
  function PackAct(a: Act): ActWords {
    ActWords(
      (a.cvidx & 0x3F) | ((a.cact & 0x3) << 6) | ((a.svidx & 0x3F) << 8) | ((a.sact & 0x3) << 14),
      (a.meter & 0x3F) | ((a.fwdPorts & 0xFF) << 6) | ((a.fwdact & 0x3) << 14),
      (a.pridx & 0x3F) | ((a.priact & 0x3) << 6) | ((a.pin & 0xF) << 8)
      | ((a.gpio & 0x1) << 12) | ((a.intr & 0x1) << 13) | ((a.cactExt & 0x3) << 14),
      (a.tagFmt & 0x3) | ((a.fwdExt & 0x1) << 2) | (((a.cvidx & 0x40) >> 6) << 3) | (((a.svidx & 0x40) >> 6) << 4)
      | (((a.meter & 0x40) >> 6) << 5) | (((a.fwdPorts & 0x700) >> 8) << 6) | (((a.pridx & 0x40) >> 6) << 9))
  }

  /** aclActStSmi2User */
  function UnpackAct(w: ActWords): Act {
    Act((w.w0 & 0x3F) | (((w.w3 & 0x8) >> 3) << 6), (w.w0 & 0xC0) >> 6,
        ((w.w0 & 0x3F00) >> 8) | (((w.w3 & 0x10) >> 4) << 6), (w.w0 & 0xC000) >> 14,
        (w.w1 & 0x3F) | (((w.w3 & 0x20) >> 5) << 6),
        ((w.w1 & 0x3FC0) >> 6) | (((w.w3 & 0x1C0) >> 6) << 8), (w.w1 & 0xC000) >> 14,
        (w.w2 & 0x3F) | (((w.w3 & 0x200) >> 9) << 6), (w.w2 & 0xC0) >> 6,
        (w.w2 & 0xF00) >> 8, (w.w2 & 0x1000) >> 12, (w.w2 & 0x2000) >> 13,
        (w.w2 & 0xC000) >> 14, (w.w3 & 0x4) >> 2, w.w3 & 0x3)
  }

  /** Where the bit fields stand, as sums of weights. */
  lemma ActLayout(a: Act)
    requires ActFits(a)
    ensures var w := PackAct(a);
      && w.w0 == (a.cvidx & 0x3F) + 0x40 * a.cact + 0x100 * (a.svidx & 0x3F) + 0x4000 * a.sact
      && w.w1 == (a.meter & 0x3F) + 0x40 * (a.fwdPorts & 0xFF) + 0x4000 * a.fwdact
      && w.w2 == (a.pridx & 0x3F) + 0x40 * a.priact + 0x100 * a.pin + 0x1000 * a.gpio + 0x2000 * a.intr
                 + 0x4000 * a.cactExt
      && w.w3 == a.tagFmt + 4 * a.fwdExt + 8 * (a.cvidx >> 6) + 0x10 * (a.svidx >> 6) + 0x20 * (a.meter >> 6)
                 + 0x40 * (a.fwdPorts >> 8) + 0x200 * (a.pridx >> 6)
  {
  }

  /** Fifteen bit fields in four words, some of them split, and none disturbs another. */
  lemma ActComesBack(a: Act)
    requires ActFits(a)
    ensures UnpackAct(PackAct(a)) == a
  {
  }
}
