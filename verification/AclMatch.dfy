/**
What compiled match fields mean: which packets they match. The hardware compares sixteen-bit
words of a packet with the words of a rule, as far as these care; a list of fields compiles to
rules that match exactly the packets that agree with every field under its mask.
*/
module AclMatch {
  import opened AclBits
  import opened AclFields

  // ---------------------------------------------------------------- what a field asks of a packet

  /** Every word that a packet shows to the templates passes its cell; the words stand side by side like the cells. */
  predicate AllHit(packet: seq<Word16>, r: Rules)
    requires r.Sized() && |packet| == TEMPLATES * WORDS
  {
    forall c :: 0 <= c < TEMPLATES * WORDS ==> Hits(packet[c], r.cells[c])
  }

  function Octet(value: seq<bv8>, mask: seq<bv8>, k: nat): Bits
    requires k < |value| && k < |mask|
  {
    Bits(value[k] as bv32, mask[k] as bv32)
  }

  /** Sixteen bits of a longer number, the low ones for 0 and the high ones for 1. */
  function Half(value: bv32, mask: bv32, i: nat): Bits {
    if i == 0 then Bits(value, mask) else Bits(value >> 16, mask >> 16)
  }

  /** A packet word agrees with what the pattern says of its i-th word, header field by header field. */
  predicate AgreesAt(p: Pattern, i: nat, word: Word16)
    requires Shaped(p) && i < MaxPositions(p)
  {
    var w := word as bv32;
    match p
    case Mac(v, m) => Agrees(w, Octet(v, m, 5 - 2 * i), 0xFF) && Agrees(w >> 8, Octet(v, m, 4 - 2 * i), 0xFF)
    case EtherType(b) => Agrees(w, b, 0xFFFF)
    case Tag(pri, cfi, vid) => Agrees(w >> 13, pri, 7) && Agrees(w >> 12, cfi, 1) && Agrees(w, vid, 0xFFF)
    case Ipv4Address(b) => Agrees(w, Half(b.value, b.mask, i), 0xFFFF)
    case Ipv4Byte(b) => Agrees(w, b, 0xFF)
    case Ipv4Flag(xf, df, mf) => Agrees(w >> 15, xf, 1) && Agrees(w >> 14, df, 1) && Agrees(w >> 13, mf, 1)
    case Ipv4Offset(b) => Agrees(w, b, 0xFFFF)
    case Ipv6Address(v, m) => Agrees(w, if i < 2 then Half(v[0], m[0], i) else Half(v[3], m[3], i % 2), 0xFFFF)
    case Ipv6TrafficClass(b) => Agrees(w >> 4, b, 0xFF)
    case Ipv6NextHeader(b) => Agrees(w >> 8, b, 0xFF)
    case Port(b) => Agrees(w, b, 0xFFFF)
    case TcpFlag(cwr, ece, urg, ack, psh, rst, syn, fin) =>
      && Agrees(w >> 7, cwr, 1) && Agrees(w >> 6, ece, 1) && Agrees(w >> 5, urg, 1) && Agrees(w >> 4, ack, 1)
      && Agrees(w >> 3, psh, 1) && Agrees(w >> 2, rst, 1) && Agrees(w >> 1, syn, 1) && Agrees(w, fin, 1)
    case IcmpCode(b) => Agrees(w, b, 0xFFFF)
    case IcmpType(b) => Agrees(w >> 8, b, 0xFF)
    case IgmpType(b) => Agrees(w >> 8, b, 0xFF)
    case PatternMatch(v, m) => Agrees(w, Half(v[i / 2], m[i / 2], i % 2), 0xFFFF)
    case Plain(b) => i == 0 ==> Agrees(w, b, 0xFFFF)
  }

  /** The words of position `i` as the field compiles them. */
  function WordsAt(f: Field, i: nat): Cell
    requires ValidField(f) && i < |f.positions|
  {
    Cell(WordAt(f, i, false), WordAt(f, i, true))
  }

  // ---------------------------------------------------------------- field by field

  function Cut(b: Bits, width: bv32): Bits { Bits(b.value & width, b.mask & width) }

  /** The pattern with the operands that share a word cut to the width of their header fields. */
  function Trimmed(p: Pattern): Pattern {
    match p
    case Tag(pri, cfi, vid) => Tag(Cut(pri, 7), Cut(cfi, 1), Cut(vid, 0xFFF))
    case Ipv4Flag(xf, df, mf) => Ipv4Flag(Cut(xf, 1), Cut(df, 1), Cut(mf, 1))
    case TcpFlag(cwr, ece, urg, ack, psh, rst, syn, fin) =>
      TcpFlag(Cut(cwr, 1), Cut(ece, 1), Cut(urg, 1), Cut(ack, 1), Cut(psh, 1), Cut(rst, 1), Cut(syn, 1), Cut(fin, 1))
    case _ => p
  }

  // ---------------------------------------------------------------- every pattern

  /** The field with its pattern trimmed. */
  function TrimmedField(f: Field): (g: Field)
    requires ValidField(f)
    ensures ValidField(g) && g.positions == f.positions
  {
    Field(f.positions, Trimmed(f.pattern))
  }

  lemma TagMeans(f: Field, i: nat, w: Word16)
    requires ValidField(f) && i < |f.positions| && f.pattern.Tag?
    ensures Hits(w, WordsAt(TrimmedField(f), i)) <==> AgreesAt(f.pattern, i, w)
  {
    TagHits(w, f.pattern.pri, f.pattern.cfi, f.pattern.vid, WordsAt(TrimmedField(f), i));
  }

  lemma FlagsMean(f: Field, i: nat, w: Word16)
    requires ValidField(f) && i < |f.positions| && f.pattern.Ipv4Flag?
    ensures Hits(w, WordsAt(TrimmedField(f), i)) <==> AgreesAt(f.pattern, i, w)
  {
    FlagHits(w, f.pattern.xf, f.pattern.df, f.pattern.mf, WordsAt(TrimmedField(f), i));
  }

  lemma TcpFlagsMean(f: Field, i: nat, w: Word16)
    requires ValidField(f) && i < |f.positions| && f.pattern.TcpFlag?
    ensures Hits(w, WordsAt(TrimmedField(f), i)) <==> AgreesAt(f.pattern, i, w)
  {
    var p := f.pattern;
    TcpHits(w, p.cwr, p.ece, p.urg, p.ack, p.psh, p.rst, p.syn, p.fin, WordsAt(TrimmedField(f), i));
  }

  lemma MacWords(f: Field, i: nat)
    requires ValidField(f) && i < |f.positions| && f.pattern.Mac?
    ensures WordsAt(TrimmedField(f), i) == Cell(Octets(f.pattern.value, i), Octets(f.pattern.mask, i))
  {
  }

  lemma MacAgrees(p: Pattern, i: nat, w: Word16, a: Bits, b: Bits)
    requires Shaped(p) && p.Mac? && i < 3
    requires a == Octet(p.value, p.mask, 5 - 2 * i) && b == Octet(p.value, p.mask, 4 - 2 * i)
    ensures AgreesAt(p, i, w) <==> Agrees(w as bv32, a, 0xFF) && Agrees((w as bv32) >> 8, b, 0xFF)
  {
  }

  lemma OctetIs(v: seq<bv8>, m: seq<bv8>, k: nat, p: bv8, pm: bv8)
    requires k < |v| && k < |m| && p == v[k] && pm == m[k]
    ensures Octet(v, m, k) == Bits(p as bv32, pm as bv32)
  {
  }

  lemma OctetsHitBits(w: Word16, v: seq<bv8>, m: seq<bv8>, i: nat, p: bv8, q: bv8, pm: bv8, qm: bv8,
      a: Bits, b: Bits, cell: Cell)
    requires |v| == |m| == 6 && i < 3 && cell.data == Octets(v, i) && cell.care == Octets(m, i)
    requires p == v[5 - 2 * i] && q == v[4 - 2 * i] && pm == m[5 - 2 * i] && qm == m[4 - 2 * i]
    requires a == Octet(v, m, 5 - 2 * i) && b == Octet(v, m, 4 - 2 * i)
    ensures Hits(w, cell) <==> Agrees(w as bv32, a, 0xFF) && Agrees((w as bv32) >> 8, b, 0xFF)
  {
    OctetIs(v, m, 5 - 2 * i, p, pm);
    OctetIs(v, m, 4 - 2 * i, q, qm);
    OctetsHit(w, v, m, i, p, q, pm, qm, cell);
  }

  lemma MacMeans(f: Field, i: nat, w: Word16, a: Bits, b: Bits, cell: Cell)
    requires ValidField(f) && i < |f.positions| && f.pattern.Mac? && cell == WordsAt(TrimmedField(f), i)
    requires a == Octet(f.pattern.value, f.pattern.mask, 5 - 2 * i)
    requires b == Octet(f.pattern.value, f.pattern.mask, 4 - 2 * i)
    ensures Hits(w, cell) <==> AgreesAt(f.pattern, i, w)
  {
    MacWords(f, i);
    MacAgrees(f.pattern, i, w, a, b);
    var (v, m) := (f.pattern.value, f.pattern.mask);
    OctetsHitBits(w, v, m, i, v[5 - 2 * i], v[4 - 2 * i], m[5 - 2 * i], m[4 - 2 * i], a, b, cell);
  }

  /** The number whose low sixteen bits stand at a position of a field made of whole words. */
  function Whole(p: Pattern, i: nat): Bits
    requires Shaped(p) && i < MaxPositions(p) && IsWhole(p)
  {
    match p
    case EtherType(b) => b
    case Ipv4Address(b) => Half(b.value, b.mask, i)
    case Ipv4Offset(b) => b
    case Ipv6Address(v, m) => if i < 2 then Half(v[0], m[0], i) else Half(v[3], m[3], i % 2)
    case Port(b) => b
    case IcmpCode(b) => b
    case PatternMatch(v, m) => Half(v[i / 2], m[i / 2], i % 2)
  }

  predicate IsWhole(p: Pattern) {
    p.EtherType? || p.Ipv4Address? || p.Ipv4Offset? || p.Ipv6Address? || p.Port? || p.IcmpCode? || p.PatternMatch?
  }

  lemma HalfLow(v: bv32, m: bv32, i: nat, b: Bits)
    requires i < 2 && b == Half(v, m, i)
    ensures HalfWord(v, i) == Low(b.value) && HalfWord(m, i) == Low(b.mask)
  {
  }

  lemma Ipv4Word(f: Field, i: nat, v: bv32, m: bv32, masks: bool)
    requires ValidField(f) && i < |f.positions| && f.pattern.Ipv4Address? && f.pattern.addr == Bits(v, m)
    ensures WordAt(f, i, masks) == HalfWord(if masks then m else v, i)
  {
  }

  lemma Ipv6Word(f: Field, i: nat, v: bv32, m: bv32, masks: bool)
    requires ValidField(f) && i < |f.positions| && f.pattern.Ipv6Address?
    requires v == f.pattern.value6[if i < 2 then 0 else 3] && m == f.pattern.mask6[if i < 2 then 0 else 3]
    ensures WordAt(f, i, masks) == HalfWord(if masks then m else v, i % 2)
  {
  }

  lemma PatternWord(f: Field, i: nat, v: bv32, m: bv32, masks: bool)
    requires ValidField(f) && i < |f.positions| && f.pattern.PatternMatch?
    requires v == f.pattern.value4[i / 2] && m == f.pattern.mask4[i / 2]
    ensures WordAt(f, i, masks) == HalfWord(if masks then m else v, i % 2)
  {
  }

  /** The long number whose half stands at position `i`. */
  function Long(p: Pattern, i: nat): Bits
    requires Shaped(p) && i < MaxPositions(p) && (p.Ipv4Address? || p.Ipv6Address? || p.PatternMatch?)
  {
    if p.Ipv4Address? then p.addr
    else if p.Ipv6Address? then Bits(p.value6[if i < 2 then 0 else 3], p.mask6[if i < 2 then 0 else 3])
    else Bits(p.value4[i / 2], p.mask4[i / 2])
  }

  lemma LongWord(f: Field, i: nat, v: bv32, m: bv32, masks: bool)
    requires ValidField(f) && i < |f.positions|
    requires f.pattern.Ipv4Address? || f.pattern.Ipv6Address? || f.pattern.PatternMatch?
    requires Bits(v, m) == Long(f.pattern, i)
    ensures WordAt(f, i, masks) == HalfWord(if masks then m else v, i % 2)
  {
    if f.pattern.Ipv4Address? {
      Ipv4Word(f, i, v, m, masks);
    } else if f.pattern.Ipv6Address? {
      Ipv6Word(f, i, v, m, masks);
    } else {
      PatternWord(f, i, v, m, masks);
    }
  }

  lemma LongHalf(p: Pattern, i: nat, v: bv32, m: bv32)
    requires Shaped(p) && i < MaxPositions(p) && (p.Ipv4Address? || p.Ipv6Address? || p.PatternMatch?)
    requires Bits(v, m) == Long(p, i)
    ensures Whole(p, i) == Half(v, m, i % 2)
  {
    if p.Ipv4Address? || (p.Ipv6Address? && i < 2) {
      assert i % 2 == i;
    }
  }

  lemma WholeWord(f: Field, i: nat, b: Bits, masks: bool)
    requires ValidField(f) && i < |f.positions| && IsWhole(f.pattern) && b == Whole(f.pattern, i)
    ensures WordAt(TrimmedField(f), i, masks) == Low(if masks then b.mask else b.value)
  {
    assert TrimmedField(f) == f;
    var p := f.pattern;
    if p.Ipv4Address? || p.Ipv6Address? || p.PatternMatch? {
      var long := Long(p, i);
      LongHalf(p, i, long.value, long.mask);
      LongWord(f, i, long.value, long.mask, masks);
      HalfLow(long.value, long.mask, i % 2, b);
    }
  }

  lemma WholeAgrees(p: Pattern, i: nat, b: Bits, w: Word16)
    requires Shaped(p) && i < MaxPositions(p) && IsWhole(p) && b == Whole(p, i)
    ensures AgreesAt(p, i, w) <==> Agrees(w as bv32, b, 0xFFFF)
  {
  }

  lemma WholeWordMeans(f: Field, i: nat, w: Word16, b: Bits, cell: Cell)
    requires ValidField(f) && i < |f.positions| && IsWhole(f.pattern)
    requires b == Whole(f.pattern, i) && cell == WordsAt(TrimmedField(f), i)
    ensures Hits(w, cell) <==> AgreesAt(f.pattern, i, w)
  {
    WholeWord(f, i, b, false);
    WholeWord(f, i, b, true);
    WholeAgrees(f.pattern, i, b, w);
    LowHits(w, b, cell);
  }

  lemma PlainMeans(f: Field, i: nat, w: Word16)
    requires ValidField(f) && i < |f.positions| && f.pattern.Plain?
    ensures Hits(w, WordsAt(TrimmedField(f), i)) <==> AgreesAt(f.pattern, i, w)
  {
    if i == 0 {
      LowHits(w, f.pattern.inData, WordsAt(TrimmedField(f), i));
    } else {
      CaresForNothing(w);
    }
  }

  lemma CaresForNothing(w: Word16)
    ensures Hits(w, Cell(0, 0))
  {
  }

  lemma ByteMeans(f: Field, i: nat, w: Word16)
    requires ValidField(f) && i < |f.positions| && f.pattern.Ipv4Byte?
    ensures Hits(w, WordsAt(TrimmedField(f), i)) <==> AgreesAt(f.pattern, i, w)
  {
    ByteHits(w, f.pattern.octet, WordsAt(TrimmedField(f), i));
  }

  lemma ClassMeans(f: Field, i: nat, w: Word16)
    requires ValidField(f) && i < |f.positions| && f.pattern.Ipv6TrafficClass?
    ensures Hits(w, WordsAt(TrimmedField(f), i)) <==> AgreesAt(f.pattern, i, w)
  {
    ClassHits(w, f.pattern.tc, WordsAt(TrimmedField(f), i));
  }

  function HighByte(p: Pattern): Bits
    requires p.Ipv6NextHeader? || p.IcmpType? || p.IgmpType?
  {
    if p.Ipv6NextHeader? then p.nh else if p.IcmpType? then p.icmp else p.igmp
  }

  lemma HighByteMeans(f: Field, i: nat, w: Word16)
    requires ValidField(f) && i < |f.positions|
    requires f.pattern.Ipv6NextHeader? || f.pattern.IcmpType? || f.pattern.IgmpType?
    ensures Hits(w, WordsAt(TrimmedField(f), i)) <==> AgreesAt(f.pattern, i, w)
  {
    HighByteHits(w, HighByte(f.pattern), WordsAt(TrimmedField(f), i));
  }

  /** With its operands trimmed, a field compiles to words that match what agrees with it. */
  lemma TrimmedMeans(f: Field, i: nat, w: Word16)
    requires ValidField(f) && i < |f.positions|
    ensures Hits(w, WordsAt(TrimmedField(f), i)) <==> AgreesAt(f.pattern, i, w)
  {
    var p := f.pattern;
    if IsWhole(p) {
      WholeWordMeans(f, i, w, Whole(p, i), WordsAt(TrimmedField(f), i));
    } else if p.Mac? {
      MacMeans(f, i, w, Octet(p.value, p.mask, 5 - 2 * i), Octet(p.value, p.mask, 4 - 2 * i),
               WordsAt(TrimmedField(f), i));
    } else if p.Tag? {
      TagMeans(f, i, w);
    } else if p.Ipv4Flag? {
      FlagsMean(f, i, w);
    } else if p.TcpFlag? {
      TcpFlagsMean(f, i, w);
    } else if p.Ipv4Byte? {
      ByteMeans(f, i, w);
    } else if p.Ipv6TrafficClass? {
      ClassMeans(f, i, w);
    } else if p.Plain? {
      PlainMeans(f, i, w);
    } else {
      HighByteMeans(f, i, w);
    }
  }

  // ---------------------------------------------------------------- operands wider than their header field

  ghost predicate SameMatch(a: Cell, b: Cell) { forall w: Word16 :: Hits(w, a) <==> Hits(w, b) }

  predicate SameCare(a: Cell, b: Cell) { a.care == b.care && a.data & a.care == b.data & a.care }

  lemma SameBits(w: Word16, d: Word16, e: Word16, c: Word16)
    requires d & c == e & c
    ensures Differing(w, d, c) == Differing(w, e, c)
  {
  }

  lemma SameCareMatches(a: Cell, b: Cell, w: Word16)
    requires SameCare(a, b)
    ensures Hits(w, a) <==> Hits(w, b)
  {
    SameBits(w, a.data, b.data, a.care);
  }

  /** Two words that pass the cell: its data, and its data with every uncared bit turned over. */
  lemma Probes(a: Cell, w: Word16)
    requires w == a.data ^ !a.care
    ensures Hits(a.data, a) && Hits(w, a)
  {
  }

  lemma ProbesTell(d: Word16, c: Word16, e: Word16, k: Word16, v: Word16, w: Word16)
    requires v == d ^ !c && w == e ^ !k
    requires (d ^ e) & k == 0 && (e ^ d) & c == 0 && (v ^ e) & k == 0 && (w ^ d) & c == 0
    ensures c == k && d & c == e & c
  {
  }

  lemma ProbesDecide(d: Word16, c: Word16, e: Word16, k: Word16, v: Word16, w: Word16)
    requires v == d ^ !c && w == e ^ !k
    requires Differing(d, e, k) == 0 && Differing(e, d, c) == 0 && Differing(v, e, k) == 0 && Differing(w, d, c) == 0
    ensures SameCare(Cell(d, c), Cell(e, k))
  {
    DifferingIs(d, e, k, 0);
    DifferingIs(e, d, c, 0);
    DifferingIs(v, e, k, 0);
    DifferingIs(w, d, c, 0);
    ProbesTell(d, c, e, k, v, w);
  }

  lemma Swapped(a: Cell, b: Cell, w: Word16)
    requires SameMatch(a, b)
    ensures Differing(w, a.data, a.care) == 0 <==> Differing(w, b.data, b.care) == 0
  {
    assert Hits(w, a) <==> Hits(w, b);
  }

  lemma SameMatchCares(d: Word16, c: Word16, e: Word16, k: Word16, v: Word16, w: Word16)
    requires SameMatch(Cell(d, c), Cell(e, k)) && v == d ^ !c && w == e ^ !k
    ensures SameCare(Cell(d, c), Cell(e, k))
  {
    Probes(Cell(d, c), v);
    Probes(Cell(e, k), w);
    Swapped(Cell(d, c), Cell(e, k), d);
    Swapped(Cell(d, c), Cell(e, k), e);
    Swapped(Cell(d, c), Cell(e, k), v);
    Swapped(Cell(d, c), Cell(e, k), w);
    ProbesDecide(d, c, e, k, v, w);
  }

  lemma SameMatchOnlyIf(a: Cell, b: Cell)
    requires SameMatch(a, b)
    ensures SameCare(a, b)
  {
    var (d, c, e, k) := (a.data, a.care, b.data, b.care);
    assert a == Cell(d, c) && b == Cell(e, k);
    SameMatchCares(d, c, e, k, d ^ !c, e ^ !k);
  }

  lemma SameMatchIf(a: Cell, b: Cell)
    requires SameCare(a, b)
    ensures SameMatch(a, b)
  {
    forall w: Word16
      ensures Hits(w, a) <==> Hits(w, b)
    {
      SameCareMatches(a, b, w);
    }
  }

  /** Two cells match the same words if and only if they care for the same bits and agree in these. */
  lemma SameMatchExact(a: Cell, b: Cell)
    ensures SameMatch(a, b) <==> SameCare(a, b)
  {
    if SameMatch(a, b) {
      SameMatchOnlyIf(a, b);
    } else if SameCare(a, b) {
      SameMatchIf(a, b);
    }
  }

  /** At position `i`, bits of operands that are too wide change nothing. */
  predicate SpillsNowhere(f: Field, i: nat)
    requires ValidField(f) && i < |f.positions|
  {
    SameCare(WordsAt(f, i), WordsAt(TrimmedField(f), i))
  }

  /**
  The words of a field match exactly what agrees with it, if and only if no operand that is
  wider than its header field spills into bits that matter.
  */
  lemma FieldMeansExact(f: Field, i: nat)
    requires ValidField(f) && i < |f.positions|
    ensures Means(f, i, WordsAt(f, i)) <==> SpillsNowhere(f, i)
  {
    SameMatchExact(WordsAt(f, i), WordsAt(TrimmedField(f), i));
    forall w: Word16
      ensures Hits(w, WordsAt(TrimmedField(f), i)) <==> AgreesAt(f.pattern, i, w)
    {
      TrimmedMeans(f, i, w);
    }
    MeansTwice(f, i, WordsAt(f, i), WordsAt(TrimmedField(f), i));
  }

  /** The cell matches exactly the words that agree with the field at position `i`. */
  ghost predicate Means(f: Field, i: nat, c: Cell)
    requires ValidField(f) && i < |f.positions|
  {
    forall w: Word16 :: Hits(w, c) <==> AgreesAt(f.pattern, i, w)
  }

  lemma MeansTwice(f: Field, i: nat, a: Cell, b: Cell)
    requires ValidField(f) && i < |f.positions| && Means(f, i, b)
    ensures Means(f, i, a) <==> SameMatch(a, b)
  {
    if Means(f, i, a) {
      forall w: Word16
        ensures Hits(w, a) <==> Hits(w, b)
      {
        assert Hits(w, a) <==> AgreesAt(f.pattern, i, w);
        assert Hits(w, b) <==> AgreesAt(f.pattern, i, w);
      }
    }
    if SameMatch(a, b) {
      forall w: Word16
        ensures Hits(w, a) <==> AgreesAt(f.pattern, i, w)
      {
        assert Hits(w, a) <==> Hits(w, b);
      }
    }
  }

  /** Only these three patterns put several operands into one word. */
  predicate InWidth(p: Pattern) { Trimmed(p) == p }

  lemma InWidthSpillsNowhere(f: Field, i: nat)
    requires ValidField(f) && i < |f.positions| && InWidth(f.pattern)
    ensures SpillsNowhere(f, i)
  {
  }

  /** VLAN identifier 0x1000 is taken for a set format indicator. */
  lemma TagSpills()
    ensures var f := Field([0x43], Tag(Bits(0, 0), Bits(0, 1), Bits(0x1000, 0xFFF)));
      ValidField(f) && !SpillsNowhere(f, 0)
  {
    var f := Field([0x43], Tag(Bits(0, 0), Bits(0, 1), Bits(0x1000, 0xFFF)));
    assert f.positions == [0x43];
    assert WordsAt(f, 0).data & WordsAt(f, 0).care == 0x1000;
  }

  // ---------------------------------------------------------------- lists of fields

  /** The cell of a template position. */
  function CellIndex(position: nat): nat { position / 16 % 16 * 8 + position % 16 }

  lemma CellIndexIs(f: Field, i: nat)
    requires ValidField(f) && i < |f.positions|
    ensures PokeAt(f, i).cell == CellIndex(f.positions[i]) < TEMPLATES * WORDS
  {
  }

  /** The packet shows the field, at each of its positions, a word that its own words match. */
  predicate FieldHits(f: Field, packet: seq<Word16>)
    requires ValidField(f) && |packet| == TEMPLATES * WORDS
  {
    forall i :: 0 <= i < |f.positions| ==> Hits(packet[PokeAt(f, i).cell], WordsAt(f, i))
  }

  /** The bits of a poke lie outside those that a later poke of the same cell sets or clears. */
  predicate Spares(p: Poke, q: Poke) {
    p.cell == q.cell ==> (p.data | p.care) & (q.data | q.care | !q.keep) == 0
  }

  predicate Undisturbed(f: Field, g: Field)
    requires ValidField(f) && ValidField(g)
  {
    forall i, j :: 0 <= i < |f.positions| && 0 <= j < |g.positions| ==> Spares(PokeAt(f, i), PokeAt(g, j))
  }

  /** Nothing that is in the cells of `f` is set or cleared by it. */
  predicate Clear(r: Rules, f: Field)
    requires r.Sized() && ValidField(f)
  {
    forall i :: 0 <= i < |f.positions| ==> ClearAt(r.cells[PokeAt(f, i).cell], PokeAt(f, i))
  }

  predicate ClearAt(c: Cell, p: Poke) { (c.data | c.care) & (p.data | p.care | !p.keep) == 0 }

  /** A poke on bits that it may use adds exactly its own demands. */
  lemma PokedDiffers(w: Word16, od: Word16, oc: Word16, d: Word16, c: Word16, k: Word16)
    requires (od | oc) & (d | c | !k) == 0
    ensures (w ^ ((od & k) | d)) & ((oc & k) | c) == ((w ^ od) & oc) | ((w ^ d) & c)
  {
  }

  lemma OrZero(x: Word16, y: Word16)
    ensures x | y == 0 <==> x == 0 && y == 0
  {
  }

  lemma PokedNamed(w: Word16, od: Word16, oc: Word16, d: Word16, c: Word16, k: Word16,
      nd: Word16, nc: Word16, u: Word16, x: Word16, y: Word16)
    requires (od | oc) & (d | c | !k) == 0 && nd == Merge(od, k, d) && nc == Merge(oc, k, c)
    requires u == Differing(w, nd, nc) && x == Differing(w, od, oc) && y == Differing(w, d, c)
    ensures u == 0 <==> x == 0 && y == 0
  {
    DifferingIs(w, nd, nc, u);
    DifferingIs(w, od, oc, x);
    DifferingIs(w, d, c, y);
    PokedDiffers(w, od, oc, d, c, k);
    OrZero(x, y);
  }

  lemma PokedHits(w: Word16, was: Cell, p: Poke)
    requires ClearAt(was, p)
    ensures Hits(w, Poked(was, p)) <==> Hits(w, was) && Hits(w, Cell(p.data, p.care))
  {
    PokedNamed(w, was.data, was.care, p.data, p.care, p.keep, Poked(was, p).data, Poked(was, p).care,
      Differing(w, Poked(was, p).data, Poked(was, p).care), Differing(w, was.data, was.care),
      Differing(w, p.data, p.care));
  }

  /** A poke keeps what a third one spares. */
  lemma PokedSpares(od: Word16, oc: Word16, d: Word16, c: Word16, k: Word16, claim: Word16, nd: Word16, nc: Word16)
    requires (od | oc) & claim == 0 && (d | c) & claim == 0 && nd == Merge(od, k, d) && nc == Merge(oc, k, c)
    ensures (nd | nc) & claim == 0
  {
  }

  lemma PokedClear(was: Cell, p: Poke, q: Poke)
    requires ClearAt(was, q) && Spares(p, q) && p.cell == q.cell
    ensures ClearAt(Poked(was, p), q)
  {
    PokedSpares(was.data, was.care, p.data, p.care, p.keep, q.data | q.care | !q.keep,
      Poked(was, p).data, Poked(was, p).care);
  }

  /** What one more field does to a cell: a poke if it has the cell, nothing if not. */
  lemma AppliedCell(r: Rules, f: Field, c: nat) returns (i: int)
    requires r.Sized() && ValidField(f) && DistinctCells(f) && c < TEMPLATES * WORDS
    ensures -1 <= i < |f.positions|
    ensures i >= 0 ==> PokeAt(f, i).cell == c && Applied(r, f).cells[c] == Poked(r.cells[c], PokeAt(f, i))
    ensures i < 0 ==> Applied(r, f).cells[c] == r.cells[c]
    ensures i < 0 ==> forall j :: 0 <= j < |f.positions| ==> PokeAt(f, j).cell != c
  {
    if j :| 0 <= j < |f.positions| && PokeAt(f, j).cell == c {
      i := j;
      assert Pokes(f)[j] == PokeAt(f, j);
      CellAfter(r.cells, Pokes(f), j);
    } else {
      i := -1;
      Untouched(r.cells, Pokes(f), c);
    }
  }

  lemma OnlyPosition(f: Field, i: nat)
    requires ValidField(f) && DistinctCells(f) && i < |f.positions|
    ensures forall j :: 0 <= j < |f.positions| && PokeAt(f, j).cell == PokeAt(f, i).cell ==> j == i
  {
  }

  lemma PokeIsWords(f: Field, i: nat)
    requires ValidField(f) && i < |f.positions|
    ensures Cell(PokeAt(f, i).data, PokeAt(f, i).care) == WordsAt(f, i)
  {
  }

  lemma AppliedHitsAt(r: Rules, f: Field, c: nat, w: Word16)
    requires r.Sized() && ValidField(f) && DistinctCells(f) && c < TEMPLATES * WORDS && Clear(r, f)
    ensures Hits(w, Applied(r, f).cells[c]) <==>
              && Hits(w, r.cells[c])
              && forall i :: 0 <= i < |f.positions| && PokeAt(f, i).cell == c ==> Hits(w, WordsAt(f, i))
  {
    var i := AppliedCell(r, f, c);
    if i >= 0 {
      OnlyPosition(f, i);
      PokedHits(w, r.cells[c], PokeAt(f, i));
      PokeIsWords(f, i);
    }
  }

  lemma AppliedHits(r: Rules, f: Field, packet: seq<Word16>)
    requires r.Sized() && ValidField(f) && DistinctCells(f) && Clear(r, f) && |packet| == TEMPLATES * WORDS
    ensures AllHit(packet, Applied(r, f)) <==> AllHit(packet, r) && FieldHits(f, packet)
  {
    forall c | 0 <= c < TEMPLATES * WORDS
      ensures Hits(packet[c], Applied(r, f).cells[c]) <==>
                && Hits(packet[c], r.cells[c])
                && forall i :: 0 <= i < |f.positions| && PokeAt(f, i).cell == c ==> Hits(packet[c], WordsAt(f, i))
    {
      AppliedHitsAt(r, f, c, packet[c]);
    }
    if AllHit(packet, Applied(r, f)) {
      forall i | 0 <= i < |f.positions|
        ensures Hits(packet[PokeAt(f, i).cell], WordsAt(f, i))
      {
        assert Hits(packet[PokeAt(f, i).cell], Applied(r, f).cells[PokeAt(f, i).cell]);
      }
    }
  }

  lemma ClearAfter(r: Rules, f: Field, g: Field)
    requires r.Sized() && ValidField(f) && ValidField(g) && DistinctCells(f) && Clear(r, g) && Undisturbed(f, g)
    ensures Clear(Applied(r, f), g)
  {
    forall j | 0 <= j < |g.positions|
      ensures ClearAt(Applied(r, f).cells[PokeAt(g, j).cell], PokeAt(g, j))
    {
      var q := PokeAt(g, j);
      var i := AppliedCell(r, f, q.cell);
      assert ClearAt(r.cells[q.cell], q);
      if i >= 0 {
        PokedClear(r.cells[q.cell], PokeAt(f, i), q);
      }
    }
  }

  /** Each field has its cells, and no bit of it is set or cleared by a later one. */
  predicate Orderly(fs: seq<Field>) {
    && AllValid(fs)
    && (forall i :: 0 <= i < |fs| ==> fs[i] in fs && DistinctCells(fs[i]))
    && forall i, j :: 0 <= i < j < |fs| ==> Undisturbed(fs[i], fs[j])
  }

  lemma OrderlyTail(fs: seq<Field>)
    requires Orderly(fs) && fs != []
    ensures Orderly(fs[1..]) && forall i :: 0 <= i < |fs| - 1 ==> Undisturbed(fs[0], fs[1..][i])
  {
    forall i | 0 <= i < |fs| - 1
      ensures fs[1..][i] in fs[1..] && DistinctCells(fs[1..][i])
    {
      assert fs[1..][i] == fs[i + 1];
    }
  }

  lemma {:induction false} CompiledHits(r: Rules, fs: seq<Field>, packet: seq<Word16>)
    requires r.Sized() && Orderly(fs) && |packet| == TEMPLATES * WORDS
    requires forall i :: 0 <= i < |fs| ==> Clear(r, fs[i])
    ensures AllHit(packet, Compile(r, fs)) <==>
              AllHit(packet, r) && forall i :: 0 <= i < |fs| ==> FieldHits(fs[i], packet)
    decreases |fs|
  {
    if fs == [] {
      assert Compile(r, fs) == r;
    } else {
      var f, rest := fs[0], fs[1..];
      OrderlyTail(fs);
      AppliedHits(r, f, packet);
      forall i | 0 <= i < |rest|
        ensures Clear(Applied(r, f), rest[i])
      {
        ClearAfter(r, f, rest[i]);
      }
      CompiledHits(Applied(r, f), rest, packet);
      assert Compile(r, fs) == Compile(Applied(r, f), rest);
      assert forall i :: 0 < i < |fs| ==> fs[i] == rest[i - 1];
      assert forall i :: 0 <= i < |rest| ==> rest[i] == fs[i + 1];
    }
  }

  lemma SplitSpares(a: Word16, b: Word16, keepA: Word16, c: Word16, d: Word16, keepC: Word16)
    requires keepC == !keepA && a & keepA == 0 && b & keepA == 0 && c & keepC == 0 && d & keepC == 0
    ensures (a | b) & (c | d | !keepC) == 0 && (c | d) & (a | b | !keepA) == 0
  {
  }

  lemma SplitUndisturbed(f: Field, g: Field)
    requires ValidField(f) && ValidField(g) && SplitsWord(f, g)
    ensures Undisturbed(f, g) && Undisturbed(g, f)
  {
    var (p, q) := (f.pattern, g.pattern);
    if p.Ipv4Flag? {
      FlagBits(p.xf.value, p.df.value, p.mf.value);
      FlagBits(p.xf.mask, p.df.mask, p.mf.mask);
      OffsetBits(q.offset.value);
      OffsetBits(q.offset.mask);
      FlagPokes(f, g);
      SplitSpares(FlagWord(p.xf.value, p.df.value, p.mf.value), FlagWord(p.xf.mask, p.df.mask, p.mf.mask), 0x1FFF,
        Low(q.offset.value), Low(q.offset.mask), 0xE000);
    } else {
      TypeBits(p.icmp.value);
      TypeBits(p.icmp.mask);
      CodeBits(q.code.value);
      CodeBits(q.code.mask);
      TypePokes(f, g);
      SplitSpares(TypeWord(p.icmp.value), TypeWord(p.icmp.mask), 0x00FF, Low(q.code.value), Low(q.code.mask), 0xFF00);
    }
  }

  lemma MixUndisturbed(f: Field, g: Field)
    requires ValidField(f) && ValidField(g) && MayMix(f, g)
    ensures Undisturbed(f, g)
  {
    if SplitsWord(f, g) {
      SplitUndisturbed(f, g);
    } else if SplitsWord(g, f) {
      SplitUndisturbed(g, f);
    }
  }

  lemma BlankIsClear(f: Field)
    requires ValidField(f)
    ensures Clear(BLANK, f)
  {
    forall p: Poke
      ensures ClearAt(Cell(0, 0), p)
    {
      NothingIsClear(p);
    }
  }

  lemma NothingIsClear(p: Poke)
    ensures ClearAt(Cell(0, 0), p)
  {
  }

  lemma BlankHits(packet: seq<Word16>)
    requires |packet| == TEMPLATES * WORDS
    ensures AllHit(packet, BLANK)
  {
    forall w: Word16
      ensures Hits(w, Cell(0, 0))
    {
      CaresForNothing(w);
    }
  }

  /** The packet shows, at position `i`, a word that agrees with the field. */
  predicate WordAgrees(f: Field, i: nat, packet: seq<Word16>)
    requires ValidField(f) && i < |f.positions| && |packet| == TEMPLATES * WORDS
  {
    CellIndexIs(f, i);
    AgreesAt(f.pattern, i, packet[CellIndex(f.positions[i])])
  }

  /** The packet agrees with the field at all its positions. */
  predicate FieldAgrees(f: Field, packet: seq<Word16>)
    requires ValidField(f) && |packet| == TEMPLATES * WORDS
  {
    forall i :: 0 <= i < |f.positions| ==> WordAgrees(f, i, packet)
  }

  lemma FieldHitsAgrees(f: Field, packet: seq<Word16>)
    requires ValidField(f) && |packet| == TEMPLATES * WORDS
    requires forall i :: 0 <= i < |f.positions| ==> SpillsNowhere(f, i)
    ensures FieldHits(f, packet) <==> FieldAgrees(f, packet)
  {
    forall i | 0 <= i < |f.positions|
      ensures Hits(packet[PokeAt(f, i).cell], WordsAt(f, i)) <==> WordAgrees(f, i, packet)
    {
      FieldMeansExact(f, i);
      CellIndexIs(f, i);
      assert Means(f, i, WordsAt(f, i));
    }
  }

  /**
  A list of fields on words of their own, or sharing a word in the two ways that go together,
  compiles to rules that match exactly the packets that agree with every field.
  */
  lemma FilterMeans(fs: seq<Field>, packet: seq<Word16>)
    requires AllValid(fs) && |packet| == TEMPLATES * WORDS
    requires forall i :: 0 <= i < |fs| ==> fs[i] in fs && DistinctCells(fs[i])
    requires forall i, j :: 0 <= i < j < |fs| ==> MayMix(fs[i], fs[j])
    requires forall i, k :: 0 <= i < |fs| && 0 <= k < |fs[i].positions| ==> SpillsNowhere(fs[i], k)
    ensures AllHit(packet, Compile(BLANK, fs)) <==> forall i :: 0 <= i < |fs| ==> FieldAgrees(fs[i], packet)
  {
    forall i, j | 0 <= i < j < |fs|
      ensures Undisturbed(fs[i], fs[j])
    {
      MixUndisturbed(fs[i], fs[j]);
    }
    forall i | 0 <= i < |fs|
      ensures Clear(BLANK, fs[i]) && (FieldHits(fs[i], packet) <==> FieldAgrees(fs[i], packet))
    {
      BlankIsClear(fs[i]);
      FieldHitsAgrees(fs[i], packet);
    }
    BlankHits(packet);
    CompiledHits(BLANK, fs, packet);
  }

  /** A template takes part if and only if some field has a position in it. */
  lemma {:induction false} TemplatesTakePart(r: Rules, fs: seq<Field>, t: nat)
    requires r.Sized() && AllValid(fs) && t < TEMPLATES
    ensures Compile(r, fs).valid[t] <==>
              || r.valid[t]
              || exists i, k :: 0 <= i < |fs| && 0 <= k < |fs[i].positions| && fs[i].positions[k] / 16 % 16 == t
    decreases |fs|
  {
    if fs == [] {
      assert Compile(r, fs) == r;
    } else {
      var f, rest := fs[0], fs[1..];
      assert forall g :: g in rest ==> g in fs;
      TemplatesTakePart(Applied(r, f), rest, t);
      assert Compile(r, fs) == Compile(Applied(r, f), rest);
      assert Marks(f, t) <==> exists k :: 0 <= k < |f.positions| && f.positions[k] / 16 % 16 == t by {
        if Marks(f, t) {
          var p :| p in f.positions && TemplateOf(p) == t;
          var k :| 0 <= k < |f.positions| && f.positions[k] == p;
        } else {
          assert forall k :: 0 <= k < |f.positions| ==> f.positions[k] in f.positions;
        }
      }
      assert forall i :: 0 <= i < |rest| ==> rest[i] == fs[i + 1];
      assert forall i :: 0 < i < |fs| ==> fs[i] == rest[i - 1];
    }
  }

  /** Two words agree with the halves of a number exactly if together they agree with the number. */
  lemma HalvesAgree(low: Word16, high: Word16, b: Bits)
    ensures Agrees(low as bv32, Half(b.value, b.mask, 0), 0xFFFF)
            && Agrees(high as bv32, Half(b.value, b.mask, 1), 0xFFFF)
            <==> Agrees(((high as bv32) << 16) | (low as bv32), b, 0xFFFF_FFFF)
  {
  }
}
