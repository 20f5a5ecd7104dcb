/**
From match fields to hardware rules (RTL8370MB/API/acl.c). Each field of the linked list
pokes 16-bit words into up to five rule templates of eight words; some pokes merge with what
is there. The question is whether the order of the list shows in the result.
*/
module AclFields {

  const TEMPLATES := 5
  const WORDS := 8
  const FIELD_END := 43

  type Word16 = bv16

  /** A value to compare with and the bits to care about. */
  datatype Bits = Bits(value: bv32, mask: bv32)

  /** The members of the pattern union, grouped by how the compiler treats them. */
  datatype Pattern =
    | Mac(value: seq<bv8>, mask: seq<bv8>)
    | EtherType(word: Bits)
    | Tag(pri: Bits, cfi: Bits, vid: Bits)
    | Ipv4Address(addr: Bits)
    | Ipv4Byte(octet: Bits)          // TOS and protocol
    | Ipv4Flag(xf: Bits, df: Bits, mf: Bits)
    | Ipv4Offset(offset: Bits)
    | Ipv6Address(value6: seq<bv32>, mask6: seq<bv32>)
    | Ipv6TrafficClass(tc: Bits)
    | Ipv6NextHeader(nh: Bits)
    | Port(port: Bits)               // TCP and UDP, source and destination
    | TcpFlag(cwr: Bits, ece: Bits, urg: Bits, ack: Bits, psh: Bits, rst: Bits, syn: Bits, fin: Bits)
    | IcmpCode(code: Bits)
    | IcmpType(icmp: Bits)
    | IgmpType(igmp: Bits)
    | PatternMatch(value4: seq<bv32>, mask4: seq<bv32>)
    | Plain(inData: Bits)            // ranges and user-defined fields: first position only

  /** A field with its template positions: word in the lowest nibble, template number in the next one. */
  datatype Field = Field(positions: seq<nat>, pattern: Pattern)

  datatype Cell = Cell(data: Word16, care: Word16)

  /** The five templates side by side: word k of template t is cell 8 t + k. */
  datatype Rules = Rules(cells: seq<Cell>, valid: seq<bool>) {
    predicate Sized() { |cells| == TEMPLATES * WORDS && |valid| == TEMPLATES }
  }

  function Blank(): (r: Rules)
    ensures r.Sized()
  {
    Rules(seq(TEMPLATES * WORDS, _ => Cell(0, 0)), seq(TEMPLATES, _ => false))
  }

  const BLANK := Blank()

  function Low(x: bv32): Word16 { (x & 0xFFFF) as bv16 }

  /** The positions the pattern has data for. */
  function MaxPositions(p: Pattern): nat {
    match p
    case Mac(_, _) => 3
    case Ipv4Address(_) => 2
    case _ => 8
  }

  /** The arrays of the pattern union have their fixed sizes. */
  predicate Shaped(p: Pattern) {
    && (p.Mac? ==> |p.value| == |p.mask| == 6)
    && (p.Ipv6Address? ==> |p.value6| == |p.mask6| == 4)
    && (p.PatternMatch? ==> |p.value4| == |p.mask4| == 4)
  }

  function TemplateOf(position: nat): nat { position / 16 % 16 }

  predicate InTemplates(position: nat) { TemplateOf(position) < TEMPLATES && position % 16 < WORDS }

  /** Every word the field reads or writes exists, and so does every bit it shifts out. */
  predicate ValidField(f: Field) {
    && 0 < |f.positions| <= MaxPositions(f.pattern)
    && (forall p :: p in f.positions ==> InTemplates(p))
    && Shaped(f.pattern)
  }

  /**
  What compiling a field that is not valid does: use an array past its end, or shift a 32-bit
  address by 32 bits.
  */
  datatype Defect = Sound | PastArray | ShiftTooFar

  function DefectOf(f: Field): Defect {
    if (exists p :: p in f.positions && !InTemplates(p)) || |f.positions| > (if f.pattern.Mac? then 3 else 8) then
      PastArray
    else if f.pattern.Ipv4Address? && |f.positions| > 2 then ShiftTooFar
    else Sound
  }

  lemma SoundIsValid(f: Field)
    requires f.positions != [] && Shaped(f.pattern)
    ensures ValidField(f) <==> DefectOf(f).Sound?
  {
  }

  function CellOf(position: nat): (c: nat)
    requires InTemplates(position)
    ensures c < TEMPLATES * WORDS
  {
    TemplateOf(position) * WORDS + position % 16
  }

  /** The bits of the old word that a field keeps. */
  function Keep(p: Pattern): Word16 {
    match p
    case Ipv4Flag(_, _, _) => 0x1FFF
    case Ipv4Offset(_) => 0xE000
    case TcpFlag(_, _, _, _, _, _, _, _) => 0xFFFF
    case IcmpCode(_) => 0xFF00
    case IcmpType(_) => 0x00FF
    case _ => 0
  }

  function Octets(o: seq<bv8>, i: nat): Word16
    requires |o| == 6 && i < 3
  {
    (o[5 - 2 * i] as bv16) | ((o[4 - 2 * i] as bv16) << 8)
  }

  /** Half `i` (0 low, 1 high) of a 32-bit word. */
  function HalfWord(x: bv32, i: nat): Word16
    requires i < 2
  {
    if i == 0 then Low(x) else Low(x >> 16)
  }

  /** The word a field puts at its i-th position, from its values or from its masks. */
  function WordAt(f: Field, i: nat, masks: bool): Word16
    requires ValidField(f) && i < |f.positions|
  {
    var pick := (b: Bits) => if masks then b.mask else b.value;
    match f.pattern
    case Mac(v, m) => Octets(if masks then m else v, i)
    case EtherType(b) => Low(pick(b))
    case Tag(pri, cfi, vid) => Low((pick(pri) << 13) | (pick(cfi) << 12) | pick(vid))
    case Ipv4Address(b) => HalfWord(pick(b), i)
    case Ipv4Byte(b) => Low(pick(b) & 0xFF)
    case Ipv4Flag(xf, df, mf) => Low((pick(xf) << 15) | (pick(df) << 14) | (pick(mf) << 13))
    case Ipv4Offset(b) => Low(pick(b))
    case Ipv6Address(v, m) =>
      var a := if masks then m else v; if i < 2 then HalfWord(a[0], i) else HalfWord(a[3], i % 2)
    case Ipv6TrafficClass(b) => Low((pick(b) << 4) & 0x0FF0)
    case Ipv6NextHeader(b) => Low(pick(b) << 8)
    case Port(b) => Low(pick(b))
    case TcpFlag(cwr, ece, urg, ack, psh, rst, syn, fin) =>
      Low((pick(cwr) << 7) | (pick(ece) << 6) | (pick(urg) << 5) | (pick(ack) << 4)
          | (pick(psh) << 3) | (pick(rst) << 2) | (pick(syn) << 1) | pick(fin))
    case IcmpCode(b) => Low(pick(b))
    case IcmpType(b) => Low(pick(b) << 8)
    case IgmpType(b) => Low(pick(b) << 8)
    case PatternMatch(v, m) => HalfWord((if masks then m else v)[i / 2], i % 2)
    case Plain(b) => if i == 0 then Low(pick(b)) else 0
  }

  /** One read-modify-write of a cell. */
  datatype Poke = Poke(cell: nat, keep: Word16, data: Word16, care: Word16)

  function Poked(c: Cell, p: Poke): Cell {
    Cell(Merge(c.data, p.keep, p.data), Merge(c.care, p.keep, p.care))
  }

  function Merge(word: Word16, keep: Word16, bits: Word16): Word16 { (word & keep) | bits }

  /** The i-th poke of a field; a Plain field leaves its later positions alone. */
  function PokeAt(f: Field, i: nat): (p: Poke)
    requires ValidField(f) && i < |f.positions|
    ensures p.cell < TEMPLATES * WORDS
  {
    assert f.positions[i] in f.positions;
    var keep := if f.pattern.Plain? && i > 0 then 0xFFFF else Keep(f.pattern);
    Poke(CellOf(f.positions[i]), keep, WordAt(f, i, false), WordAt(f, i, true))
  }

  function Pokes(f: Field): (ps: seq<Poke>)
    requires ValidField(f)
    ensures |ps| == |f.positions| && forall p :: p in ps ==> p.cell < TEMPLATES * WORDS
  {
    seq(|f.positions|, i requires 0 <= i < |f.positions| => PokeAt(f, i))
  }

  function RunPokes(cells: seq<Cell>, ps: seq<Poke>): (r: seq<Cell>)
    requires forall p :: p in ps ==> p.cell < |cells|
    ensures |r| == |cells|
    decreases |ps|
  {
    if ps == [] then cells
    else
      assert forall p :: p in ps[..|ps| - 1] ==> p in ps;
      var before := RunPokes(cells, ps[..|ps| - 1]);
      var last := ps[|ps| - 1];
      before[last.cell := Poked(before[last.cell], last)]
  }

  predicate Marks(f: Field, t: nat) {
    exists p :: p in f.positions && TemplateOf(p) == t
  }

  /** One field compiled into the rules. */
  function Applied(r: Rules, f: Field): (s: Rules)
    requires r.Sized() && ValidField(f)
    ensures s.Sized()
  {
    Rules(RunPokes(r.cells, Pokes(f)), seq(TEMPLATES, t requires 0 <= t < TEMPLATES => r.valid[t] || Marks(f, t)))
  }

  predicate AllValid(fs: seq<Field>) {
    forall f :: f in fs ==> ValidField(f)
  }

  /** The whole list, in order. */
  function Compile(r: Rules, fs: seq<Field>): (s: Rules)
    requires r.Sized() && AllValid(fs)
    ensures s.Sized()
    decreases |fs|
  {
    if fs == [] then r
    else
      assert forall f :: f in fs[1..] ==> f in fs;
      Compile(Applied(r, fs[0]), fs[1..])
  }

  // ---------------------------------------------------------------- commuting pokes

  /** The two pokes of one cell give the same word in either order, whatever was there. */
  predicate PokesCommute(p: Poke, q: Poke) {
    p.cell == q.cell ==>
      && Merge(p.data, q.keep, q.data) == Merge(q.data, p.keep, p.data)
      && Merge(p.care, q.keep, q.care) == Merge(q.care, p.keep, p.care)
  }

  lemma MergeTwice(x: Word16, k1: Word16, b1: Word16, k2: Word16, b2: Word16)
    ensures Merge(Merge(x, k1, b1), k2, b2) == Merge(x, k1 & k2, Merge(b1, k2, b2))
    ensures k1 & k2 == k2 & k1
  {
  }

  lemma MergeCommutes(x: Word16, k1: Word16, b1: Word16, k2: Word16, b2: Word16)
    requires Merge(b1, k2, b2) == Merge(b2, k1, b1)
    ensures Merge(Merge(x, k1, b1), k2, b2) == Merge(Merge(x, k2, b2), k1, b1)
  {
    MergeTwice(x, k1, b1, k2, b2);
    MergeTwice(x, k2, b2, k1, b1);
  }

  lemma PokedTwice(c: Cell, p: Poke, q: Poke)
    requires p.cell == q.cell && PokesCommute(p, q)
    ensures Poked(Poked(c, p), q) == Poked(Poked(c, q), p)
  {
    MergeCommutes(c.data, p.keep, p.data, q.keep, q.data);
    MergeCommutes(c.care, p.keep, p.care, q.keep, q.care);
  }

  function PokeOne(cells: seq<Cell>, p: Poke): (r: seq<Cell>)
    requires p.cell < |cells|
    ensures |r| == |cells|
  {
    cells[p.cell := Poked(cells[p.cell], p)]
  }

  lemma PokeOneTwice(cells: seq<Cell>, p: Poke, q: Poke)
    requires p.cell < |cells| && q.cell < |cells| && PokesCommute(p, q)
    ensures PokeOne(PokeOne(cells, p), q) == PokeOne(PokeOne(cells, q), p)
  {
    if p.cell == q.cell {
      PokedTwice(cells[p.cell], p, q);
    }
  }

  predicate InRange(ps: seq<Poke>, size: nat) {
    forall p :: p in ps ==> p.cell < size
  }

  lemma {:induction false} PokePastList(cells: seq<Cell>, p: Poke, qs: seq<Poke>)
    requires p.cell < |cells| && InRange(qs, |cells|)
    requires forall q :: q in qs ==> PokesCommute(p, q)
    ensures RunPokes(PokeOne(cells, p), qs) == PokeOne(RunPokes(cells, qs), p)
    decreases |qs|
  {
    if qs == [] {
    } else {
      var front, last := qs[..|qs| - 1], qs[|qs| - 1];
      assert forall q :: q in front ==> q in qs;
      PokePastList(cells, p, front);
      PokeOneTwice(RunPokes(cells, front), p, last);
    }
  }

  lemma {:induction false} ListsCommute(cells: seq<Cell>, ps: seq<Poke>, qs: seq<Poke>)
    requires InRange(ps, |cells|) && InRange(qs, |cells|)
    requires forall p, q :: p in ps && q in qs ==> PokesCommute(p, q)
    ensures RunPokes(RunPokes(cells, ps), qs) == RunPokes(RunPokes(cells, qs), ps)
    decreases |ps|
  {
    if ps == [] {
    } else {
      var front, last := ps[..|ps| - 1], ps[|ps| - 1];
      assert forall p :: p in front ==> p in ps;
      ListsCommute(cells, front, qs);
      PokePastList(RunPokes(cells, front), last, qs);
    }
  }

  // ---------------------------------------------------------------- order of the list

  /** Two fields compile alike in either order. */
  ghost predicate Compatible(f: Field, g: Field)
    requires ValidField(f) && ValidField(g)
  {
    forall p, q :: p in Pokes(f) && q in Pokes(g) ==> PokesCommute(p, q)
  }

  lemma FieldsCommute(r: Rules, f: Field, g: Field)
    requires r.Sized() && ValidField(f) && ValidField(g) && Compatible(f, g)
    ensures Applied(Applied(r, f), g) == Applied(Applied(r, g), f)
  {
    ListsCommute(r.cells, Pokes(f), Pokes(g));
    assert Applied(Applied(r, f), g).valid == Applied(Applied(r, g), f).valid;
  }

  ghost predicate PairwiseCompatible(fs: seq<Field>)
    requires AllValid(fs)
  {
    forall i, j :: 0 <= i < j < |fs| ==> fs[i] in fs && fs[j] in fs && Compatible(fs[i], fs[j])
  }

  lemma CompileCons(r: Rules, x: Field, rest: seq<Field>)
    requires r.Sized() && AllValid([x] + rest)
    ensures ValidField(x) && AllValid(rest)
    ensures Compile(r, [x] + rest) == Compile(Applied(r, x), rest)
  {
    assert ([x] + rest)[0] == x && ([x] + rest)[1..] == rest;
    forall f | f in rest
      ensures f in [x] + rest
    {
    }
  }

  lemma PairwiseTail(x: Field, rest: seq<Field>)
    requires AllValid([x] + rest) && PairwiseCompatible([x] + rest)
    ensures AllValid(rest) && PairwiseCompatible(rest)
    ensures forall i :: 0 <= i < |rest| ==> ValidField(rest[i]) && Compatible(x, rest[i])
  {
    var all := [x] + rest;
    forall i | 0 <= i < |rest|
      ensures rest[i] in all && Compatible(x, rest[i])
    {
      assert rest[i] == all[i + 1] && all[0] == x;
    }
    forall i, j | 0 <= i < j < |rest|
      ensures Compatible(rest[i], rest[j])
    {
      assert rest[i] == all[i + 1] && rest[j] == all[j + 1];
    }
  }

  lemma SwapFirstTwo(r: Rules, x: Field, y: Field, rest: seq<Field>)
    requires r.Sized() && ValidField(x) && ValidField(y) && AllValid(rest) && Compatible(x, y)
    ensures AllValid([x] + ([y] + rest)) && AllValid([y] + ([x] + rest))
    ensures Compile(r, [x] + ([y] + rest)) == Compile(r, [y] + ([x] + rest))
  {
    FieldsCommute(r, x, y);
    CompileCons(r, x, [y] + rest);
    CompileCons(Applied(r, x), y, rest);
    CompileCons(r, y, [x] + rest);
    CompileCons(Applied(r, y), x, rest);
  }

  lemma {:induction false} MoveToFront(r: Rules, front: seq<Field>, x: Field, back: seq<Field>)
    requires r.Sized() && AllValid(front + [x] + back) && PairwiseCompatible(front + [x] + back)
    ensures AllValid([x] + (front + back))
    ensures Compile(r, front + [x] + back) == Compile(r, [x] + (front + back))
    decreases |front|
  {
    assert forall f :: f in [x] + (front + back) ==> f in front + [x] + back;
    if front == [] {
      assert front + [x] + back == [x] + (front + back);
    } else {
      var first, tail := front[0], front[1..];
      var rest := tail + back;
      assert front + [x] + back == [first] + (tail + [x] + back) && front + back == [first] + rest;
      PairwiseTail(first, tail + [x] + back);
      assert (tail + [x] + back)[|tail|] == x;
      MoveToFront(Applied(r, first), tail, x, back);
      CompileCons(r, first, tail + [x] + back);
      CompileCons(r, first, [x] + rest);
      SwapFirstTwo(r, first, x, rest);
    }
  }

  lemma Without(front: seq<Field>, x: Field, back: seq<Field>)
    requires AllValid(front + [x] + back) && PairwiseCompatible(front + [x] + back)
    ensures AllValid(front + back) && PairwiseCompatible(front + back)
  {
    var all, rest := front + [x] + back, front + back;
    forall f | f in rest
      ensures f in all
    {
    }
    forall a, b | 0 <= a < b < |rest|
      ensures Compatible(rest[a], rest[b])
    {
      var a', b' := if a < |front| then a else a + 1, if b < |front| then b else b + 1;
      assert rest[a] == all[a'] && rest[b] == all[b'];
    }
  }

  lemma SplitAt<T>(s: seq<T>, x: T) returns (front: seq<T>, back: seq<T>)
    requires x in s
    ensures s == front + [x] + back && multiset(front + back) == multiset(s) - multiset{x}
  {
    var i :| 0 <= i < |s| && s[i] == x;
    front, back := s[..i], s[i + 1..];
  }

  /** The compiled rules do not depend on the order of a list of pairwise compatible fields. */
  lemma {:induction false} OrderDoesNotMatter(r: Rules, fs: seq<Field>, gs: seq<Field>)
    requires r.Sized() && AllValid(fs) && PairwiseCompatible(fs) && multiset(fs) == multiset(gs)
    ensures AllValid(gs) && Compile(r, fs) == Compile(r, gs)
    decreases |gs|
  {
    forall g | g in gs
      ensures g in fs
    {
      assert g in multiset(gs);
    }
    if gs == [] {
      assert |fs| == |multiset(fs)| == 0;
    } else {
      var x, rest := gs[0], gs[1..];
      assert gs == [x] + rest;
      var front, back := SplitAt(fs, x);
      MoveToFront(r, front, x, back);
      Without(front, x, back);
      CompileCons(r, x, front + back);
      OrderDoesNotMatter(Applied(r, x), front + back, rest);
    }
  }

  // ---------------------------------------------------------------- exactly which pairs

  predicate DistinctCells(f: Field)
    requires ValidField(f)
  {
    forall i, j :: 0 <= i < j < |f.positions| ==> PokeAt(f, i).cell != PokeAt(f, j).cell
  }

  /** A cell shows the one poke that addresses it, or what was there. */
  lemma {:induction false} CellAfter(cells: seq<Cell>, ps: seq<Poke>, i: nat)
    requires InRange(ps, |cells|) && i < |ps|
    requires forall a, b :: 0 <= a < b < |ps| ==> ps[a].cell != ps[b].cell
    ensures RunPokes(cells, ps)[ps[i].cell] == Poked(cells[ps[i].cell], ps[i])
    decreases |ps|
  {
    var front := ps[..|ps| - 1];
    assert InRange(front, |cells|);
    if i < |ps| - 1 {
      CellAfter(cells, front, i);
    } else {
      Untouched(cells, front, ps[i].cell);
    }
  }

  lemma {:induction false} Untouched(cells: seq<Cell>, ps: seq<Poke>, c: nat)
    requires InRange(ps, |cells|) && c < |cells| && forall a :: 0 <= a < |ps| ==> ps[a].cell != c
    ensures RunPokes(cells, ps)[c] == cells[c]
    decreases |ps|
  {
    if ps == [] {
    } else {
      assert InRange(ps[..|ps| - 1], |cells|);
      Untouched(cells, ps[..|ps| - 1], c);
    }
  }

  lemma MergeZero(keep: Word16, bits: Word16)
    ensures Merge(0, keep, bits) == bits
  {
  }

  lemma CompileTwo(r: Rules, f: Field, g: Field)
    requires r.Sized() && ValidField(f) && ValidField(g)
    ensures Compile(r, [f, g]) == Applied(Applied(r, f), g)
  {
    assert [f, g][1..] == [g] && [g][1..] == [];
    assert Compile(Applied(r, f), [g]) == Compile(Applied(Applied(r, f), g), []);
  }

  lemma SharedCellShows(f: Field, g: Field, i: nat, j: nat)
    requires ValidField(f) && ValidField(g) && DistinctCells(f) && DistinctCells(g)
    requires i < |f.positions| && j < |g.positions| && PokeAt(f, i).cell == PokeAt(g, j).cell
    ensures var p, q := PokeAt(f, i), PokeAt(g, j);
      Compile(BLANK, [f, g]).cells[p.cell] == Cell(Merge(p.data, q.keep, q.data), Merge(p.care, q.keep, q.care))
  {
    var p, q := PokeAt(f, i), PokeAt(g, j);
    CompileTwo(BLANK, f, g);
    assert Pokes(f)[i] == p && Pokes(g)[j] == q;
    CellAfter(BLANK.cells, Pokes(f), i);
    CellAfter(RunPokes(BLANK.cells, Pokes(f)), Pokes(g), j);
    MergeZero(p.keep, p.data);
    MergeZero(p.keep, p.care);
  }

  /** For two fields the order is immaterial if and only if they are compatible. */
  lemma OrderExact(f: Field, g: Field)
    requires ValidField(f) && ValidField(g) && DistinctCells(f) && DistinctCells(g)
    ensures Compile(BLANK, [f, g]) == Compile(BLANK, [g, f]) <==> Compatible(f, g)
  {
    CompileTwo(BLANK, f, g);
    CompileTwo(BLANK, g, f);
    if Compatible(f, g) {
      FieldsCommute(BLANK, f, g);
    }
    if Compile(BLANK, [f, g]) == Compile(BLANK, [g, f]) {
      forall p, q | p in Pokes(f) && q in Pokes(g)
        ensures PokesCommute(p, q)
      {
        if p.cell == q.cell {
          var i :| 0 <= i < |Pokes(f)| && Pokes(f)[i] == p;
          var j :| 0 <= j < |Pokes(g)| && Pokes(g)[j] == q;
          SharedCellShows(f, g, i, j);
          SharedCellShows(g, f, j, i);
        }
      }
    }
  }

  // ---------------------------------------------------------------- in terms of the bits

  predicate SharesNoCell(f: Field, g: Field)
    requires ValidField(f) && ValidField(g)
  {
    forall i, j :: 0 <= i < |f.positions| && 0 <= j < |g.positions| ==> PokeAt(f, i).cell != PokeAt(g, j).cell
  }

  /** Of two words for one cell, no bit that only one of them sets is a bit the other one clears. */
  predicate BitsSpared(keepA: Word16, a: Word16, keepB: Word16, b: Word16) {
    a & !keepB & !b == 0 && b & !keepA & !a == 0
  }

  lemma AgreeingMergesSpare(keepA: Word16, a: Word16, keepB: Word16, b: Word16)
    requires (a & keepB) | b == (b & keepA) | a
    ensures a & !keepB & !b == 0
  {
  }

  lemma SparedMergesAgree(keepA: Word16, a: Word16, keepB: Word16, b: Word16)
    requires a & !keepB & !b == 0 && b & !keepA & !a == 0
    ensures (a & keepB) | b == (b & keepA) | a
  {
  }

  lemma MergeExact(keepA: Word16, a: Word16, keepB: Word16, b: Word16)
    ensures Merge(a, keepB, b) == Merge(b, keepA, a) <==> BitsSpared(keepA, a, keepB, b)
  {
    if Merge(a, keepB, b) == Merge(b, keepA, a) {
      AgreeingMergesSpare(keepA, a, keepB, b);
      AgreeingMergesSpare(keepB, b, keepA, a);
    } else if BitsSpared(keepA, a, keepB, b) {
      SparedMergesAgree(keepA, a, keepB, b);
    }
  }

  /** Wherever the two fields share a cell, their words spare each other's bits. */
  predicate SpareEachOther(f: Field, g: Field)
    requires ValidField(f) && ValidField(g)
  {
    forall i, j :: 0 <= i < |f.positions| && 0 <= j < |g.positions| ==>
      var p, q := PokeAt(f, i), PokeAt(g, j);
      p.cell == q.cell ==> BitsSpared(p.keep, p.data, q.keep, q.data) && BitsSpared(p.keep, p.care, q.keep, q.care)
  }

  /** For two fields the order is immaterial if and only if they spare each other's bits. */
  lemma OrderExactBits(f: Field, g: Field)
    requires ValidField(f) && ValidField(g) && DistinctCells(f) && DistinctCells(g)
    ensures Compile(BLANK, [f, g]) == Compile(BLANK, [g, f]) <==> SpareEachOther(f, g)
  {
    OrderExact(f, g);
    forall i, j | 0 <= i < |f.positions| && 0 <= j < |g.positions|
      ensures var p, q := PokeAt(f, i), PokeAt(g, j);
        PokesCommute(p, q) <==> p.cell == q.cell ==>
          BitsSpared(p.keep, p.data, q.keep, q.data) && BitsSpared(p.keep, p.care, q.keep, q.care)
    {
      var p, q := PokeAt(f, i), PokeAt(g, j);
      MergeExact(p.keep, p.data, q.keep, q.data);
      MergeExact(p.keep, p.care, q.keep, q.care);
    }
    CompatiblePositions(f, g);
  }

  lemma CompatiblePositions(f: Field, g: Field)
    requires ValidField(f) && ValidField(g)
    ensures Compatible(f, g) <==>
              forall i, j :: 0 <= i < |f.positions| && 0 <= j < |g.positions| ==>
                PokesCommute(PokeAt(f, i), PokeAt(g, j))
  {
    if forall i, j :: 0 <= i < |f.positions| && 0 <= j < |g.positions| ==> PokesCommute(PokeAt(f, i), PokeAt(g, j)) {
      forall p, q | p in Pokes(f) && q in Pokes(g)
        ensures PokesCommute(p, q)
      {
        var i :| 0 <= i < |Pokes(f)| && Pokes(f)[i] == p;
        var j :| 0 <= j < |Pokes(g)| && Pokes(g)[j] == q;
      }
    }
    if Compatible(f, g) {
      forall i, j | 0 <= i < |f.positions| && 0 <= j < |g.positions|
        ensures PokesCommute(PokeAt(f, i), PokeAt(g, j))
      {
        assert Pokes(f)[i] in Pokes(f) && Pokes(g)[j] in Pokes(g);
      }
    }
  }

  /** The words that flags and an ICMP type put in place. */
  function FlagWord(xf: bv32, df: bv32, mf: bv32): Word16 { Low((xf << 15) | (df << 14) | (mf << 13)) }

  function TypeWord(x: bv32): Word16 { Low(x << 8) }

  /** Of the upper three bits, an offset has only those that the flags have. */
  predicate OffsetWithin(offset: bv32, flags: Word16) { Low(offset) & 0xE000 & !flags == 0 }

  /** Of the upper eight bits, a code has only those that the type has. */
  predicate CodeWithin(code: bv32, type16: Word16) { Low(code) & 0xFF00 & !type16 == 0 }

  lemma OffsetSpares(flags: Word16, offset: bv32)
    requires flags & 0x1FFF == 0
    ensures BitsSpared(0x1FFF, flags, 0xE000, Low(offset)) <==> OffsetWithin(offset, flags)
  {
  }

  lemma CodeSpares(type16: Word16, code: bv32)
    requires type16 & 0x00FF == 0
    ensures BitsSpared(0x00FF, type16, 0xFF00, Low(code)) <==> CodeWithin(code, type16)
  {
  }

  /**
  IPv4 flags and a fragment offset compile alike in either order if and only if they share no
  word, or value and mask of the offset have of their upper three bits only those that are
  flags anyway.
  */
  lemma FlagOffsetExact(f: Field, g: Field)
    requires ValidField(f) && ValidField(g) && DistinctCells(f) && DistinctCells(g)
    requires f.pattern.Ipv4Flag? && g.pattern.Ipv4Offset?
    ensures var (x, d, m, o) := (f.pattern.xf, f.pattern.df, f.pattern.mf, g.pattern.offset);
      Compile(BLANK, [f, g]) == Compile(BLANK, [g, f]) <==>
        || SharesNoCell(f, g)
        || (OffsetWithin(o.value, FlagWord(x.value, d.value, m.value))
            && OffsetWithin(o.mask, FlagWord(x.mask, d.mask, m.mask)))
  {
    var (x, d, m, o) := (f.pattern.xf, f.pattern.df, f.pattern.mf, g.pattern.offset);
    OrderExactBits(f, g);
    FlagBits(x.value, d.value, m.value);
    FlagBits(x.mask, d.mask, m.mask);
    OffsetSpares(FlagWord(x.value, d.value, m.value), o.value);
    OffsetSpares(FlagWord(x.mask, d.mask, m.mask), o.mask);
    FlagPokes(f, g);
  }

  lemma FlagPokes(f: Field, g: Field)
    requires ValidField(f) && ValidField(g) && f.pattern.Ipv4Flag? && g.pattern.Ipv4Offset?
    ensures forall i :: 0 <= i < |f.positions| ==>
      var p := PokeAt(f, i);
      && p.keep == 0x1FFF && p.data == FlagWord(f.pattern.xf.value, f.pattern.df.value, f.pattern.mf.value)
      && p.care == FlagWord(f.pattern.xf.mask, f.pattern.df.mask, f.pattern.mf.mask)
    ensures forall j :: 0 <= j < |g.positions| ==>
      var q := PokeAt(g, j);
      q.keep == 0xE000 && q.data == Low(g.pattern.offset.value) && q.care == Low(g.pattern.offset.mask)
  {
  }

  /** The same for an ICMP type and code, with their upper eight bits. */
  lemma TypeCodeExact(f: Field, g: Field)
    requires ValidField(f) && ValidField(g) && DistinctCells(f) && DistinctCells(g)
    requires f.pattern.IcmpType? && g.pattern.IcmpCode?
    ensures var (t, c) := (f.pattern.icmp, g.pattern.code);
      Compile(BLANK, [f, g]) == Compile(BLANK, [g, f]) <==>
        SharesNoCell(f, g) || (CodeWithin(c.value, TypeWord(t.value)) && CodeWithin(c.mask, TypeWord(t.mask)))
  {
    var (t, c) := (f.pattern.icmp, g.pattern.code);
    OrderExactBits(f, g);
    TypeBits(t.value);
    TypeBits(t.mask);
    CodeSpares(TypeWord(t.value), c.value);
    CodeSpares(TypeWord(t.mask), c.mask);
    TypePokes(f, g);
  }

  lemma TypePokes(f: Field, g: Field)
    requires ValidField(f) && ValidField(g) && f.pattern.IcmpType? && g.pattern.IcmpCode?
    ensures forall i :: 0 <= i < |f.positions| ==>
      var p := PokeAt(f, i);
      p.keep == 0x00FF && p.data == TypeWord(f.pattern.icmp.value) && p.care == TypeWord(f.pattern.icmp.mask)
    ensures forall j :: 0 <= j < |g.positions| ==>
      var q := PokeAt(g, j);
      q.keep == 0xFF00 && q.data == Low(g.pattern.code.value) && q.care == Low(g.pattern.code.mask)
  {
  }

  const NOTHING := Bits(0, 0)

  /** Flags 0 beside offset 0x2000 at the default position: the order shows. */
  lemma OrderShows()
    ensures var flags := Field([0x35], Ipv4Flag(NOTHING, NOTHING, NOTHING));
      var offset := Field([0x35], Ipv4Offset(Bits(0x2000, 0)));
      ValidField(flags) && ValidField(offset) && Compile(BLANK, [flags, offset]) != Compile(BLANK, [offset, flags])
  {
    var flags := Field([0x35], Ipv4Flag(NOTHING, NOTHING, NOTHING));
    var offset := Field([0x35], Ipv4Offset(Bits(0x2000, 0)));
    FlagOffsetExact(flags, offset);
    assert PokeAt(flags, 0).cell == PokeAt(offset, 0).cell;
  }

  /** So it does for type 0 beside code 0x100. */
  lemma OrderShowsIcmp()
    ensures var kind, code := Field([0x14], IcmpType(NOTHING)), Field([0x14], IcmpCode(Bits(0x100, 0)));
      ValidField(kind) && ValidField(code) && Compile(BLANK, [kind, code]) != Compile(BLANK, [code, kind])
  {
    var kind, code := Field([0x14], IcmpType(NOTHING)), Field([0x14], IcmpCode(Bits(0x100, 0)));
    TypeCodeExact(kind, code);
    assert PokeAt(kind, 0).cell == PokeAt(code, 0).cell;
  }

  // ---------------------------------------------------------------- the pairs that share a word

  /** IPv4 flags beside a 13-bit offset, or an ICMP type beside an 8-bit code. */
  predicate SplitsWord(f: Field, g: Field) {
    || (f.pattern.Ipv4Flag? && g.pattern.Ipv4Offset?
        && g.pattern.offset.value <= 0x1FFF && g.pattern.offset.mask <= 0x1FFF)
    || (f.pattern.IcmpType? && g.pattern.IcmpCode?
        && g.pattern.code.value <= 0xFF && g.pattern.code.mask <= 0xFF)
  }

  predicate MayMix(f: Field, g: Field)
    requires ValidField(f) && ValidField(g)
  {
    SharesNoCell(f, g) || SplitsWord(f, g) || SplitsWord(g, f)
  }

  lemma FlagBits(xf: bv32, df: bv32, mf: bv32)
    ensures Low((xf << 15) | (df << 14) | (mf << 13)) & 0x1FFF == 0
  {
  }

  lemma OffsetBits(x: bv32)
    requires x <= 0x1FFF
    ensures Low(x) & 0xE000 == 0
  {
  }

  lemma TypeBits(x: bv32)
    ensures Low(x << 8) & 0x00FF == 0
  {
  }

  lemma CodeBits(x: bv32)
    requires x <= 0xFF
    ensures Low(x) & 0xFF00 == 0
  {
  }

  lemma HalvesMerge(a: Word16, b: Word16)
    ensures a & 0x1FFF == 0 && b & 0xE000 == 0 ==> Merge(a, 0xE000, b) == Merge(b, 0x1FFF, a)
    ensures a & 0x00FF == 0 && b & 0xFF00 == 0 ==> Merge(a, 0xFF00, b) == Merge(b, 0x00FF, a)
  {
  }

  /** Two pokes of one cell whose bits lie in complementary halves. */
  lemma PokesOfHalves(p: Poke, q: Poke)
    requires (p.keep == 0x1FFF && q.keep == 0xE000) || (p.keep == 0x00FF && q.keep == 0xFF00)
    requires p.keep == 0x1FFF ==> p.data & 0x1FFF == 0 && p.care & 0x1FFF == 0
    requires p.keep == 0x1FFF ==> q.data & 0xE000 == 0 && q.care & 0xE000 == 0
    requires p.keep == 0x00FF ==> p.data & 0x00FF == 0 && p.care & 0x00FF == 0
    requires p.keep == 0x00FF ==> q.data & 0xFF00 == 0 && q.care & 0xFF00 == 0
    ensures PokesCommute(p, q)
  {
    HalvesMerge(p.data, q.data);
    HalvesMerge(p.care, q.care);
  }

  lemma FlagBesideOffset(f: Field, g: Field, i: nat, j: nat)
    requires ValidField(f) && ValidField(g) && SplitsWord(f, g) && f.pattern.Ipv4Flag?
    requires i < |f.positions| && j < |g.positions|
    ensures PokesCommute(PokeAt(f, i), PokeAt(g, j))
  {
    FlagBits(f.pattern.xf.value, f.pattern.df.value, f.pattern.mf.value);
    FlagBits(f.pattern.xf.mask, f.pattern.df.mask, f.pattern.mf.mask);
    OffsetBits(g.pattern.offset.value);
    OffsetBits(g.pattern.offset.mask);
    PokesOfHalves(PokeAt(f, i), PokeAt(g, j));
  }

  lemma TypeBesideCode(f: Field, g: Field, i: nat, j: nat)
    requires ValidField(f) && ValidField(g) && SplitsWord(f, g) && f.pattern.IcmpType?
    requires i < |f.positions| && j < |g.positions|
    ensures PokesCommute(PokeAt(f, i), PokeAt(g, j))
  {
    TypeBits(f.pattern.icmp.value);
    TypeBits(f.pattern.icmp.mask);
    CodeBits(g.pattern.code.value);
    CodeBits(g.pattern.code.mask);
    PokesOfHalves(PokeAt(f, i), PokeAt(g, j));
  }

  lemma SplitWordsCommute(f: Field, g: Field, i: nat, j: nat)
    requires ValidField(f) && ValidField(g) && SplitsWord(f, g)
    requires i < |f.positions| && j < |g.positions|
    ensures PokesCommute(PokeAt(f, i), PokeAt(g, j))
  {
    if f.pattern.Ipv4Flag? {
      FlagBesideOffset(f, g, i, j);
    } else {
      TypeBesideCode(f, g, i, j);
    }
  }

  lemma MixIsCompatible(f: Field, g: Field)
    requires ValidField(f) && ValidField(g) && MayMix(f, g)
    ensures Compatible(f, g)
  {
    forall p, q | p in Pokes(f) && q in Pokes(g)
      ensures PokesCommute(p, q)
    {
      var i :| 0 <= i < |Pokes(f)| && Pokes(f)[i] == p;
      var j :| 0 <= j < |Pokes(g)| && Pokes(g)[j] == q;
      if SplitsWord(f, g) {
        SplitWordsCommute(f, g, i, j);
      } else if SplitsWord(g, f) {
        SplitWordsCommute(g, f, j, i);
      } else {
        assert PokeAt(f, i).cell != PokeAt(g, j).cell;
      }
    }
  }

  /**
  The list order never shows: fields on words of their own, flags with in-range offsets and
  ICMP types with in-range codes compile to the same rules in every order.
  */
  lemma CompileAnyOrder(fs: seq<Field>, gs: seq<Field>)
    requires AllValid(fs) && multiset(fs) == multiset(gs)
    requires forall i, j :: 0 <= i < j < |fs| ==> fs[i] in fs && fs[j] in fs && MayMix(fs[i], fs[j])
    ensures AllValid(gs) && Compile(BLANK, fs) == Compile(BLANK, gs)
  {
    forall i, j | 0 <= i < j < |fs|
      ensures Compatible(fs[i], fs[j])
    {
      MixIsCompatible(fs[i], fs[j]);
    }
    OrderDoesNotMatter(BLANK, fs, gs);
  }
}
