/**
The bit-vector half of module AclMatch: when a sixteen-bit word of a packet passes a cell whose
words are put together from operands by shifting and or-ing.
*/
module AclBits {
  import opened AclFields

  // ---------------------------------------------------------------- matching

  /** The bits in which a packet word differs from a cell, of those that the cell cares for. */
  function Differing(w: Word16, data: Word16, care: Word16): Word16 { (w ^ data) & care }

  /** A packet word passes a cell. */
  predicate Hits(w: Word16, c: Cell) { Differing(w, c.data, c.care) == 0 }

  /** The bits in which `x` differs from the value under the mask, as far as a header field is wide. */
  function Apart(x: bv32, value: bv32, mask: bv32, width: bv32): bv32 { (x ^ value) & mask & width }

  predicate Agrees(x: bv32, b: Bits, width: bv32) { Apart(x, b.value, b.mask, width) == 0 }

  // ---------------------------------------------------------------- cells with one operand

  lemma LowDiffers(w: bv16, v: bv32, m: bv32)
    ensures ((w ^ ((v & 0xFFFF) as bv16)) & ((m & 0xFFFF) as bv16)) as bv32 == ((w as bv32) ^ v) & m & 0xFFFF
  {
  }

  lemma ByteDiffers(w: bv16, v: bv32, m: bv32)
    ensures ((w ^ ((v & 0xFF & 0xFFFF) as bv16)) & ((m & 0xFF & 0xFFFF) as bv16)) as bv32
         == ((w as bv32) ^ v) & m & 0xFF
  {
  }

  lemma HighByteDiffers(w: bv16, v: bv32, m: bv32)
    ensures ((w ^ (((v << 8) & 0xFFFF) as bv16)) & (((m << 8) & 0xFFFF) as bv16)) as bv32
         == ((((w as bv32) >> 8) ^ v) & m & 0xFF) << 8
  {
  }

  lemma ClassDiffers(w: bv16, v: bv32, m: bv32)
    ensures ((w ^ (((v << 4) & 0x0FF0 & 0xFFFF) as bv16)) & (((m << 4) & 0x0FF0 & 0xFFFF) as bv16)) as bv32
         == ((((w as bv32) >> 4) ^ v) & m & 0xFF) << 4
  {
  }

  lemma ShiftedZero(x: bv32)
    requires x <= 0xFF
    ensures x << 8 == 0 <==> x == 0
    ensures x << 4 == 0 <==> x == 0
  {
  }

  lemma SameZero(x: bv16, y: bv32)
    requires x as bv32 == y
    ensures x == 0 <==> y == 0
  {
  }

  lemma WidenedZero(x: bv16)
    ensures x == 0 <==> x as bv32 == 0
  {
  }

  /** A cell with the low sixteen bits of an operand. */
  lemma LowHits(w: Word16, b: Bits, cell: Cell)
    requires cell == Cell(Low(b.value), Low(b.mask))
    ensures Hits(w, cell) <==> Agrees(w as bv32, b, 0xFFFF)
  {
    var x, y := Differing(w, cell.data, cell.care), Apart(w as bv32, b.value, b.mask, 0xFFFF);
    assert x as bv32 == y by {
      LowDiffers(w, b.value, b.mask);
    }
    SameZero(x, y);
  }

  lemma ByteHits(w: Word16, b: Bits, cell: Cell)
    requires cell == Cell(Low(b.value & 0xFF), Low(b.mask & 0xFF))
    ensures Hits(w, cell) <==> Agrees(w as bv32, b, 0xFF)
  {
    ByteDiffers(w, b.value, b.mask);
    WidenedZero(Differing(w, cell.data, cell.care));
  }

  lemma HighByteHits(w: Word16, b: Bits, cell: Cell)
    requires cell == Cell(Low(b.value << 8), Low(b.mask << 8))
    ensures Hits(w, cell) <==> Agrees((w as bv32) >> 8, b, 0xFF)
  {
    HighByteDiffers(w, b.value, b.mask);
    WidenedZero(Differing(w, cell.data, cell.care));
    ShiftedZero(Apart((w as bv32) >> 8, b.value, b.mask, 0xFF));
  }

  lemma ClassHits(w: Word16, b: Bits, cell: Cell)
    requires cell == Cell(Low((b.value << 4) & 0x0FF0), Low((b.mask << 4) & 0x0FF0))
    ensures Hits(w, cell) <==> Agrees((w as bv32) >> 4, b, 0xFF)
  {
    ClassDiffers(w, b.value, b.mask);
    WidenedZero(Differing(w, cell.data, cell.care));
    ShiftedZero(Apart((w as bv32) >> 4, b.value, b.mask, 0xFF));
  }

  // ---------------------------------------------------------------- cells with several operands

  // Every word and every difference has a name in these lemmas, so that no proof has to take
  // two of them apart at once.

  lemma LowIs(x: bv32, d: bv16)
    requires d == Low(x)
    ensures d == (x & 0xFFFF) as bv16
  {
  }

  lemma ApartIs(x: bv32, value: bv32, mask: bv32, width: bv32, a: bv32)
    requires a == Apart(x, value, mask, width)
    ensures a == (x ^ value) & mask & width
  {
  }

  lemma DifferingIs(w: bv16, d: bv16, c: bv16, u: bv16)
    requires u == Differing(w, d, c)
    ensures u == (w ^ d) & c
  {
  }

  lemma TagZeros(u: bv16, u0: bv32, u1: bv32, u2: bv32)
    requires u0 <= 7 && u1 <= 1 && u2 <= 0xFFF
    requires u as bv32 == (u0 << 13) | (u1 << 12) | u2
    ensures u == 0 <==> u0 == 0 && u1 == 0 && u2 == 0
  {
  }

  lemma TagDiffers(w: bv16, p: bv32, q: bv32, r: bv32, pm: bv32, qm: bv32, rm: bv32)
    ensures ((w ^ ((((p & 7) << 13) | ((q & 1) << 12) | (r & 0xFFF)) & 0xFFFF) as bv16)
             & ((((pm & 7) << 13) | ((qm & 1) << 12) | (rm & 0xFFF)) & 0xFFFF) as bv16) as bv32
         == (((((w as bv32) >> 13) ^ p) & pm & 7) << 13) | (((((w as bv32) >> 12) ^ q) & qm & 1) << 12)
            | (((w as bv32) ^ r) & rm & 0xFFF)
  {
  }

  lemma TagRaw(w: bv16, p: bv32, q: bv32, r: bv32,
      pm: bv32, qm: bv32, rm: bv32, d: bv16, c: bv16, u: bv16,
      u0: bv32, u1: bv32, u2: bv32)
    requires d == ((((p & 7) << 13) | ((q & 1) << 12) | (r & 0xFFF)) & 0xFFFF) as bv16
    requires c == ((((pm & 7) << 13) | ((qm & 1) << 12) | (rm & 0xFFF)) & 0xFFFF) as bv16
    requires u == (w ^ d) & c
    requires u0 == (((w as bv32) >> 13) ^ p) & pm & 7
    requires u1 == (((w as bv32) >> 12) ^ q) & qm & 1
    requires u2 == ((w as bv32) ^ r) & rm & 0xFFF
    ensures u == 0 <==> u0 == 0 && u1 == 0 && u2 == 0
  {
    TagDiffers(w, p, q, r, pm, qm, rm);
    TagZeros(u, u0, u1, u2);
  }

  lemma TagNamed(w: bv16, p: bv32, q: bv32, r: bv32,
      pm: bv32, qm: bv32, rm: bv32, d: bv16, c: bv16, u: bv16,
      u0: bv32, u1: bv32, u2: bv32)
    requires d == Low(((p & 7) << 13) | ((q & 1) << 12) | (r & 0xFFF))
    requires c == Low(((pm & 7) << 13) | ((qm & 1) << 12) | (rm & 0xFFF))
    requires u == Differing(w, d, c)
    requires u0 == Apart((w as bv32) >> 13, p, pm, 7)
    requires u1 == Apart((w as bv32) >> 12, q, qm, 1)
    requires u2 == Apart(w as bv32, r, rm, 0xFFF)
    ensures u == 0 <==> u0 == 0 && u1 == 0 && u2 == 0
  {
    LowIs(((p & 7) << 13) | ((q & 1) << 12) | (r & 0xFFF), d);
    LowIs(((pm & 7) << 13) | ((qm & 1) << 12) | (rm & 0xFFF), c);
    DifferingIs(w, d, c, u);
    ApartIs((w as bv32) >> 13, p, pm, 7, u0);
    ApartIs((w as bv32) >> 12, q, qm, 1, u1);
    ApartIs(w as bv32, r, rm, 0xFFF, u2);
    TagRaw(w, p, q, r, pm, qm, rm, d, c, u, u0, u1, u2);
  }

  lemma TagHits(w: Word16, p: Bits, q: Bits, r: Bits, cell: Cell)
    requires cell.data == Low(((p.value & 7) << 13) | ((q.value & 1) << 12) | (r.value & 0xFFF))
    requires cell.care == Low(((p.mask & 7) << 13) | ((q.mask & 1) << 12) | (r.mask & 0xFFF))
    ensures Hits(w, cell) <==>
              && Agrees((w as bv32) >> 13, p, 7) && Agrees((w as bv32) >> 12, q, 1) && Agrees(w as bv32, r, 0xFFF)
  {
    TagNamed(w, p.value, q.value, r.value,
      p.mask, q.mask, r.mask, cell.data, cell.care, Differing(w, cell.data, cell.care),
      Apart((w as bv32) >> 13, p.value, p.mask, 7), Apart((w as bv32) >> 12, q.value, q.mask, 1),
      Apart(w as bv32, r.value, r.mask, 0xFFF));
  }

  lemma FlagZeros(u: bv16, u0: bv32, u1: bv32, u2: bv32)
    requires u0 <= 1 && u1 <= 1 && u2 <= 1
    requires u as bv32 == (u0 << 15) | (u1 << 14) | (u2 << 13)
    ensures u == 0 <==> u0 == 0 && u1 == 0 && u2 == 0
  {
  }

  lemma FlagRaw(w: bv16, p: bv32, q: bv32, r: bv32,
      pm: bv32, qm: bv32, rm: bv32, d: bv16, c: bv16, u: bv16,
      u0: bv32, u1: bv32, u2: bv32)
    requires d == ((((p & 1) << 15) | ((q & 1) << 14) | ((r & 1) << 13)) & 0xFFFF) as bv16
    requires c == ((((pm & 1) << 15) | ((qm & 1) << 14) | ((rm & 1) << 13)) & 0xFFFF) as bv16
    requires u == (w ^ d) & c
    requires u0 == (((w as bv32) >> 15) ^ p) & pm & 1
    requires u1 == (((w as bv32) >> 14) ^ q) & qm & 1
    requires u2 == (((w as bv32) >> 13) ^ r) & rm & 1
    ensures u == 0 <==> u0 == 0 && u1 == 0 && u2 == 0
  {
    assert u as bv32 == (u0 << 15) | (u1 << 14) | (u2 << 13);
    FlagZeros(u, u0, u1, u2);
  }

  lemma FlagNamed(w: bv16, p: bv32, q: bv32, r: bv32,
      pm: bv32, qm: bv32, rm: bv32, d: bv16, c: bv16, u: bv16,
      u0: bv32, u1: bv32, u2: bv32)
    requires d == Low(((p & 1) << 15) | ((q & 1) << 14) | ((r & 1) << 13))
    requires c == Low(((pm & 1) << 15) | ((qm & 1) << 14) | ((rm & 1) << 13))
    requires u == Differing(w, d, c)
    requires u0 == Apart((w as bv32) >> 15, p, pm, 1)
    requires u1 == Apart((w as bv32) >> 14, q, qm, 1)
    requires u2 == Apart((w as bv32) >> 13, r, rm, 1)
    ensures u == 0 <==> u0 == 0 && u1 == 0 && u2 == 0
  {
    LowIs(((p & 1) << 15) | ((q & 1) << 14) | ((r & 1) << 13), d);
    LowIs(((pm & 1) << 15) | ((qm & 1) << 14) | ((rm & 1) << 13), c);
    DifferingIs(w, d, c, u);
    ApartIs((w as bv32) >> 15, p, pm, 1, u0);
    ApartIs((w as bv32) >> 14, q, qm, 1, u1);
    ApartIs((w as bv32) >> 13, r, rm, 1, u2);
    FlagRaw(w, p, q, r, pm, qm, rm, d, c, u, u0, u1, u2);
  }

  lemma FlagHits(w: Word16, p: Bits, q: Bits, r: Bits, cell: Cell)
    requires cell.data == Low(((p.value & 1) << 15) | ((q.value & 1) << 14) | ((r.value & 1) << 13))
    requires cell.care == Low(((p.mask & 1) << 15) | ((q.mask & 1) << 14) | ((r.mask & 1) << 13))
    ensures Hits(w, cell) <==>
              && Agrees((w as bv32) >> 15, p, 1) && Agrees((w as bv32) >> 14, q, 1) && Agrees((w as bv32) >> 13, r, 1)
  {
    FlagNamed(w, p.value, q.value, r.value,
      p.mask, q.mask, r.mask, cell.data, cell.care, Differing(w, cell.data, cell.care),
      Apart((w as bv32) >> 15, p.value, p.mask, 1), Apart((w as bv32) >> 14, q.value, q.mask, 1),
      Apart((w as bv32) >> 13, r.value, r.mask, 1));
  }

  lemma TcpZeros(u: bv16, u0: bv32, u1: bv32, u2: bv32, u3: bv32, u4: bv32, u5: bv32, u6: bv32, u7: bv32)
    requires u0 <= 1 && u1 <= 1 && u2 <= 1 && u3 <= 1 && u4 <= 1 && u5 <= 1 && u6 <= 1 && u7 <= 1
    requires u as bv32 == (u0 << 7) | (u1 << 6) | (u2 << 5) | (u3 << 4)
                      | (u4 << 3) | (u5 << 2) | (u6 << 1) | u7
    ensures u == 0 <==> u0 == 0 && u1 == 0 && u2 == 0 && u3 == 0 && u4 == 0 && u5 == 0 && u6 == 0 && u7 == 0
  {
  }

  lemma TcpRaw(w: bv16, p: bv32, q: bv32, r: bv32, s: bv32, t: bv32, y: bv32, z: bv32, o: bv32,
      pm: bv32, qm: bv32, rm: bv32, sm: bv32, tm: bv32, ym: bv32, zm: bv32, om: bv32, d: bv16, c: bv16, u: bv16,
      u0: bv32, u1: bv32, u2: bv32, u3: bv32, u4: bv32, u5: bv32, u6: bv32, u7: bv32)
    requires d == ((((p & 1) << 7) | ((q & 1) << 6) | ((r & 1) << 5) | ((s & 1) << 4)
                 | ((t & 1) << 3) | ((y & 1) << 2) | ((z & 1) << 1) | (o & 1)) & 0xFFFF) as bv16
    requires c == ((((pm & 1) << 7) | ((qm & 1) << 6) | ((rm & 1) << 5) | ((sm & 1) << 4)
                 | ((tm & 1) << 3) | ((ym & 1) << 2) | ((zm & 1) << 1) | (om & 1)) & 0xFFFF) as bv16
    requires u == (w ^ d) & c
    requires u0 == (((w as bv32) >> 7) ^ p) & pm & 1
    requires u1 == (((w as bv32) >> 6) ^ q) & qm & 1
    requires u2 == (((w as bv32) >> 5) ^ r) & rm & 1
    requires u3 == (((w as bv32) >> 4) ^ s) & sm & 1
    requires u4 == (((w as bv32) >> 3) ^ t) & tm & 1
    requires u5 == (((w as bv32) >> 2) ^ y) & ym & 1
    requires u6 == (((w as bv32) >> 1) ^ z) & zm & 1
    requires u7 == ((w as bv32) ^ o) & om & 1
    ensures u == 0 <==> u0 == 0 && u1 == 0 && u2 == 0 && u3 == 0 && u4 == 0 && u5 == 0 && u6 == 0 && u7 == 0
  {
    assert u as bv32 == (u0 << 7) | (u1 << 6) | (u2 << 5) | (u3 << 4)
                    | (u4 << 3) | (u5 << 2) | (u6 << 1) | u7;
    TcpZeros(u, u0, u1, u2, u3, u4, u5, u6, u7);
  }

  lemma TcpNamed(w: bv16, p: bv32, q: bv32, r: bv32, s: bv32, t: bv32, y: bv32, z: bv32, o: bv32,
      pm: bv32, qm: bv32, rm: bv32, sm: bv32, tm: bv32, ym: bv32, zm: bv32, om: bv32, d: bv16, c: bv16, u: bv16,
      u0: bv32, u1: bv32, u2: bv32, u3: bv32, u4: bv32, u5: bv32, u6: bv32, u7: bv32)
    requires d == Low(((p & 1) << 7) | ((q & 1) << 6) | ((r & 1) << 5) | ((s & 1) << 4)
                 | ((t & 1) << 3) | ((y & 1) << 2) | ((z & 1) << 1) | (o & 1))
    requires c == Low(((pm & 1) << 7) | ((qm & 1) << 6) | ((rm & 1) << 5) | ((sm & 1) << 4)
                 | ((tm & 1) << 3) | ((ym & 1) << 2) | ((zm & 1) << 1) | (om & 1))
    requires u == Differing(w, d, c)
    requires u0 == Apart((w as bv32) >> 7, p, pm, 1)
    requires u1 == Apart((w as bv32) >> 6, q, qm, 1)
    requires u2 == Apart((w as bv32) >> 5, r, rm, 1)
    requires u3 == Apart((w as bv32) >> 4, s, sm, 1)
    requires u4 == Apart((w as bv32) >> 3, t, tm, 1)
    requires u5 == Apart((w as bv32) >> 2, y, ym, 1)
    requires u6 == Apart((w as bv32) >> 1, z, zm, 1)
    requires u7 == Apart(w as bv32, o, om, 1)
    ensures u == 0 <==> u0 == 0 && u1 == 0 && u2 == 0 && u3 == 0 && u4 == 0 && u5 == 0 && u6 == 0 && u7 == 0
  {
    LowIs(((p & 1) << 7) | ((q & 1) << 6) | ((r & 1) << 5) | ((s & 1) << 4)
                 | ((t & 1) << 3) | ((y & 1) << 2) | ((z & 1) << 1) | (o & 1), d);
    LowIs(((pm & 1) << 7) | ((qm & 1) << 6) | ((rm & 1) << 5) | ((sm & 1) << 4)
                 | ((tm & 1) << 3) | ((ym & 1) << 2) | ((zm & 1) << 1) | (om & 1), c);
    DifferingIs(w, d, c, u);
    ApartIs((w as bv32) >> 7, p, pm, 1, u0);
    ApartIs((w as bv32) >> 6, q, qm, 1, u1);
    ApartIs((w as bv32) >> 5, r, rm, 1, u2);
    ApartIs((w as bv32) >> 4, s, sm, 1, u3);
    ApartIs((w as bv32) >> 3, t, tm, 1, u4);
    ApartIs((w as bv32) >> 2, y, ym, 1, u5);
    ApartIs((w as bv32) >> 1, z, zm, 1, u6);
    ApartIs(w as bv32, o, om, 1, u7);
    TcpRaw(w, p, q, r, s, t, y, z, o, pm, qm, rm, sm, tm, ym, zm, om, d, c, u, u0, u1, u2, u3, u4, u5, u6, u7);
  }

  lemma TcpHits(w: Word16, p: Bits, q: Bits, r: Bits, s: Bits, t: Bits, y: Bits, z: Bits, o: Bits, cell: Cell)
    requires cell.data == Low(((p.value & 1) << 7) | ((q.value & 1) << 6) | ((r.value & 1) << 5) | ((s.value & 1) << 4)
                      | ((t.value & 1) << 3) | ((y.value & 1) << 2) | ((z.value & 1) << 1) | (o.value & 1))
    requires cell.care == Low(((p.mask & 1) << 7) | ((q.mask & 1) << 6) | ((r.mask & 1) << 5) | ((s.mask & 1) << 4)
                      | ((t.mask & 1) << 3) | ((y.mask & 1) << 2) | ((z.mask & 1) << 1) | (o.mask & 1))
    ensures Hits(w, cell) <==>
              && Agrees((w as bv32) >> 7, p, 1) && Agrees((w as bv32) >> 6, q, 1) && Agrees((w as bv32) >> 5, r, 1)
              && Agrees((w as bv32) >> 4, s, 1) && Agrees((w as bv32) >> 3, t, 1) && Agrees((w as bv32) >> 2, y, 1)
              && Agrees((w as bv32) >> 1, z, 1) && Agrees(w as bv32, o, 1)
  {
    TcpNamed(w, p.value, q.value, r.value, s.value, t.value, y.value, z.value, o.value,
      p.mask, q.mask, r.mask, s.mask, t.mask, y.mask, z.mask, o.mask, cell.data, cell.care,
      Differing(w, cell.data, cell.care),
      Apart((w as bv32) >> 7, p.value, p.mask, 1), Apart((w as bv32) >> 6, q.value, q.mask, 1),
      Apart((w as bv32) >> 5, r.value, r.mask, 1), Apart((w as bv32) >> 4, s.value, s.mask, 1),
      Apart((w as bv32) >> 3, t.value, t.mask, 1), Apart((w as bv32) >> 2, y.value, y.mask, 1),
      Apart((w as bv32) >> 1, z.value, z.mask, 1), Apart(w as bv32, o.value, o.mask, 1));
  }

  lemma OctetZeros(u: bv16, u0: bv32, u1: bv32)
    requires u0 <= 0xFF && u1 <= 0xFF && u as bv32 == u0 | (u1 << 8)
    ensures u == 0 <==> u0 == 0 && u1 == 0
  {
  }

  lemma OctetRaw(w: bv16, p: bv8, q: bv8, pm: bv8, qm: bv8, d: bv16, c: bv16, u: bv16, u0: bv32, u1: bv32)
    requires d == (p as bv16) | ((q as bv16) << 8) && c == (pm as bv16) | ((qm as bv16) << 8)
    requires u == (w ^ d) & c
    requires u0 == ((w as bv32) ^ (p as bv32)) & (pm as bv32) & 0xFF
    requires u1 == (((w as bv32) >> 8) ^ (q as bv32)) & (qm as bv32) & 0xFF
    ensures u == 0 <==> u0 == 0 && u1 == 0
  {
    assert u as bv32 == u0 | (u1 << 8);
    OctetZeros(u, u0, u1);
  }

  lemma OctetNamed(w: bv16, p: bv8, q: bv8, pm: bv8, qm: bv8, d: bv16, c: bv16, u: bv16, u0: bv32, u1: bv32)
    requires d == (p as bv16) | ((q as bv16) << 8) && c == (pm as bv16) | ((qm as bv16) << 8)
    requires u == Differing(w, d, c)
    requires u0 == Apart(w as bv32, p as bv32, pm as bv32, 0xFF)
    requires u1 == Apart((w as bv32) >> 8, q as bv32, qm as bv32, 0xFF)
    ensures u == 0 <==> u0 == 0 && u1 == 0
  {
    DifferingIs(w, d, c, u);
    ApartIs(w as bv32, p as bv32, pm as bv32, 0xFF, u0);
    ApartIs((w as bv32) >> 8, q as bv32, qm as bv32, 0xFF, u1);
    OctetRaw(w, p, q, pm, qm, d, c, u, u0, u1);
  }

  lemma OctetPairHits(w: Word16, p: bv8, q: bv8, pm: bv8, qm: bv8, cell: Cell)
    requires cell.data == (p as bv16) | ((q as bv16) << 8) && cell.care == (pm as bv16) | ((qm as bv16) << 8)
    ensures Hits(w, cell) <==>
              && Agrees(w as bv32, Bits(p as bv32, pm as bv32), 0xFF)
              && Agrees((w as bv32) >> 8, Bits(q as bv32, qm as bv32), 0xFF)
  {
    OctetNamed(w, p, q, pm, qm, cell.data, cell.care, Differing(w, cell.data, cell.care),
      Apart(w as bv32, p as bv32, pm as bv32, 0xFF), Apart((w as bv32) >> 8, q as bv32, qm as bv32, 0xFF));
  }

  lemma OctetsAre(o: seq<bv8>, i: nat, p: bv8, q: bv8)
    requires |o| == 6 && i < 3 && p == o[5 - 2 * i] && q == o[4 - 2 * i]
    ensures Octets(o, i) == (p as bv16) | ((q as bv16) << 8)
  {
  }

  lemma OctetsHit(w: Word16, v: seq<bv8>, m: seq<bv8>, i: nat, p: bv8, q: bv8, pm: bv8, qm: bv8, cell: Cell)
    requires |v| == |m| == 6 && i < 3 && cell.data == Octets(v, i) && cell.care == Octets(m, i)
    requires p == v[5 - 2 * i] && q == v[4 - 2 * i] && pm == m[5 - 2 * i] && qm == m[4 - 2 * i]
    ensures Hits(w, cell) <==>
              && Agrees(w as bv32, Bits(p as bv32, pm as bv32), 0xFF)
              && Agrees((w as bv32) >> 8, Bits(q as bv32, qm as bv32), 0xFF)
  {
    OctetsAre(v, i, p, q);
    OctetsAre(m, i, pm, qm);
    OctetPairHits(w, p, q, pm, qm, cell);
  }
}
