/** Notions that every part of the model shares, and the few facts about division it needs. */
module Prelude {

  datatype Option<T> = None | Some(value: T)

  function Min(a: nat, b: nat): nat { if a < b then a else b }

  function Max(a: nat, b: nat): nat { if a > b then a else b }

  /** Unsigned 32-bit arithmetic. */
  function U32(x: int): (u: nat)
    ensures u < 0x1_0000_0000
    ensures 0 <= x < 0x1_0000_0000 ==> u == x
    ensures -0x1_0000_0000 <= x < 0 ==> u == x + 0x1_0000_0000
  {
    x % 0x1_0000_0000
  }

  lemma MulAtLeast(x: int, b: int)
    requires 0 < b
    ensures x >= 1 ==> x * b >= b
    ensures x <= -1 ==> x * b <= -b
  {
  }

  lemma DivMod(t: nat, d: nat)
    requires d > 0
    ensures t == t / d * d + t % d && 0 <= t % d < d
  {
  }

  lemma Ordered(a: nat, b: nat, d: nat)
    requires a < b && 0 < d
    ensures a * d + d <= b * d
  {
    MulAtLeast(b - a, d);
    assert b * d == a * d + (b - a) * d;
  }

  lemma UniqueQuotient(q: nat, r: nat, d: nat)
    requires d > 0 && r < d
    ensures (q * d + r) / d == q && (q * d + r) % d == r
  {
    var t := q * d + r;
    DivMod(t, d);
    if t / d > q {
      Ordered(q, t / d, d);
    } else if t / d < q {
      Ordered(t / d, q, d);
    }
  }

  lemma QuotientMonotone(t: nat, u: nat, d: nat)
    requires d > 0 && t <= u
    ensures t / d <= u / d
  {
    DivMod(t, d);
    DivMod(u, d);
    if t / d > u / d {
      Ordered(u / d, t / d, d);
    }
  }
}
