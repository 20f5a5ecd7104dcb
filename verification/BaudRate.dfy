/**
The baud rate divider of the serial port (CUsart.cpp): how far the programmed divider can be
off, and when rounding loses a carry.
*/
module BaudRate {
  import opened Prelude

  /** setBaudrate up to the register write, in 32-bit unsigned arithmetic; it divides by no zero. */
  method Divider(clock: nat, baud: nat, over8: bool) returns (brr: nat)
    requires clock < 0x1_0000_0000 && baud < 0x1_0000_0000 && U32(Factor(over8) * baud) > 0
    ensures brr == Register(Div(U32(25 * clock), U32(Factor(over8) * baud)), over8) % 0x1_0000
    ensures NoWrap(clock, baud, over8) && Register(IntegerDivider(clock, baud, over8), over8) < 0x1_0000 ==>
              (Accurate(brr, clock, baud, over8) <==> IntegerDivider(clock, baud, over8) % 100 < Carry(over8))
  {
    var integerDivider;
    if over8 {
      integerDivider := Div(U32(25 * clock), U32(2 * baud));
    } else {
      integerDivider := Div(U32(25 * clock), U32(4 * baud));
    }
    var reg := Compose(integerDivider, over8);
    brr := reg % 0x1_0000;
    if NoWrap(clock, baud, over8) {
      assert integerDivider == IntegerDivider(clock, baud, over8);
      assert reg < 0x1_0000 ==> brr == reg;
      AccurateExact(clock, baud, over8);
    }
  }

  /** Neither product of the division passes 32 bits. */
  predicate NoWrap(clock: nat, baud: nat, over8: bool) {
    25 * clock < 0x1_0000_0000 && 0 < Factor(over8) * baud < 0x1_0000_0000
  }

  function Factor(over8: bool): nat { if over8 then 2 else 4 }

  /** Mantissa and rounded fraction; the low four bits of the mantissa are clear, so or-ing is adding. */
  method Compose(integerDivider: nat, over8: bool) returns (reg: nat)
    ensures reg == Register(integerDivider, over8)
  {
    reg := (integerDivider / 100) * 16;
    Fields(integerDivider / 100, 0);
    var fraction := integerDivider - 100 * (reg / 16);
    assert fraction == integerDivider % 100;
    if over8 {
      reg := reg + ((fraction * 8 + 50) / 100) % 8;
    } else {
      reg := reg + ((fraction * 16 + 50) / 100) % 16;
    }
  }

  function Div(x: nat, d: nat): nat
    requires d > 0
  {
    x / d
  }

  /** A hundred times the divider, rounded down. */
  function IntegerDivider(clock: nat, baud: nat, over8: bool): nat
    requires baud > 0
  {
    Div(25 * clock, Factor(over8) * baud)
  }

  /** Samples per bit */
  function Samples(over8: bool): nat { if over8 then 8 else 16 }

  function Register(divider: nat, over8: bool): nat {
    divider / 100 * 16 + ((divider % 100 * Samples(over8) + 50) / 100) % Samples(over8)
  }

  /** Clock cycles per bit that the hardware takes from the register: mantissa and fraction. */
  function Cycles(brr: nat, over8: bool): nat {
    if over8 then brr / 16 * 8 + brr % 8 else brr
  }

  /** Rounding a fraction to sixteenths or eighths overflows its field from 97 and 94 on. */
  function Carry(over8: bool): nat { if over8 then 94 else 97 }

  lemma Rounded(f: nat)
    requires f < 100
    ensures var r := (f * 16 + 50) / 100 % 16;
      if f < 97 then 16 * f - 50 < 100 * r <= 16 * f + 50 else r == 0
    ensures var r := (f * 8 + 50) / 100 % 8;
      if f < 94 then 8 * f - 50 < 100 * r <= 8 * f + 50 else r == 0
  {
  }

  lemma Fields(q: nat, r: nat)
    requires r < 16
    ensures (q * 16 + r) / 16 == q && (r < 8 ==> (q * 16 + r) % 8 == r)
  {
  }

  lemma CyclesOf(divider: nat, over8: bool)
    ensures var c := Cycles(Register(divider, over8), over8);
      && (divider % 100 < Carry(over8) ==>
            Samples(over8) * divider - 50 < 100 * c <= Samples(over8) * divider + 50)
      && (divider % 100 >= Carry(over8) ==> 100 * c <= Samples(over8) * divider - 750)
  {
    var (q, f) := (divider / 100, divider % 100);
    Rounded(f);
    Fields(q, (f * Samples(over8) + 50) / 100 % Samples(over8));
  }

  lemma Scale(c: nat, lo: int, hi: int, baud: nat)
    requires lo <= 100 * c <= hi
    ensures lo * baud <= 100 * (c * baud) <= hi * baud
  {
    assert 100 * (c * baud) == (100 * c) * baud;
    if lo < 100 * c {
      assert (100 * c - lo) * baud >= 0;
    }
    assert (hi - 100 * c) * baud >= 0;
  }

  /** The error allowed for: half a step of rounding, and what the hundredths cut off. */
  predicate Accurate(brr: nat, clock: nat, baud: nat, over8: bool) {
    -(Samples(over8) + 49) * baud < 100 * (Cycles(brr, over8) * baud - clock) <= 50 * baud
  }

  lemma DividerBounds(clock: nat, baud: nat, over8: bool)
    requires baud > 0
    ensures var (d, s) := (IntegerDivider(clock, baud, over8), Samples(over8));
      100 * clock - s * baud < s * d * baud <= 100 * clock
  {
    var k := Factor(over8) * baud;
    var d := (25 * clock) / k;
    DivMod(25 * clock, k);
    assert Samples(over8) * d * baud == 4 * (d * k);
  }

  lemma Within(c: nat, s: nat, n: nat, clock: nat, baud: nat)
    requires 100 * clock - s * baud < n * baud <= 100 * clock && n - 49 <= 100 * c <= n + 50
    ensures -(s + 49) * baud < 100 * (c * baud - clock) <= 50 * baud
  {
    Scale(c, n - 49, n + 50, baud);
    assert (n - 49) * baud == n * baud - 49 * baud;
    assert (n + 50) * baud == n * baud + 50 * baud;
    assert -(s + 49) * baud == -(s * baud) - 49 * baud;
  }

  lemma Beyond(c: nat, s: nat, n: nat, clock: nat, baud: nat)
    requires baud > 0 && s <= 16 && n * baud <= 100 * clock && 100 * c <= n - 750
    ensures 100 * (c * baud - clock) <= -(s + 49) * baud
  {
    Scale(c, 0, n - 750, baud);
    assert (n - 750) * baud == n * baud - 750 * baud;
    Scale(0, -(s + 49), 0, baud);
    assert (750 - s - 49) * baud >= 0;
  }

  /**
  The programmed divider is accurate if and only if rounding the fraction does not carry; the
  code masks that carry away.
  */
  lemma AccurateExact(clock: nat, baud: nat, over8: bool)
    requires baud > 0
    ensures var d := IntegerDivider(clock, baud, over8);
      Accurate(Register(d, over8), clock, baud, over8) <==> d % 100 < Carry(over8)
  {
    var (d, s) := (IntegerDivider(clock, baud, over8), Samples(over8));
    var c := Cycles(Register(d, over8), over8);
    CyclesOf(d, over8);
    DividerBounds(clock, baud, over8);
    if d % 100 < Carry(over8) {
      Within(c, s, s * d, clock, baud);
    } else {
      Beyond(c, s, s * d, clock, baud);
    }
  }
}
