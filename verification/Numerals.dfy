/**
Decimal and hexadecimal numerals, and the digit loop of _PrintUnsigned (rtt_vsnprintf.c): it
searches for the weight of the leading digit by multiplication and prints by division, all
in unsigned 32-bit arithmetic.
*/
module Numerals {
  import opened Prelude
  import opened CircularBuffer

  predicate Radix(base: nat) { base == 10 || base == 16 }

  function Pow(base: nat, k: nat): (p: nat)
    requires Radix(base)
    ensures 0 < p
  {
    if k == 0 then 1 else if base == 10 then 10 * Pow(base, k - 1) else 16 * Pow(base, k - 1)
  }

  function Quo(v: nat, base: nat): (q: nat)
    requires Radix(base)
    ensures v >= base ==> q < v
  {
    if base == 10 then v / 10 else v / 16
  }

  function Rem(v: nat, base: nat): (r: nat)
    requires Radix(base)
    ensures r < base && v == base * Quo(v, base) + r
  {
    if base == 10 then v % 10 else v % 16
  }

  function DigitChar(d: nat): (c: char)
    requires d < 16
    ensures DigitValue(c) == d
  {
    "0123456789ABCDEF"[d]
  }

  function DigitValue(c: char): nat {
    if '0' <= c <= '9' then (c - '0') as nat
    else if 'A' <= c <= 'F' then (c - 'A') as nat + 10
    else 16
  }

  /** Number of digits of `n`. */
  function Count(n: nat, base: nat): (k: nat)
    requires Radix(base)
    ensures 0 < k
  {
    if n < base then 1 else 1 + Count(Quo(n, base), base)
  }

  /** The last `k` digits of `v`, with leading zeros. */
  function Digits(v: nat, base: nat, k: nat): (s: string)
    requires Radix(base)
    ensures |s| == k
  {
    if k == 0 then "" else Digits(Quo(v, base), base, k - 1) + [DigitChar(Rem(v, base))]
  }

  function Value(s: string, base: nat): nat {
    if s == "" then 0 else Value(s[..|s| - 1], base) * base + DigitValue(s[|s| - 1])
  }

  lemma LessDiv(v: nat, c: nat, p: nat)
    requires 0 < p && v < c * p
    ensures v / p < c
  {
    var x := v / p - c + 1;
    assert v == (v / p) * p + v % p;
    assert x * p == (v / p) * p - c * p + p;
    MulAtLeast(x, p);
  }

  lemma {:induction false} DigitsValue(v: nat, base: nat, k: nat)
    requires Radix(base) && v < Pow(base, k)
    ensures Value(Digits(v, base, k), base) == v
    ensures forall c :: c in Digits(v, base, k) ==> DigitValue(c) < base
  {
    if k == 0 {
    } else {
      DigitsValue(Quo(v, base), base, k - 1);
      var s := Digits(v, base, k);
      assert s[..k - 1] == Digits(Quo(v, base), base, k - 1);
    }
  }

  lemma {:induction false} CountBounds(v: nat, base: nat)
    requires Radix(base)
    ensures v < Pow(base, Count(v, base))
    ensures v >= base ==> v >= Pow(base, Count(v, base) - 1)
  {
    if v >= base {
      CountBounds(Quo(v, base), base);
    } else {
      assert Pow(base, 1) == base;
    }
  }

  lemma {:induction false} PowMonotone(base: nat, i: nat, j: nat)
    requires Radix(base) && i <= j
    ensures Pow(base, i) <= Pow(base, j)
  {
    if i == j {
    } else {
      PowMonotone(base, i, j - 1);
    }
  }

  lemma CountIs(v: nat, base: nat, k: nat)
    requires Radix(base) && v < Pow(base, k + 1)
    ensures Count(v, base) <= k + 1
    ensures v >= Pow(base, k) ==> Count(v, base) == k + 1
  {
    CountBounds(v, base);
    if Count(v, base) > k + 1 {
      PowMonotone(base, k + 1, Count(v, base) - 1);
    }
    if v >= Pow(base, k) && Count(v, base) <= k {
      PowMonotone(base, Count(v, base), k);
    }
  }

  lemma LastDigit(v: nat, base: nat, q: nat, p: nat, r: nat)
    requires Radix(base) && v == q * (base * p) + r
    ensures 0 <= q * p && Quo(v, base) == q * p + Quo(r, base) && Rem(v, base) == Rem(r, base)
  {
    assert q * (base * p) == base * (q * p);
  }

  lemma PrependDigit(v: nat, base: nat, k: nat, q: nat, r: nat)
    requires Radix(base) && q < base && 0 < k && Rem(v, base) == Rem(r, base)
    requires Digits(Quo(v, base), base, k) == [DigitChar(q)] + Digits(Quo(r, base), base, k - 1)
    ensures Digits(v, base, k + 1) == [DigitChar(q)] + Digits(r, base, k)
  {
  }

  /** Printing from the leading digit `q` down gives the same numeral. */
  lemma {:induction false} LeadingDigit(v: nat, base: nat, k: nat, p: nat, q: nat, r: nat)
    requires Radix(base) && p == Pow(base, k) && q < base && r < p && v == q * p + r
    ensures Digits(v, base, k + 1) == [DigitChar(q)] + Digits(r, base, k)
    decreases k
  {
    if k == 0 {
      assert v == q && Quo(v, base) == 0;
      assert Digits(v, base, 1) == Digits(0, base, 0) + [DigitChar(q)];
    } else {
      var p' := Pow(base, k - 1);
      assert p == base * p';
      LastDigit(v, base, q, p', r);
      LeadingDigit(Quo(v, base), base, k - 1, p', q, Quo(r, base));
      PrependDigit(v, base, k, q, r);
    }
  }

  lemma DivModFacts(v: nat, c: nat, p: nat)
    requires 0 < p && v < c * p
    ensures 0 <= v / p < c && 0 <= v % p < p && v == (v / p) * p + v % p
  {
    LessDiv(v, c, p);
  }

  /** What the digit loop does: print a numeral, divide by zero, or read past the digit table. */
  datatype Printed = Fault | Text(s: string)

  lemma Grows(v: nat, base: nat, weight: nat)
    requires Radix(base) && 0 < weight && v / weight >= base
    ensures weight < weight * base <= v
  {
    var q := v / weight;
    assert v == q * weight + v % weight;
    assert (q - base + 1) * weight == q * weight - base * weight + weight;
    MulAtLeast(q - base + 1, weight);
  }

  /** The search for the leading weight; `prec` - 1 steps are taken unconditionally. */
  function Search(v: nat, base: nat, weight: nat, prec: nat): (w: nat)
    requires Radix(base) && v < 0x1_0000_0000 && weight < 0x1_0000_0000
    ensures w < 0x1_0000_0000
    decreases prec, if weight == 0 || v < weight then 0 else v - weight
  {
    if prec > 1 then Search(v, base, U32(weight * base), prec - 1)
    else if weight == 0 || v / weight < base then weight
    else
      Grows(v, base, weight);
      Search(v, base, U32(weight * base), prec)
  }

  function Emit(v: nat, base: nat, weight: nat): Printed
    requires Radix(base)
    decreases weight
  {
    if weight == 0 || v / weight >= 16 then Fault
    else
      var d := DigitChar(v / weight);
      if Quo(weight, base) == 0 then Text([d])
      else
        match Emit(v % weight, base, Quo(weight, base))
        case Fault => Fault
        case Text(s) => Text([d] + s)
  }

  /** The digits _PrintUnsigned prints for `v` with a minimum of `prec`. */
  function PrintDigits(v: nat, base: nat, prec: nat): Printed
    requires Radix(base) && v < 0x1_0000_0000
  {
    Emit(v, base, Search(v, base, 1, prec))
  }

  /** The precision up to which every weight fits 32 bits. */
  function MaxPrecision(base: nat): nat { if base == 10 then 10 else 8 }

  lemma PowersFit(base: nat, k: nat)
    requires Radix(base) && k < MaxPrecision(base)
    ensures Pow(base, k) < 0x1_0000_0000
  {
    assert Pow(10, 3) == 1000;
    assert Pow(10, 6) == 1_000_000;
    assert Pow(10, 9) == 1_000_000_000;
    assert Pow(16, 3) == 0x1000;
    assert Pow(16, 6) == 0x100_0000;
    assert Pow(16, 7) == 0x1000_0000;
    PowMonotone(base, k, MaxPrecision(base) - 1);
  }

  /** The search ends at the power of the base under the leading digit. */
  lemma {:induction false} SearchIsPow(v: nat, base: nat, k: nat, prec: nat) returns (j: nat)
    requires Radix(base) && v < 0x1_0000_0000 && Pow(base, k) < 0x1_0000_0000
    requires prec > 1 ==> k + prec <= MaxPrecision(base)
    ensures Pow(base, j) < 0x1_0000_0000 && Search(v, base, Pow(base, k), prec) == Pow(base, j)
    ensures v < Pow(base, j + 1)
    ensures var least := k + (if prec > 1 then prec - 1 else 0);
      j == least || (j > least && v >= Pow(base, j))
    decreases prec, if v < Pow(base, k) then 0 else v - Pow(base, k)
  {
    var p := Pow(base, k);
    assert U32(Pow(base, k + 1)) == U32(p * base);
    if prec > 1 {
      PowersFit(base, k + 1);
      j := SearchIsPow(v, base, k + 1, prec - 1);
    } else if v / p < base {
      j := k;
      BelowNext(v, base, p);
    } else {
      Grows(v, base, p);
      j := SearchIsPow(v, base, k + 1, prec);
    }
  }

  lemma BelowNext(v: nat, base: nat, p: nat)
    requires Radix(base) && 0 < p && v / p < base
    ensures v < base * p
  {
    assert v == (v / p) * p + v % p;
    assert (base - v / p) * p == base * p - (v / p) * p;
    MulAtLeast(base - v / p, p);
  }

  lemma {:induction false} EmitIsDigits(v: nat, base: nat, k: nat)
    requires Radix(base) && v < Pow(base, k + 1)
    ensures Emit(v, base, Pow(base, k)) == Text(Digits(v, base, k + 1))
    decreases k
  {
    var p := Pow(base, k);
    DivModFacts(v, base, p);
    LeadingDigit(v, base, k, p, v / p, v % p);
    if k == 0 {
      assert Digits(v % p, base, 0) == "";
    } else {
      assert Quo(p, base) == Pow(base, k - 1);
      EmitIsDigits(v % p, base, k - 1);
    }
  }

  lemma PrecisionEnough(v: nat, base: nat, prec: nat)
    requires Radix(base) && v < 0x1_0000_0000 && prec <= MaxPrecision(base)
    ensures PrintDigits(v, base, prec) == Text(Digits(v, base, Max(prec, Count(v, base))))
  {
    assert Pow(base, 0) == 1;
    var j := SearchIsPow(v, base, 0, prec);
    EmitIsDigits(v, base, j);
    CountIs(v, base, j);
  }

  lemma {:induction false} EmitLength(v: nat, base: nat, weight: nat)
    requires Radix(base) && Emit(v, base, weight).Text?
    ensures |Emit(v, base, weight).s| == Count(weight, base)
    decreases weight
  {
    if Quo(weight, base) == 0 {
    } else {
      EmitLength(v % weight, base, Quo(weight, base));
    }
  }

  lemma {:induction false} ZeroWeight(v: nat, base: nat, prec: nat)
    requires Radix(base) && v < 0x1_0000_0000
    ensures Search(v, base, 0, prec) == 0
    decreases prec
  {
    if prec <= 1 {
    } else {
      ZeroWeight(v, base, prec - 1);
    }
  }

  /** Eight multiplications by sixteen shift the weight out of the word. */
  lemma HexOverflow(v: nat, prec: nat)
    requires v < 0x1_0000_0000 && prec > 8
    ensures Search(v, 16, 1, prec) == 0
  {
    assert Search(v, 16, 1, prec) == Search(v, 16, 0x100, prec - 2);
    assert Search(v, 16, 0x100, prec - 2) == Search(v, 16, 0x1_0000, prec - 4);
    assert Search(v, 16, 0x1_0000, prec - 4) == Search(v, 16, 0x100_0000, prec - 6);
    assert Search(v, 16, 0x100_0000, prec - 6) == Search(v, 16, 0, prec - 8);
    ZeroWeight(v, 16, prec - 8);
  }

  /**
  The digit loop prints the numeral, with at least `prec` digits, if and only if the precision
  is at most 10 (decimal) or 8 (hexadecimal).
  */
  lemma PrecisionExact(v: nat, base: nat, prec: nat)
    requires Radix(base) && v < 0x1_0000_0000
    ensures PrintDigits(v, base, prec) == Text(Digits(v, base, Max(prec, Count(v, base))))
       <==> prec <= MaxPrecision(base)
  {
    if prec <= MaxPrecision(base) {
      PrecisionEnough(v, base, prec);
    } else if base == 16 {
      HexOverflow(v, prec);
    } else {
      var weight := Search(v, base, 1, prec);
      PowersFit(base, 9);
      assert Pow(10, 10) == 10 * Pow(10, 9) && Pow(10, 9) == 10 * 10 * 10 * Pow(10, 6);
      assert Pow(10, 6) == 1_000_000;
      CountIs(weight, base, 9);
      if PrintDigits(v, base, prec).Text? {
        EmitLength(v, base, weight);
      }
    }
  }
}
