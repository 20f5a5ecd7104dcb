/**
SEGGER_RTT_vsnprintf (rtt_vsnprintf.c). The pure renderer below parses a format and lays the
arguments out; the routine writes characters one by one into a bounded buffer. FormatBounded
says that the buffer gets exactly the front of the rendered text, and that running out of
space changes neither the parse nor the use of arguments.
*/
module Formatter {
  import opened Prelude
  import opened CircularBuffer
  import opened Numerals

  datatype Flags = Flags(left: bool, zero: bool, plus: bool, alternate: bool)

  datatype Piece =
    | Plain(c: char)
    | Conversion(flags: Flags, width: nat, precision: nat, spec: char)

  /** An int argument, in 32-bit two's complement, or a string argument. */
  datatype Arg = Int(v: int) | Str(s: string)

  const NO_FLAGS := Flags(false, false, false, false)
  const INT_MIN := -0x8000_0000
  const INT_MAX := 0x7FFF_FFFF

  // ---------------------------------------------------------------- layout

  function Repeat(c: char, n: nat): (s: string)
    ensures |s| == n
  {
    seq(n, _ => c)
  }

  function Minus(a: nat, b: nat): nat { if a > b then a - b else 0 }

  /** A signed numeral, counted as `digits` characters, in a field of at least `width` characters. */
  function Layout(sign: string, body: string, digits: nat, prec: nat, width: nat, f: Flags): string {
    var pad := Minus(width, |sign| + digits);
    if f.left then sign + body + Repeat(' ', pad)
    else if f.zero && prec == 0 then sign + Repeat('0', pad) + body
    else Repeat(' ', pad) + sign + body
  }

  /** The numeral of `v`, with at least `prec` digits. */
  function Numeral(v: nat, base: nat, prec: nat): (s: string)
    requires Radix(base)
    ensures |s| == Max(prec, Count(v, base))
  {
    Digits(v, base, Max(prec, Count(v, base)))
  }

  /** The digits the loops print; nothing if they divide by zero or read past the digit table. */
  function Printout(v: nat, base: nat, prec: nat): string
    requires Radix(base) && v < 0x1_0000_0000
  {
    match PrintDigits(v, base, prec)
    case Text(t) => t
    case Fault => ""
  }

  /** The width the routines reckon with. */
  function Width(v: nat, base: nat, prec: nat): nat
    requires Radix(base)
  {
    Max(prec, Count(v, base))
  }

  function RenderUnsigned(v: nat, base: nat, prec: nat, width: nat, f: Flags): string
    requires Radix(base) && v < 0x1_0000_0000
  {
    Layout("", Printout(v, base, prec), Width(v, base, prec), prec, width, f)
  }

  function SignOf(v: int, f: Flags): string {
    if v < 0 then "-" else if f.plus then "+" else ""
  }

  function Abs(v: int): nat { if v < 0 then -v else v }

  predicate InRange(v: int) { INT_MIN <= v <= INT_MAX }

  function RenderInt(v: int, prec: nat, width: nat, f: Flags): string
    requires InRange(v)
  {
    Layout(SignOf(v, f), Printout(Abs(v), 10, prec), Width(Abs(v), 10, prec), prec, width, f)
  }

  // ---------------------------------------------------------------- reading back

  function SkipSpaces(s: string): string {
    if s != "" && s[0] == ' ' then SkipSpaces(s[1..]) else s
  }

  /** The value of the digits at the start of `s`, after `acc`. */
  function ReadDigits(s: string, base: nat, acc: nat): nat {
    if s == "" || DigitValue(s[0]) >= base then acc
    else ReadDigits(s[1..], base, acc * base + DigitValue(s[0]))
  }

  /** What a reader makes of a printed number: spaces, a sign, digits. */
  function ReadBack(s: string, base: nat): int {
    var t := SkipSpaces(s);
    if t != "" && t[0] == '-' then 0 - ReadDigits(t[1..], base, 0)
    else if t != "" && t[0] == '+' then ReadDigits(t[1..], base, 0)
    else ReadDigits(t, base, 0)
  }

  lemma {:induction false} SkipsPadding(n: nat, s: string)
    requires s != "" && s[0] != ' '
    ensures SkipSpaces(Repeat(' ', n) + s) == s
    decreases n
  {
    var t := Repeat(' ', n) + s;
    if n > 0 {
      assert t[1..] == Repeat(' ', n - 1) + s;
      SkipsPadding(n - 1, s);
    } else {
      assert t == s;
    }
  }

  lemma {:induction false} ReadsZeros(n: nat, s: string, base: nat)
    requires Radix(base)
    ensures ReadDigits(Repeat('0', n) + s, base, 0) == ReadDigits(s, base, 0)
    decreases n
  {
    var t := Repeat('0', n) + s;
    if n > 0 {
      assert t[1..] == Repeat('0', n - 1) + s;
      ReadsZeros(n - 1, s, base);
    } else {
      assert t == s;
    }
  }

  /** Reading digits and then spaces gives the value of the digits. */
  lemma {:induction false} ReadsValue(s: string, n: nat, base: nat)
    requires Radix(base) && forall c :: c in s ==> DigitValue(c) < base
    ensures ReadDigits(s + Repeat(' ', n), base, 0) == Value(s, base)
  {
    ReadsOnto("", s, n, base);
    assert "" + s == s;
  }

  lemma {:induction false} ReadsOnto(done: string, s: string, n: nat, base: nat)
    requires Radix(base) && forall c :: c in s ==> DigitValue(c) < base
    ensures ReadDigits(s + Repeat(' ', n), base, Value(done, base)) == Value(done + s, base)
    decreases |s|
  {
    var t := s + Repeat(' ', n);
    if s == "" {
      assert done + s == done;
      assert t != "" ==> t[0] == ' ';
    } else {
      var next := done + [s[0]];
      assert next[..|next| - 1] == done;
      assert t[0] == s[0] && t[1..] == s[1..] + Repeat(' ', n);
      assert next + s[1..] == done + s;
      ReadsOnto(next, s[1..], n, base);
    }
  }

  lemma NumeralValue(v: nat, base: nat, prec: nat)
    requires Radix(base)
    ensures Value(Numeral(v, base, prec), base) == v
    ensures forall c :: c in Numeral(v, base, prec) ==> DigitValue(c) < base
  {
    var k := Max(prec, Count(v, base));
    CountBounds(v, base);
    PowMonotone(base, Count(v, base), k);
    DigitsValue(v, base, k);
  }

  /** Spaces, a sign, zeros, a numeral and spaces read back as the signed value of the numeral. */
  lemma PartsReadBack(lead: nat, sign: string, zeros: nat, body: string, trail: nat, base: nat)
    requires Radix(base) && body != "" && forall c :: c in body ==> DigitValue(c) < base
    requires sign == "" || sign == "+" || sign == "-"
    ensures ReadBack(Parts(lead, sign, zeros, body, trail), base)
         == if sign == "-" then 0 - Value(body, base) else Value(body, base)
  {
    var digits := Repeat('0', zeros) + (body + Repeat(' ', trail));
    ReadsValue(body, trail, base);
    ReadsZeros(zeros, body + Repeat(' ', trail), base);
    assert digits[0] == if zeros > 0 then '0' else body[0];
    assert DigitValue(digits[0]) < base;
    SkipsPadding(lead, sign + digits);
    assert sign != "" ==> (sign + digits)[1..] == digits;
    assert sign == "" ==> sign + digits == digits;
  }

  function Parts(lead: nat, sign: string, zeros: nat, body: string, trail: nat): string {
    Repeat(' ', lead) + (sign + (Repeat('0', zeros) + (body + Repeat(' ', trail))))
  }

  lemma LayoutIsParts(sign: string, body: string, digits: nat, prec: nat, width: nat, f: Flags)
    ensures var pad, all := Minus(width, |sign| + digits), Layout(sign, body, digits, prec, width, f);
      && (f.left ==> all == Parts(0, sign, 0, body, pad))
      && (!f.left && f.zero && prec == 0 ==> all == Parts(0, sign, pad, body, 0))
      && (!f.left && !(f.zero && prec == 0) ==> all == Parts(pad, sign, 0, body, 0))
  {
    assert Repeat(' ', 0) == "" == Repeat('0', 0);
  }

  lemma LayoutReadsBack(sign: string, body: string, digits: nat, prec: nat, width: nat, f: Flags, base: nat)
    requires Radix(base) && body != "" && forall c :: c in body ==> DigitValue(c) < base
    requires sign == "" || sign == "+" || sign == "-"
    ensures ReadBack(Layout(sign, body, digits, prec, width, f), base)
         == if sign == "-" then 0 - Value(body, base) else Value(body, base)
  {
    var pad := Minus(width, |sign| + digits);
    LayoutIsParts(sign, body, digits, prec, width, f);
    if f.left {
      PartsReadBack(0, sign, 0, body, pad, base);
    } else if f.zero && prec == 0 {
      PartsReadBack(0, sign, pad, body, 0, base);
    } else {
      PartsReadBack(pad, sign, 0, body, 0, base);
    }
  }

  lemma LayoutLength(sign: string, body: string, prec: nat, width: nat, f: Flags)
    ensures |Layout(sign, body, |body|, prec, width, f)| == Max(width, |sign| + |body|)
  {
  }

  lemma SignedValue(v: int, f: Flags)
    ensures v == if SignOf(v, f) == "-" then 0 - Abs(v) else Abs(v)
    ensures SignOf(v, f) == "" || SignOf(v, f) == "+" || SignOf(v, f) == "-"
  {
  }

  /** Within the precision the loops can handle, they print the numeral. */
  lemma PrintsNumeral(v: nat, base: nat, prec: nat)
    requires Radix(base) && v < 0x1_0000_0000 && prec <= MaxPrecision(base)
    ensures Printout(v, base, prec) == Numeral(v, base, prec)
  {
    PrecisionEnough(v, base, prec);
  }

  /** Every printed int reads back, and fills its field exactly. */
  lemma IntReadsBack(v: int, prec: nat, width: nat, f: Flags)
    requires InRange(v) && prec <= MaxPrecision(10)
    ensures ReadBack(RenderInt(v, prec, width, f), 10) == v
    ensures |RenderInt(v, prec, width, f)| == Max(width, |SignOf(v, f)| + Max(prec, Count(Abs(v), 10)))
  {
    var sign, body := SignOf(v, f), Numeral(Abs(v), 10, prec);
    PrintsNumeral(Abs(v), 10, prec);
    NumeralValue(Abs(v), 10, prec);
    SignedValue(v, f);
    LayoutLength(sign, body, prec, width, f);
    LayoutReadsBack(sign, body, |body|, prec, width, f, 10);
  }

  lemma UnsignedReadsBack(v: nat, base: nat, prec: nat, width: nat, f: Flags)
    requires Radix(base) && v < 0x1_0000_0000 && prec <= MaxPrecision(base)
    ensures ReadBack(RenderUnsigned(v, base, prec, width, f), base) == v
    ensures |RenderUnsigned(v, base, prec, width, f)| == Max(width, Max(prec, Count(v, base)))
  {
    var body := Numeral(v, base, prec);
    PrintsNumeral(v, base, prec);
    NumeralValue(v, base, prec);
    LayoutLength("", body, prec, width, f);
    LayoutReadsBack("", body, |body|, prec, width, f, base);
  }

  // ---------------------------------------------------------------- the format language

  function At(fmt: string, i: nat): char { if i < |fmt| then fmt[i] else '\0' }

  predicate IsDigit(c: char) { '0' <= c <= '9' }

  function FlagsFrom(fmt: string, i: nat, f: Flags): (r: (Flags, nat))
    requires i <= |fmt|
    ensures i <= r.1 <= |fmt|
    decreases |fmt| - i
  {
    match At(fmt, i)
    case '-' => FlagsFrom(fmt, i + 1, f.(left := true))
    case '0' => FlagsFrom(fmt, i + 1, f.(zero := true))
    case '+' => FlagsFrom(fmt, i + 1, f.(plus := true))
    case '#' => FlagsFrom(fmt, i + 1, f.(alternate := true))
    case _ => (f, i)
  }

  /** The flags are those in the longest run of flag characters, in any order and however often. */
  lemma {:induction false} FlagsExact(fmt: string, i: nat, f: Flags)
    requires i <= |fmt|
    ensures var (r, j) := FlagsFrom(fmt, i, f);
      && (forall k :: i <= k < j ==> fmt[k] in "-0+#") && At(fmt, j) !in "-0+#"
      && (r.left <==> f.left || '-' in fmt[i..j]) && (r.zero <==> f.zero || '0' in fmt[i..j])
      && (r.plus <==> f.plus || '+' in fmt[i..j]) && (r.alternate <==> f.alternate || '#' in fmt[i..j])
    decreases |fmt| - i
  {
    var c := At(fmt, i);
    if c in "-0+#" {
      var g := f.(left := f.left || c == '-', zero := f.zero || c == '0', plus := f.plus || c == '+',
                  alternate := f.alternate || c == '#');
      assert FlagsFrom(fmt, i, f) == FlagsFrom(fmt, i + 1, g);
      FlagsExact(fmt, i + 1, g);
      var j := FlagsFrom(fmt, i, f).1;
      assert fmt[i..j] == [c] + fmt[i + 1..j];
    }
  }

  function NumberFrom(fmt: string, i: nat, acc: nat): (r: (nat, nat))
    requires i <= |fmt|
    ensures i <= r.1 <= |fmt|
    decreases |fmt| - i
  {
    if IsDigit(At(fmt, i)) then NumberFrom(fmt, i + 1, U32(acc * 10 + (At(fmt, i) - '0') as nat))
    else (acc, i)
  }

  function PrecisionFrom(fmt: string, i: nat): (r: (nat, nat))
    requires i <= |fmt|
    ensures i <= r.1 <= |fmt|
  {
    if At(fmt, i) == '.' then NumberFrom(fmt, i + 1, 0) else (0, i)
  }

  function ModifiersFrom(fmt: string, i: nat): (j: nat)
    requires i <= |fmt|
    ensures i <= j <= |fmt|
    decreases |fmt| - i
  {
    if At(fmt, i) == 'l' || At(fmt, i) == 'h' then ModifiersFrom(fmt, i + 1) else i
  }

  /** Length modifiers are skipped, the longest run of them. */
  lemma {:induction false} ModifiersExact(fmt: string, i: nat)
    requires i <= |fmt|
    ensures var j := ModifiersFrom(fmt, i); (forall k :: i <= k < j ==> fmt[k] in "lh") && At(fmt, j) !in "lh"
    decreases |fmt| - i
  {
    if At(fmt, i) in "lh" {
      ModifiersExact(fmt, i + 1);
    }
  }

  /** The conversion after a '%' at i - 1, and the index behind its specifier. */
  function ConversionAt(fmt: string, i: nat): (r: (Piece, nat))
    requires i <= |fmt|
    ensures i < r.1 <= |fmt| + 1 && r.0.Conversion?
  {
    var (f, i1) := FlagsFrom(fmt, i, NO_FLAGS);
    var (w, i2) := NumberFrom(fmt, i1, 0);
    var (p, i3) := PrecisionFrom(fmt, i2);
    var i4 := ModifiersFrom(fmt, i3);
    (Conversion(f, w, p, At(fmt, i4)), i4 + 1)
  }

  /** The pieces from index i on; a format that ends inside a conversion has none. */
  function Parse(fmt: string, i: nat): (r: Result<seq<Piece>>)
    requires i <= |fmt|
    decreases |fmt| - i
  {
    if i == |fmt| then Ok([])
    else
      var (p, next) := if fmt[i] == '%' then ConversionAt(fmt, i + 1) else (Plain(fmt[i]), i + 1);
      if next > |fmt| then Incomplete
      else
        match Parse(fmt, next)
        case Ok(rest) => Ok([p] + rest)
        case Incomplete => Incomplete
  }

  /** A C string has no NUL before its end. */
  predicate NulFree(s: string) { '\0' !in s }

  datatype Result<T> = Ok(value: T) | Incomplete

  // ---------------------------------------------------------------- the renderer

  predicate TakesInt(p: Piece) {
    p.Conversion? && p.spec in "cduxXp"
  }

  predicate TakesStr(p: Piece) {
    p.Conversion? && p.spec == 's'
  }

  function Uses(p: Piece): nat { if TakesInt(p) || TakesStr(p) then 1 else 0 }

  /** The digit loops run through: no division by zero, no access past the digit table. */
  predicate Printable(v: nat, base: nat, prec: nat)
    requires Radix(base) && v < 0x1_0000_0000
  {
    PrintDigits(v, base, prec).Text?
  }

  /**
  The arguments fit the piece: the right kind of argument, strings that end at their first NUL,
  a precision the digit loops survive, and for %d not the one int that cannot be negated.
  */
  predicate Fits(p: Piece, args: seq<Arg>) {
    && (TakesInt(p) ==> args != [] && args[0].Int? && InRange(args[0].v))
    && (TakesStr(p) ==> args != [] && args[0].Str? && NulFree(args[0].s))
    && (p.Conversion? && p.spec == 'd' ==> args[0].v != INT_MIN && Printable(Abs(args[0].v), 10, p.precision))
    && (p.Conversion? && p.spec == 'u' ==> Printable(U32(args[0].v), 10, p.precision))
    && (p.Conversion? && p.spec in "xX" ==> Printable(U32(args[0].v), 16, p.precision))
  }

  predicate FitAll(ps: seq<Piece>, args: seq<Arg>) {
    ps != [] ==> Fits(ps[0], args) && FitAll(ps[1..], args[Uses(ps[0])..])
  }

  function RenderPiece(p: Piece, args: seq<Arg>): string
    requires Fits(p, args)
  {
    match p
    case Plain(c) => [c]
    case Conversion(f, width, prec, spec) =>
      match spec
      case 'c' => [(args[0].v % 0x100) as char]
      case 'd' => RenderInt(args[0].v, prec, width, f)
      case 'u' => RenderUnsigned(U32(args[0].v), 10, prec, width, f)
      case 'x' => RenderUnsigned(U32(args[0].v), 16, prec, width, f)
      case 'X' => RenderUnsigned(U32(args[0].v), 16, prec, width, f)
      case 's' => args[0].s
      case 'p' => RenderUnsigned(U32(args[0].v), 16, 8, 8, NO_FLAGS)
      case '%' => "%"
      case _ => ""
  }

  function Render(ps: seq<Piece>, args: seq<Arg>): string
    requires FitAll(ps, args)
  {
    if ps == [] then "" else RenderPiece(ps[0], args) + Render(ps[1..], args[Uses(ps[0])..])
  }

  function ArgsUsed(ps: seq<Piece>): nat {
    if ps == [] then 0 else Uses(ps[0]) + ArgsUsed(ps[1..])
  }
}
