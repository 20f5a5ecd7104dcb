/**
The imperative half of rtt_vsnprintf.c: the buffer descriptor, the printing loops and the
format loop, proved against the renderer of module Formatter. ReturnValue counts the stored
characters and never turns negative, so the original's checks for that are not repeated.
*/
module FormatWriter {
  import opened Prelude
  import opened CircularBuffer
  import opened Numerals
  import opened Formatter
  import opened FormatMeaning
  import opened FormatText

  /** The width loop: the number of digits of `v`. */
  method CountDigits(v: nat, base: nat) returns (width: nat)
    requires Radix(base)
    ensures width == Count(v, base)
  {
    var number: nat := v;
    width := 1;
    while number >= base
      invariant width + Count(number, base) == 1 + Count(v, base)
    {
      number := Quo(number, base);
      width := width + 1;
    }
  }

  /** The number of digits to print. */
  method FieldDigits(v: nat, base: nat, prec: nat) returns (width: nat)
    requires Radix(base)
    ensures width == Width(v, base, prec)
  {
    width := CountDigits(v, base);
    if prec > width {
      width := prec;
    }
  }

  class Descriptor {
    const buf: array<char>
    const size: nat
    var cnt: nat
    var returnValue: int
    /** All characters offered so far, stored or not, and the buffer as it was. */
    ghost var text: string
    ghost const before: string

    constructor (buf: array<char>, size: nat)
      requires size <= buf.Length && size <= INT_MAX
      ensures Valid() && this.buf == buf && this.size == size && text == "" && before == buf[..]
    {
      this.buf, this.size, cnt, returnValue, text, before := buf, size, 0, 0, "", buf[..];
    }

    ghost predicate Valid()
      reads this, buf
    {
      && size <= buf.Length == |before|
      && cnt == (if |text| < size then |text| else size) && returnValue == cnt
      && buf[..] == Blit(before, 0, text[..cnt])
    }

    /** _StoreChar */
    method StoreChar(c: char)
      requires Valid()
      modifies this`cnt, this`returnValue, this`text, buf
      ensures Valid() && text == old(text) + [c]
    {
      ghost var all := text + [c];
      if cnt + 1 <= size {
        BlitStep(before, 0, all, cnt);
        assert all[..cnt] == text[..cnt];
        buf[cnt] := c;
        cnt := cnt + 1;
        returnValue := returnValue + 1;
      } else {
        assert all[..cnt] == text[..cnt];
      }
      text := all;
    }

    /** The padding loop that occurs in every printing routine. */
    method Pad(c: char, width: nat, fieldWidth: nat) returns (left: nat)
      requires Valid()
      modifies this`cnt, this`returnValue, this`text, buf
      ensures Valid() && text == old(text) + Repeat(c, Minus(fieldWidth, width))
      ensures left == fieldWidth - Minus(fieldWidth, width)
    {
      left := fieldWidth;
      while left != 0 && width < left
        invariant Valid() && left <= fieldWidth && (left < fieldWidth ==> width <= left)
        invariant text == old(text) + Repeat(c, fieldWidth - left)
      {
        left := left - 1;
        StoreChar(c);
      }
    }

    /** The output loop of _PrintUnsigned, from the leading weight down. */
    method PutDigits(v: nat, base: nat, weight: nat)
      requires Valid() && Radix(base) && Emit(v, base, weight).Text?
      modifies this`cnt, this`returnValue, this`text, buf
      ensures Valid() && text == old(text) + Emit(v, base, weight).s
    {
      var rest: nat, digit: nat, more := v, weight, true;
      ghost var goal := text + Emit(v, base, weight).s;
      while more
        invariant Valid()
        invariant more ==> Emit(rest, base, digit).Text? && text + Emit(rest, base, digit).s == goal
        invariant !more ==> text == goal
        decreases more, digit
      {
        StoreChar(DigitChar(rest / digit));
        rest, digit := rest % digit, Quo(digit, base);
        more := digit != 0;
      }
    }

    /** _PrintUnsigned */
    method PrintUnsigned(v: nat, base: nat, prec: nat, fieldWidth: nat, f: Flags)
      requires Valid() && Radix(base) && v < 0x1_0000_0000 && Printable(v, base, prec)
      modifies this`cnt, this`returnValue, this`text, buf
      ensures Valid() && text == old(text) + RenderUnsigned(v, base, prec, fieldWidth, f)
    {
      ghost var t0, body := text, Printout(v, base, prec);
      var width := FieldDigits(v, base, prec);
      var left := fieldWidth;
      if !f.left {
        left := Pad(if f.zero && prec == 0 then '0' else ' ', width, fieldWidth);
      }
      var weight := FindWeight(v, base, prec);
      PutDigits(v, base, weight);
      if f.left {
        left := Pad(' ', width, left);
      }
      LayoutNumeral(t0, body, width, prec, fieldWidth, f);
    }

    /** Everything _PrintInt stores before the numeral. */
    method PutLeading(v: int, prec: nat, width: nat, room: nat, f: Flags) returns (left: nat)
      requires Valid()
      modifies this`cnt, this`returnValue, this`text, buf
      ensures Valid() && text == Leading(old(text), SignOf(v, f), Minus(room, width), prec, f)
      ensures left == if f.left then room else room - Minus(room, width)
    {
      left := room;
      if (!f.zero || prec != 0) && !f.left {
        left := Pad(' ', width, left);
      }
      PutSign(v, f);
      if f.zero && !f.left && prec == 0 {
        left := Pad('0', width, left);
      }
    }

    method PutSign(v: int, f: Flags)
      requires Valid()
      modifies this`cnt, this`returnValue, this`text, buf
      ensures Valid() && text == old(text) + SignOf(v, f)
    {
      if v < 0 {
        StoreChar('-');
      } else if f.plus {
        StoreChar('+');
      }
    }

    /** The copy loop of %s. */
    method PutString(s: string)
      requires Valid()
      modifies this`cnt, this`returnValue, this`text, buf
      ensures Valid() && text == old(text) + s
    {
      for i := 0 to |s|
        invariant Valid() && text == old(text) + s[..i]
      {
        assert s[..i + 1] == s[..i] + [s[i]];
        StoreChar(s[i]);
      }
      assert s[..|s|] == s;
    }

    /** The specifier switch; va_arg takes the front of `args`. */
    method Convert(p: Piece, args: seq<Arg>) returns (used: nat)
      requires Valid() && p.Conversion? && Fits(p, args)
      modifies this`cnt, this`returnValue, this`text, buf
      ensures Valid() && used == Uses(p)
      ensures text == old(text) + RenderPiece(p, args)
    {
      used := 0;
      match p.spec {
        case 'c' =>
          used := 1;
          StoreChar((args[0].v % 0x100) as char);
        case 'd' =>
          used := 1;
          PrintInt(args[0].v, p.precision, p.width, p.flags);
        case 'u' =>
          used := 1;
          PrintUnsigned(U32(args[0].v), 10, p.precision, p.width, p.flags);
        case 'x' =>
          used := 1;
          PrintUnsigned(U32(args[0].v), 16, p.precision, p.width, p.flags);
        case 'X' =>
          used := 1;
          PrintUnsigned(U32(args[0].v), 16, p.precision, p.width, p.flags);
        case 's' =>
          used := 1;
          PutString(args[0].s);
        case 'p' =>
          used := 1;
          PrecisionEnough(U32(args[0].v), 16, 8);
          PrintUnsigned(U32(args[0].v), 16, 8, 8, NO_FLAGS);
        case '%' =>
          StoreChar('%');
        case _ =>
      }
    }

    /** _PrintInt; the most negative int has no negation. */
    method PrintInt(v: int, prec: nat, fieldWidth: nat, f: Flags)
      requires Valid() && INT_MIN < v <= INT_MAX && Printable(Abs(v), 10, prec)
      modifies this`cnt, this`returnValue, this`text, buf
      ensures Valid() && text == old(text) + RenderInt(v, prec, fieldWidth, f)
    {
      ghost var t0 := text;
      var width := FieldDigits(Abs(v), 10, prec);
      var left := SignRoom(v, fieldWidth, f);
      left := PutLeading(v, prec, width, left, f);
      LayoutSigned(t0, SignOf(v, f), Printout(Abs(v), 10, prec), width, prec, fieldWidth, f, left);
      PrintUnsigned(Abs(v), 10, prec, left, f);
    }
  }

  /** The field without the place of the sign. */
  method SignRoom(v: int, fieldWidth: nat, f: Flags) returns (left: nat)
    ensures left == if fieldWidth > 0 then fieldWidth - |SignOf(v, f)| else 0
  {
    left := fieldWidth;
    if left > 0 && (v < 0 || f.plus) {
      left := left - 1;
    }
  }

  /** The search loop of _PrintUnsigned for the weight of the leading digit. */
  method FindWeight(v: nat, base: nat, prec: nat) returns (digit: nat)
    requires Radix(base) && v < 0x1_0000_0000
    ensures digit == Search(v, base, 1, prec)
  {
    var numDigits: nat := prec;
    digit := 1;
    while numDigits > 1 || (digit != 0 && v / digit >= base)
      invariant digit < 0x1_0000_0000
      invariant Search(v, base, digit, numDigits) == Search(v, base, 1, prec)
      decreases numDigits, if digit == 0 || v < digit then 0 else v - digit
    {
      if numDigits > 1 {
        numDigits := numDigits - 1;
      } else {
        Grows(v, base, digit);
      }
      digit := U32(digit * base);
    }
  }

  lemma LayoutNumeral(t: string, body: string, digits: nat, prec: nat, width: nat, f: Flags)
    ensures var pad, all := Minus(width, digits), t + Layout("", body, digits, prec, width, f);
      if f.left then all == t + body + Repeat(' ', pad)
      else all == t + Repeat(if f.zero && prec == 0 then '0' else ' ', pad) + body
  {
    assert "" + body == body && "" + Repeat('0', Minus(width, digits)) == Repeat('0', Minus(width, digits));
  }

  /** What _PrintInt stores before the numeral. */
  function Leading(t: string, sign: string, pad: nat, prec: nat, f: Flags): string {
    if f.left then t + sign
    else if f.zero && prec == 0 then t + sign + Repeat('0', pad)
    else t + Repeat(' ', pad) + sign
  }

  /** Sign and leading padding first, then the numeral in what is left of the field. */
  lemma LayoutSigned(t: string, sign: string, body: string, digits: nat, prec: nat, width: nat, f: Flags, left: nat)
    requires |sign| <= 1
    requires var room := if width > 0 then width - |sign| else 0;
      left == if f.left then room else room - Minus(room, digits)
    ensures var pad := Minus(if width > 0 then width - |sign| else 0, digits);
      t + Layout(sign, body, digits, prec, width, f)
      == Leading(t, sign, pad, prec, f) + Layout("", body, digits, prec, left, f)
  {
    var pad := Minus(width, |sign| + digits);
    if f.left {
      assert Layout("", body, digits, prec, left, f) == body + Repeat(' ', pad);
    } else {
      assert Repeat(' ', 0) == "" == Repeat('0', 0);
      assert Layout("", body, digits, prec, left, f) == body;
    }
  }

  /** The flag loop, the two number loops and the modifier loop behind a '%'. */
  method ScanConversion(fmt: string, start: nat) returns (p: Piece, next: nat)
    requires start <= |fmt|
    ensures (p, next) == ConversionAt(fmt, start)
  {
    var i: nat, f := start, NO_FLAGS;
    while At(fmt, i) in "-0+#"
      invariant i <= |fmt| && FlagsFrom(fmt, i, f) == FlagsFrom(fmt, start, NO_FLAGS)
      decreases |fmt| - i
    {
      match At(fmt, i) {
        case '-' => f := f.(left := true);
        case '0' => f := f.(zero := true);
        case '+' => f := f.(plus := true);
        case _ => f := f.(alternate := true);
      }
      i := i + 1;
    }
    assert FlagsFrom(fmt, start, NO_FLAGS) == (f, i);
    var width, prec := 0, 0;
    width, i := ScanNumber(fmt, i);
    if At(fmt, i) == '.' {
      prec, i := ScanNumber(fmt, i + 1);
    }
    ghost var modifiers := i;
    while At(fmt, i) == 'l' || At(fmt, i) == 'h'
      invariant i <= |fmt| && ModifiersFrom(fmt, i) == ModifiersFrom(fmt, modifiers)
      decreases |fmt| - i
    {
      i := i + 1;
    }
    return Conversion(f, width, prec, At(fmt, i)), i + 1;
  }

  method ScanNumber(fmt: string, start: nat) returns (n: nat, next: nat)
    requires start <= |fmt|
    ensures next <= |fmt| && (n, next) == NumberFrom(fmt, start, 0)
  {
    n, next := 0, start;
    while IsDigit(At(fmt, next))
      invariant next <= |fmt| && NumberFrom(fmt, next, n) == NumberFrom(fmt, start, 0)
      decreases |fmt| - next
    {
      n := U32(n * 10 + (At(fmt, next) - '0') as nat);
      next := next + 1;
    }
  }

  /** One round of the format loop: one piece of the format, one piece of text. */
  method FormatPiece(d: Descriptor, fmt: string, i: nat, ghost ps: seq<Piece>, args: seq<Arg>)
    returns (next: nat, used: nat)
    requires d.Valid() && i < |fmt| && Parse(fmt, i) == Ok(ps) && FitAll(ps, args)
    modifies d`cnt, d`returnValue, d`text, d.buf
    ensures d.Valid() && ps != [] && i < next <= |fmt| && Parse(fmt, next) == Ok(ps[1..])
    ensures used == Uses(ps[0]) && d.text == old(d.text) + RenderPiece(ps[0], args)
  {
    if fmt[i] == '%' {
      var conv;
      conv, next := ScanConversion(fmt, i + 1);
      used := d.Convert(conv, args);
    } else {
      d.StoreChar(fmt[i]);
      next, used := i + 1, 0;
    }
  }

  /**
  SEGGER_RTT_vsnprintf, for a format without an incomplete conversion and arguments that fit.
  `texts` are the texts of the pieces, each showing its argument as its specifier asks. The
  buffer receives their first characters, as many as `size` allows, and `used` arguments are
  consumed, however small the buffer is. The pieces are those that the format was written from.
  */
  method FormatBounded(dest: array<char>, size: nat, fmt: string, args: seq<Arg>)
    returns (r: int, used: nat, ghost texts: seq<string>)
    requires size <= dest.Length && size <= INT_MAX
    requires NulFree(fmt) && Parse(fmt, 0).Ok? && FitAll(Parse(fmt, 0).value, args)
    modifies dest
    ensures AllShow(Parse(fmt, 0).value, args, texts)
    ensures forall ps :: AllWritable(ps) && fmt == WrittenAll(ps) ==> FitAll(ps, args) && AllShow(ps, args, texts)
    ensures var out := Concat(texts);
      && r == (if |out| < size then |out| else size)
      && dest[..] == Blit(old(dest[..]), 0, out[..r])
    ensures used == ArgsUsed(Parse(fmt, 0).value)
  {
    texts := RenderShows(Parse(fmt, 0).value, args);
    forall ps | AllWritable(ps) && fmt == WrittenAll(ps)
      ensures Parse(fmt, 0) == Ok(ps)
    {
      ParseInvertsWriting(ps);
    }
    var d := new Descriptor(dest, size);
    used := FormatAll(d, fmt, args);
    r := d.returnValue;
  }

  /** The format loop. */
  method FormatAll(d: Descriptor, fmt: string, args: seq<Arg>) returns (used: nat)
    requires d.Valid() && d.text == ""
    requires Parse(fmt, 0).Ok? && FitAll(Parse(fmt, 0).value, args)
    modifies d`cnt, d`returnValue, d`text, d.buf
    ensures d.Valid() && d.text == Render(Parse(fmt, 0).value, args)
    ensures used == ArgsUsed(Parse(fmt, 0).value)
  {
    var i: nat, rest := 0, args;
    ghost var all := Parse(fmt, 0).value;
    ghost var out, total, ps := Render(all, args), ArgsUsed(all), all;
    used := 0;
    while i < |fmt|
      invariant d.Valid() && i <= |fmt| && Parse(fmt, i) == Ok(ps) && FitAll(ps, rest)
      invariant d.text + Render(ps, rest) == out
      invariant used + ArgsUsed(ps) == total
      decreases |fmt| - i
    {
      ghost var before := d.text;
      var next, n := FormatPiece(d, fmt, i, ps, rest);
      RenderStep(before, ps, rest);
      i, rest, used, ps := next, rest[n..], used + n, ps[1..];
    }
  }

  lemma RenderStep(t: string, ps: seq<Piece>, args: seq<Arg>)
    requires ps != [] && FitAll(ps, args)
    ensures Uses(ps[0]) <= |args| && FitAll(ps[1..], args[Uses(ps[0])..])
    ensures t + Render(ps, args) == t + RenderPiece(ps[0], args) + Render(ps[1..], args[Uses(ps[0])..])
    ensures ArgsUsed(ps) == Uses(ps[0]) + ArgsUsed(ps[1..])
  {
  }
}
