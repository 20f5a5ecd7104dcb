/**
What a reader gets from formatted text, specifier by specifier: the value of a printed number,
its length, sign and padding. Nothing here refers to how the renderer lays a piece out.
*/
module FormatMeaning {
  import opened Prelude
  import opened Numerals
  import opened Formatter

  // ---------------------------------------------------------------- what a text shows

  const NUMBER_CHARS := " +-0123456789ABCDEF"

  predicate Blank(s: string) { forall c :: c in s ==> c == ' ' }

  /** Everything but `core` characters is padding, on the side that the flags ask for. */
  predicate Padded(text: string, core: nat, prec: nat, f: Flags) {
    && core <= |text|
    && (if f.left then ' ' !in text[..core] && Blank(text[core..])
        else if f.zero && prec == 0 then ' ' !in text
        else Blank(text[..|text| - core]) && ' ' !in text[|text| - core..])
  }

  /** The number `v`, with at least `prec` digits in a field of at least `width` characters. */
  predicate ShowsNumber(text: string, v: int, base: nat, prec: nat, width: nat, f: Flags)
    requires Radix(base)
  {
    var core := (if v < 0 || f.plus then 1 else 0) + Max(prec, Count(if v < 0 then -v else v, base));
    && ReadBack(text, base) == v && |text| == Max(width, core) && (forall c :: c in text ==> c in NUMBER_CHARS)
    && ('-' in text <==> v < 0) && ('+' in text <==> v >= 0 && f.plus) && Padded(text, core, prec, f)
  }

  /** An argument taken as unsigned; unsigned conversions ignore the '+' flag. */
  predicate ShowsUnsigned(text: string, v: int, base: nat, prec: nat, width: nat, f: Flags)
    requires Radix(base)
  {
    ShowsNumber(text, if v < 0 then v + 0x1_0000_0000 else v, base, prec, width, f.(plus := false))
  }

  /** What the text of a piece shows of the front of the arguments. */
  predicate Shows(p: Piece, args: seq<Arg>, text: string)
    requires Fits(p, args)
  {
    match p
    case Plain(c) => text == [c]
    case Conversion(f, width, prec, spec) =>
      if spec == 'd' then prec <= 10 ==> ShowsNumber(text, args[0].v, 10, prec, width, f)
      else if spec == 'u' then prec <= 10 ==> ShowsUnsigned(text, args[0].v, 10, prec, width, f)
      else if spec == 'x' || spec == 'X' then prec <= 8 ==> ShowsUnsigned(text, args[0].v, 16, prec, width, f)
      else if spec == 'p' then ShowsUnsigned(text, args[0].v, 16, 8, 8, NO_FLAGS)
      else if spec == 'c' then |text| == 1 && text[0] as int < 0x100 && (args[0].v - text[0] as int) % 0x100 == 0
      else if spec == 's' then text == args[0].s
      else text == if spec == '%' then "%" else ""
  }

  /** The conversions that take an argument, one each. */
  lemma ArgumentTaken(p: Piece)
    ensures Uses(p) == if p.Conversion? && p.spec in "cduxXsp" then 1 else 0
  {
  }

  /** One text for each piece, each showing its own argument. */
  predicate AllShow(ps: seq<Piece>, args: seq<Arg>, texts: seq<string>)
    requires FitAll(ps, args)
  {
    && |texts| == |ps|
    && (ps != [] ==> Shows(ps[0], args, texts[0]) && AllShow(ps[1..], args[Uses(ps[0])..], texts[1..]))
  }

  function Concat(texts: seq<string>): string {
    if texts == [] then "" else texts[0] + Concat(texts[1..])
  }

  // ---------------------------------------------------------------- the renderer shows it

  predicate IsSign(sign: string) { sign == "" || sign == "+" || sign == "-" }

  predicate AllDigits(body: string) { body != "" && forall c :: c in body ==> DigitValue(c) < 16 }

  lemma InParts(lead: nat, sign: string, zeros: nat, body: string, trail: nat, c: char)
    ensures c in Parts(lead, sign, zeros, body, trail) <==>
              (c == ' ' && lead + trail > 0) || c in sign || (c == '0' && zeros > 0) || c in body
  {
    var (spaces, digits, end) := (Repeat(' ', lead), Repeat('0', zeros), Repeat(' ', trail));
    if lead > 0 { assert spaces[0] == ' '; }
    if zeros > 0 { assert digits[0] == '0'; }
    if trail > 0 { assert end[0] == ' '; }
  }

  lemma PartsSplit(lead: nat, sign: string, zeros: nat, body: string, trail: nat)
    ensures var text, n := Parts(lead, sign, zeros, body, trail), |sign| + zeros + |body|;
      && |text| == lead + n + trail
      && text[..lead] == Repeat(' ', lead) && text[lead + n..] == Repeat(' ', trail)
      && text[lead..lead + n] == Parts(0, sign, zeros, body, 0)
  {
    var core := sign + (Repeat('0', zeros) + body);
    assert Parts(lead, sign, zeros, body, trail) == Repeat(' ', lead) + core + Repeat(' ', trail);
    assert Parts(0, sign, zeros, body, 0) == core;
  }

  /** Sign and padding of a laid out numeral. */
  lemma LayoutShows(sign: string, body: string, prec: nat, width: nat, f: Flags)
    requires IsSign(sign) && AllDigits(body)
    ensures var text, core := Layout(sign, body, |body|, prec, width, f), |sign| + |body|;
      && |text| == Max(width, core) && ('-' in text <==> sign == "-") && ('+' in text <==> sign == "+")
      && Padded(text, core, prec, f) && (forall c :: c in text ==> c in NUMBER_CHARS)
  {
    var pad := Minus(width, |sign| + |body|);
    LayoutIsParts(sign, body, |body|, prec, width, f);
    if f.left {
      PartsShow(0, sign, 0, body, pad);
      PartsChars(0, sign, 0, body, pad);
      LeftPadded(sign, body, pad, prec, f);
    } else if f.zero && prec == 0 {
      PartsShow(0, sign, pad, body, 0);
      PartsChars(0, sign, pad, body, 0);
      ZeroPadded(sign, body, pad, prec, f);
    } else {
      PartsShow(pad, sign, 0, body, 0);
      PartsChars(pad, sign, 0, body, 0);
      RightPadded(sign, body, pad, prec, f);
    }
  }

  lemma LeftPadded(sign: string, body: string, pad: nat, prec: nat, f: Flags)
    requires IsSign(sign) && AllDigits(body) && f.left
    ensures Padded(Parts(0, sign, 0, body, pad), |sign| + |body|, prec, f)
  {
    PartsShow(0, sign, 0, body, pad);
  }

  lemma ZeroPadded(sign: string, body: string, pad: nat, prec: nat, f: Flags)
    requires IsSign(sign) && AllDigits(body) && !f.left && f.zero && prec == 0
    ensures Padded(Parts(0, sign, pad, body, 0), |sign| + |body|, prec, f)
  {
    var text := Parts(0, sign, pad, body, 0);
    PartsShow(0, sign, pad, body, 0);
    assert text[0..0 + (|sign| + pad + |body|)] == text;
  }

  lemma RightPadded(sign: string, body: string, pad: nat, prec: nat, f: Flags)
    requires IsSign(sign) && AllDigits(body) && !f.left && !(f.zero && prec == 0)
    ensures Padded(Parts(pad, sign, 0, body, 0), |sign| + |body|, prec, f)
  {
    PartsShow(pad, sign, 0, body, 0);
    var text := Parts(pad, sign, 0, body, 0);
    assert text[|text| - (|sign| + |body|)..] == text[pad..pad + (|sign| + 0 + |body|)];
  }

  lemma HexChar(c: char)
    requires DigitValue(c) < 16
    ensures c in NUMBER_CHARS
  {
    assert DigitChar(DigitValue(c)) == c;
    assert NUMBER_CHARS[DigitValue(c) + 3] == c;
  }

  lemma PartsChars(lead: nat, sign: string, zeros: nat, body: string, trail: nat)
    requires IsSign(sign) && AllDigits(body)
    ensures forall c :: c in Parts(lead, sign, zeros, body, trail) ==> c in NUMBER_CHARS
  {
    forall c | c in Parts(lead, sign, zeros, body, trail)
      ensures c in NUMBER_CHARS
    {
      InParts(lead, sign, zeros, body, trail, c);
      assert NUMBER_CHARS[0] == ' ' && NUMBER_CHARS[1] == '+' && NUMBER_CHARS[2] == '-' && NUMBER_CHARS[3] == '0';
      if c in body {
        HexChar(c);
      }
    }
  }

  lemma PartsShow(lead: nat, sign: string, zeros: nat, body: string, trail: nat)
    requires IsSign(sign) && AllDigits(body)
    ensures var text, n := Parts(lead, sign, zeros, body, trail), |sign| + zeros + |body|;
      && |text| == lead + n + trail && ('-' in text <==> sign == "-") && ('+' in text <==> sign == "+")
      && Blank(text[..lead]) && Blank(text[lead + n..]) && ' ' !in text[lead..lead + n]
  {
    PartsSplit(lead, sign, zeros, body, trail);
    InParts(lead, sign, zeros, body, trail, '-');
    InParts(lead, sign, zeros, body, trail, '+');
    InParts(0, sign, zeros, body, 0, ' ');
  }

  lemma SignShows(v: int, f: Flags)
    ensures IsSign(SignOf(v, f)) && |SignOf(v, f)| == (if v < 0 || f.plus then 1 else 0)
    ensures (SignOf(v, f) == "-" <==> v < 0) && (SignOf(v, f) == "+" <==> v >= 0 && f.plus)
  {
  }

  lemma IntLooks(v: int, prec: nat, width: nat, f: Flags, text: string)
    requires InRange(v) && prec <= MaxPrecision(10) && text == RenderInt(v, prec, width, f)
    ensures ('-' in text <==> v < 0) && ('+' in text <==> v >= 0 && f.plus)
    ensures forall c :: c in text ==> c in NUMBER_CHARS
    ensures Padded(text, |SignOf(v, f)| + Max(prec, Count(Abs(v), 10)), prec, f)
  {
    var body := Numeral(Abs(v), 10, prec);
    PrintsNumeral(Abs(v), 10, prec);
    NumeralValue(Abs(v), 10, prec);
    SignShows(v, f);
    LayoutShows(SignOf(v, f), body, prec, width, f);
  }

  lemma IntShows(v: int, prec: nat, width: nat, f: Flags)
    requires InRange(v) && prec <= MaxPrecision(10)
    ensures ShowsNumber(RenderInt(v, prec, width, f), v, 10, prec, width, f)
  {
    IntReadsBack(v, prec, width, f);
    SignShows(v, f);
    IntLooks(v, prec, width, f, RenderInt(v, prec, width, f));
  }

  lemma UnsignedShows(v: nat, base: nat, prec: nat, width: nat, f: Flags)
    requires Radix(base) && v < 0x1_0000_0000 && prec <= MaxPrecision(base)
    ensures ShowsNumber(RenderUnsigned(v, base, prec, width, f), v, base, prec, width, f.(plus := false))
  {
    UnsignedReadsBack(v, base, prec, width, f);
    PrintsNumeral(v, base, prec);
    NumeralValue(v, base, prec);
    LayoutShows("", Numeral(v, base, prec), prec, width, f);
  }

  /** The same for an argument taken as unsigned. */
  lemma AsUnsignedShows(v: int, base: nat, prec: nat, width: nat, f: Flags)
    requires Radix(base) && InRange(v) && prec <= MaxPrecision(base)
    ensures ShowsUnsigned(RenderUnsigned(U32(v), base, prec, width, f), v, base, prec, width, f)
  {
    UnsignedShows(U32(v), base, prec, width, f);
  }

  lemma IntPieceShows(p: Piece, args: seq<Arg>)
    requires Fits(p, args) && p.Conversion? && p.spec == 'd'
    ensures Shows(p, args, RenderPiece(p, args))
  {
    if p.precision <= 10 {
      IntShows(args[0].v, p.precision, p.width, p.flags);
    }
  }

  lemma UnsignedPieceShows(p: Piece, args: seq<Arg>)
    requires Fits(p, args) && p.Conversion? && (p.spec == 'u' || p.spec == 'x' || p.spec == 'X' || p.spec == 'p')
    ensures Shows(p, args, RenderPiece(p, args))
  {
    if p.spec == 'p' {
      AsUnsignedShows(args[0].v, 16, 8, 8, NO_FLAGS);
    } else if p.spec == 'u' && p.precision <= 10 {
      AsUnsignedShows(args[0].v, 10, p.precision, p.width, p.flags);
    } else if p.spec != 'u' && p.precision <= 8 {
      AsUnsignedShows(args[0].v, 16, p.precision, p.width, p.flags);
    }
  }

  lemma CharPieceShows(p: Piece, args: seq<Arg>)
    requires Fits(p, args) && p.Conversion? && p.spec == 'c'
    ensures Shows(p, args, RenderPiece(p, args))
  {
    var v := args[0].v;
    assert (v - v % 0x100) % 0x100 == 0;
    assert ((v % 0x100) as char) as int == v % 0x100;
  }

  /** Every piece renders to a text that shows what its specifier asks for. */
  lemma PieceShows(p: Piece, args: seq<Arg>)
    requires Fits(p, args)
    ensures Shows(p, args, RenderPiece(p, args))
  {
    if p.Conversion? {
      if p.spec == 'd' {
        IntPieceShows(p, args);
      } else if p.spec == 'u' || p.spec == 'x' || p.spec == 'X' || p.spec == 'p' {
        UnsignedPieceShows(p, args);
      } else if p.spec == 'c' {
        CharPieceShows(p, args);
      }
    }
  }

  /** The text of a whole format is that of its pieces, one after the other. */
  lemma {:induction false} RenderShows(ps: seq<Piece>, args: seq<Arg>) returns (texts: seq<string>)
    requires FitAll(ps, args)
    ensures AllShow(ps, args, texts) && Concat(texts) == Render(ps, args)
    decreases |ps|
  {
    if ps == [] {
      texts := [];
    } else {
      var rest := RenderShows(ps[1..], args[Uses(ps[0])..]);
      texts := [RenderPiece(ps[0], args)] + rest;
      assert texts[1..] == rest;
      PieceShows(ps[0], args);
    }
  }
}
