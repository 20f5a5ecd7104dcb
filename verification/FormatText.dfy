/**
The written form of a format (rtt_vsnprintf.c): what the scanner of module Formatter reads is
what was written, piece by piece.
*/
module FormatText {
  import opened Prelude
  import opened CircularBuffer
  import opened Numerals
  import opened Formatter

  function NumberText(n: nat): (s: string)
    ensures s != ""
  {
    Digits(n, 10, Count(n, 10))
  }

  function OrEmpty(b: bool, s: string): string { if b then s else "" }

  predicate IsFlag(c: char) { c == '-' || c == '0' || c == '+' || c == '#' }

  function WidthText(w: nat): string { if w > 0 then NumberText(w) else "" }

  function PrecisionText(n: nat): string { if n > 0 then "." + NumberText(n) else "" }

  /** The eight parts of a written conversion, some of them empty. */
  function Part(p: Piece, k: nat): string
    requires p.Conversion? && k < 8
  {
    if k == 0 then "%"
    else if k == 1 then OrEmpty(p.flags.left, "-")
    else if k == 2 then OrEmpty(p.flags.zero, "0")
    else if k == 3 then OrEmpty(p.flags.plus, "+")
    else if k == 4 then OrEmpty(p.flags.alternate, "#")
    else if k == 5 then WidthText(p.width)
    else if k == 6 then PrecisionText(p.precision)
    else [p.spec]
  }

  /** The first `k` parts. */
  function Front(p: Piece, k: nat): string
    requires p.Conversion? && k <= 8
  {
    if k == 0 then "" else Front(p, k - 1) + Part(p, k - 1)
  }

  function Written(p: Piece): string {
    match p
    case Plain(c) => [c]
    case Conversion(_, _, _, _) => Front(p, 8)
  }

  function WrittenAll(ps: seq<Piece>): string {
    if ps == [] then "" else Written(ps[0]) + WrittenAll(ps[1..])
  }

  /** A piece that can be written: its characters are not taken for something else. */
  predicate Writable(p: Piece) {
    match p
    case Plain(c) => c != '%'
    case Conversion(_, w, n, c) =>
      && w < 0x1_0000_0000 && n < 0x1_0000_0000
      && !IsDigit(c) && !IsFlag(c) && c != '.' && c != 'l' && c != 'h'
  }

  // ---------------------------------------------------------------- numbers

  lemma {:induction false} LeadingNonzero(n: nat)
    requires n > 0
    ensures NumberText(n)[0] != '0'
  {
    if n < 10 {
      assert Digits(n, 10, 1) == Digits(0, 10, 0) + [DigitChar(n)];
    } else {
      LeadingNonzero(n / 10);
    }
  }

  lemma {:induction false} PrefixValue(s: string, j: nat)
    requires j <= |s|
    ensures Value(s[..j], 10) <= Value(s, 10)
    decreases |s|
  {
    if j == |s| {
      assert s[..j] == s;
    } else {
      var front := s[..|s| - 1];
      assert front[..j] == s[..j];
      PrefixValue(front, j);
    }
  }

  /** The number loop after `j` digits of `s`, which stand at `i`. */
  lemma {:induction false} ReadsPrefix(fmt: string, i: nat, s: string, j: nat)
    requires i + |s| <= |fmt| && fmt[i..i + |s|] == s && j <= |s| && Value(s, 10) < 0x1_0000_0000
    requires forall c :: c in s ==> DigitValue(c) < 10
    ensures NumberFrom(fmt, i, 0) == NumberFrom(fmt, i + j, Value(s[..j], 10))
  {
    if j == 0 {
      assert s[..0] == "";
    } else {
      ReadsPrefix(fmt, i, s, j - 1);
      PrefixValue(s, j);
      assert s[..j][..j - 1] == s[..j - 1];
      var c := fmt[i + j - 1];
      assert c == s[j - 1];
      DigitIs(c);
    }
  }

  lemma DigitIs(c: char)
    requires DigitValue(c) < 10
    ensures IsDigit(c) && DigitValue(c) == (c - '0') as nat
  {
  }

  /** The digits of `n` stand from `i` to `j`. */
  predicate NumberStands(fmt: string, i: nat, n: nat, j: nat) {
    i <= j <= |fmt| && fmt[i..j] == NumberText(n)
  }

  lemma NumberTextValue(n: nat)
    ensures Value(NumberText(n), 10) == n && forall c :: c in NumberText(n) ==> DigitValue(c) < 10
  {
    CountBounds(n, 10);
    DigitsValue(n, 10, Count(n, 10));
  }

  lemma DigitsRead(fmt: string, i: nat, s: string, j: nat)
    requires i <= j <= |fmt| && fmt[i..j] == s && Value(s, 10) < 0x1_0000_0000 && !IsDigit(At(fmt, j))
    requires forall c :: c in s ==> DigitValue(c) < 10
    ensures NumberFrom(fmt, i, 0) == (Value(s, 10), j)
  {
    ReadsPrefix(fmt, i, s, |s|);
    assert s[..|s|] == s;
  }

  lemma NumberReads(fmt: string, i: nat, n: nat, j: nat)
    requires n < 0x1_0000_0000 && NumberStands(fmt, i, n, j) && !IsDigit(At(fmt, j))
    ensures NumberFrom(fmt, i, 0) == (n, j)
  {
    NumberTextValue(n);
    DigitsRead(fmt, i, NumberText(n), j);
  }

  /** The first digit of a number is a digit, and not a zero flag. */
  lemma FirstDigit(fmt: string, i: nat, n: nat, j: nat)
    requires NumberStands(fmt, i, n, j)
    ensures IsDigit(At(fmt, i)) && (n > 0 ==> !IsFlag(At(fmt, i)))
  {
    var s := NumberText(n);
    NumberTextValue(n);
    assert fmt[i] == fmt[i..j][0] == s[0] && s[0] in s;
    DigitIs(s[0]);
    if n > 0 {
      LeadingNonzero(n);
    }
  }

  // ---------------------------------------------------------------- flags

  /** The flag `c` stands at `i`, or nothing does. */
  predicate FlagAt(fmt: string, i: nat, j: nat, on: bool, c: char) {
    if on then i < |fmt| && fmt[i] == c && j == i + 1 else j == i
  }

  function WithFlag(f: Flags, on: bool, c: char): Flags {
    if !on then f
    else if c == '-' then f.(left := true)
    else if c == '0' then f.(zero := true)
    else if c == '+' then f.(plus := true)
    else f.(alternate := true)
  }

  lemma FlagReads(fmt: string, i: nat, j: nat, f: Flags, on: bool, c: char)
    requires i <= |fmt| && FlagAt(fmt, i, j, on, c) && IsFlag(c)
    ensures j <= |fmt| && FlagsFrom(fmt, i, f) == FlagsFrom(fmt, j, WithFlag(f, on, c))
  {
  }

  lemma FlagsEnd(fmt: string, i: nat, f: Flags)
    requires i <= |fmt| && !IsFlag(At(fmt, i))
    ensures FlagsFrom(fmt, i, f) == (f, i)
  {
  }

  lemma FourFlags(f: Flags)
    ensures var f2 := WithFlag(WithFlag(NO_FLAGS, f.left, '-'), f.zero, '0');
      WithFlag(WithFlag(f2, f.plus, '+'), f.alternate, '#') == f
  {
  }

  /** Where the parts of a conversion begin, its flags one by one. */
  datatype Marks = Marks(zero: nat, plus: nat, alternate: nat, width: nat, precision: nat, spec: nat)

  predicate FlagsStand(fmt: string, i: nat, f: Flags, m: Marks) {
    && FlagAt(fmt, i, m.zero, f.left, '-') && FlagAt(fmt, m.zero, m.plus, f.zero, '0')
    && FlagAt(fmt, m.plus, m.alternate, f.plus, '+') && FlagAt(fmt, m.alternate, m.width, f.alternate, '#')
  }

  lemma FlagsRead(fmt: string, i: nat, f: Flags, m: Marks)
    requires i <= |fmt| && FlagsStand(fmt, i, f, m) && !IsFlag(At(fmt, m.width))
    ensures m.width <= |fmt| && FlagsFrom(fmt, i, NO_FLAGS) == (f, m.width)
  {
    var f1 := WithFlag(NO_FLAGS, f.left, '-');
    var f2 := WithFlag(f1, f.zero, '0');
    var f3 := WithFlag(f2, f.plus, '+');
    FlagReads(fmt, i, m.zero, NO_FLAGS, f.left, '-');
    FlagReads(fmt, m.zero, m.plus, f1, f.zero, '0');
    FlagReads(fmt, m.plus, m.alternate, f2, f.plus, '+');
    FlagReads(fmt, m.alternate, m.width, f3, f.alternate, '#');
    FourFlags(f);
    FlagsEnd(fmt, m.width, f);
  }

  // ---------------------------------------------------------------- conversions

  predicate WidthStands(fmt: string, i: nat, w: nat, j: nat) {
    if w > 0 then NumberStands(fmt, i, w, j) else j == i
  }

  predicate PrecisionStands(fmt: string, i: nat, n: nat, j: nat) {
    if n > 0 then i < |fmt| && fmt[i] == '.' && NumberStands(fmt, i + 1, n, j) else j == i
  }

  /** The parts of the conversion `p` stand one after the other from `i` on. */
  predicate ConversionStands(fmt: string, i: nat, p: Piece, m: Marks)
    requires p.Conversion?
  {
    && i <= |fmt| && FlagsStand(fmt, i, p.flags, m) && WidthStands(fmt, m.width, p.width, m.precision)
    && PrecisionStands(fmt, m.precision, p.precision, m.spec) && m.spec < |fmt| && fmt[m.spec] == p.spec
  }

  lemma WidthReads(fmt: string, i: nat, w: nat, j: nat)
    requires w < 0x1_0000_0000 && i <= |fmt| && WidthStands(fmt, i, w, j) && !IsDigit(At(fmt, j))
    ensures NumberFrom(fmt, i, 0) == (w, j)
  {
    if w > 0 {
      NumberReads(fmt, i, w, j);
    }
  }

  lemma PrecisionReads(fmt: string, i: nat, n: nat, j: nat)
    requires n < 0x1_0000_0000 && i <= |fmt| && PrecisionStands(fmt, i, n, j)
    requires !IsDigit(At(fmt, j)) && At(fmt, j) != '.'
    ensures PrecisionFrom(fmt, i) == (n, j)
  {
    if n > 0 {
      NumberReads(fmt, i + 1, n, j);
    }
  }

  /** No part is taken for the continuation of the one before it. */
  lemma Boundaries(fmt: string, i: nat, p: Piece, m: Marks)
    requires p.Conversion? && Writable(p) && ConversionStands(fmt, i, p, m)
    ensures m.width <= |fmt| && m.precision <= |fmt|
    ensures !IsFlag(At(fmt, m.width)) && !IsDigit(At(fmt, m.precision))
  {
    if p.width > 0 {
      FirstDigit(fmt, m.width, p.width, m.precision);
    }
  }

  lemma ConversionReads(fmt: string, i: nat, p: Piece, m: Marks)
    requires p.Conversion? && Writable(p) && ConversionStands(fmt, i, p, m)
    ensures ConversionAt(fmt, i) == (p, m.spec + 1)
  {
    Boundaries(fmt, i, p, m);
    FlagsRead(fmt, i, p.flags, m);
    WidthReads(fmt, m.width, p.width, m.precision);
    PrecisionReads(fmt, m.precision, p.precision, m.spec);
  }

  // ---------------------------------------------------------------- the written form

  /** `s` stands in `fmt` at `i`. */
  predicate Stands(fmt: string, i: nat, s: string) {
    i + |s| <= |fmt| && forall k :: 0 <= k < |s| ==> fmt[i + k] == s[k]
  }

  lemma StandsParts(fmt: string, i: nat, a: string, b: string)
    requires Stands(fmt, i, a + b)
    ensures Stands(fmt, i, a) && Stands(fmt, i + |a|, b)
  {
    forall k | 0 <= k < |a|
      ensures fmt[i + k] == a[k]
    {
      assert (a + b)[k] == a[k];
    }
    forall k | 0 <= k < |b|
      ensures fmt[i + |a| + k] == b[k]
    {
      assert (a + b)[|a| + k] == b[k];
    }
  }

  lemma StandsFirst(fmt: string, i: nat, s: string)
    requires Stands(fmt, i, s) && s != ""
    ensures i < |fmt| && At(fmt, i) == fmt[i] == s[0]
  {
    assert fmt[i + 0] == s[0];
  }

  lemma StandsSlice(fmt: string, i: nat, s: string)
    requires Stands(fmt, i, s)
    ensures fmt[i..i + |s|] == s
  {
  }

  lemma FlagStands(fmt: string, i: nat, on: bool, c: char)
    requires Stands(fmt, i, OrEmpty(on, [c]))
    ensures FlagAt(fmt, i, i + |OrEmpty(on, [c])|, on, c)
  {
    if on {
      StandsFirst(fmt, i, [c]);
    }
  }

  lemma WidthTextStands(fmt: string, i: nat, w: nat)
    requires Stands(fmt, i, WidthText(w))
    ensures WidthStands(fmt, i, w, i + |WidthText(w)|)
  {
    if w > 0 {
      StandsSlice(fmt, i, NumberText(w));
    }
  }

  lemma PrecisionTextStands(fmt: string, i: nat, n: nat)
    requires Stands(fmt, i, PrecisionText(n))
    ensures PrecisionStands(fmt, i, n, i + |PrecisionText(n)|)
  {
    if n > 0 {
      StandsFirst(fmt, i, "." + NumberText(n));
      StandsParts(fmt, i, ".", NumberText(n));
      StandsSlice(fmt, i + 1, NumberText(n));
    }
  }

  /** Where part `k` begins when the text of `p` stands at `i`. */
  function Place(i: nat, p: Piece, k: nat): nat
    requires p.Conversion? && k <= 8
  {
    i + |Front(p, k)|
  }

  lemma {:induction false} PartStands(fmt: string, i: nat, p: Piece, k: nat, n: nat)
    requires p.Conversion? && k < n <= 8 && Stands(fmt, i, Front(p, n))
    ensures Stands(fmt, Place(i, p, k), Part(p, k)) && Place(i, p, k + 1) == Place(i, p, k) + |Part(p, k)|
  {
    StandsParts(fmt, i, Front(p, n - 1), Part(p, n - 1));
    if k < n - 1 {
      PartStands(fmt, i, p, k, n - 1);
    } else {
      assert k == n - 1;
    }
  }

  lemma FlagPartStands(fmt: string, i: nat, p: Piece, k: nat, on: bool, c: char)
    requires p.Conversion? && k < 8 && Stands(fmt, i, Front(p, 8)) && Part(p, k) == OrEmpty(on, [c])
    ensures FlagAt(fmt, Place(i, p, k), Place(i, p, k + 1), on, c)
  {
    PartStands(fmt, i, p, k, 8);
    FlagStands(fmt, Place(i, p, k), on, c);
  }

  function MarksOf(i: nat, p: Piece): Marks
    requires p.Conversion?
  {
    Marks(Place(i, p, 2), Place(i, p, 3), Place(i, p, 4), Place(i, p, 5), Place(i, p, 6), Place(i, p, 7))
  }

  lemma FlagsWritten(fmt: string, i: nat, p: Piece, m: Marks)
    requires p.Conversion? && Stands(fmt, i, Front(p, 8)) && m == MarksOf(i, p)
    ensures FlagsStand(fmt, Place(i, p, 1), p.flags, m)
  {
    FlagPartStands(fmt, i, p, 1, p.flags.left, '-');
    FlagPartStands(fmt, i, p, 2, p.flags.zero, '0');
    FlagPartStands(fmt, i, p, 3, p.flags.plus, '+');
    FlagPartStands(fmt, i, p, 4, p.flags.alternate, '#');
  }

  lemma WidthWritten(fmt: string, i: nat, p: Piece)
    requires p.Conversion? && Stands(fmt, i, Front(p, 8))
    ensures WidthStands(fmt, Place(i, p, 5), p.width, Place(i, p, 6))
  {
    PartStands(fmt, i, p, 5, 8);
    WidthTextStands(fmt, Place(i, p, 5), p.width);
  }

  lemma PrecisionWritten(fmt: string, i: nat, p: Piece)
    requires p.Conversion? && Stands(fmt, i, Front(p, 8))
    ensures PrecisionStands(fmt, Place(i, p, 6), p.precision, Place(i, p, 7))
  {
    PartStands(fmt, i, p, 6, 8);
    PrecisionTextStands(fmt, Place(i, p, 6), p.precision);
  }

  lemma SpecWritten(fmt: string, i: nat, p: Piece)
    requires p.Conversion? && Stands(fmt, i, Front(p, 8))
    ensures Place(i, p, 7) < |fmt| && fmt[Place(i, p, 7)] == p.spec
  {
    PartStands(fmt, i, p, 7, 8);
    StandsFirst(fmt, Place(i, p, 7), [p.spec]);
  }

  lemma PercentWritten(fmt: string, i: nat, p: Piece)
    requires p.Conversion? && Stands(fmt, i, Front(p, 8))
    ensures i < |fmt| && fmt[i] == '%' && Place(i, p, 1) == i + 1
    ensures i <= Place(i, p, 7) && Place(i, p, 7) + 1 == i + |Front(p, 8)|
  {
    PartStands(fmt, i, p, 0, 8);
    StandsFirst(fmt, i, "%");
    PartStands(fmt, i, p, 7, 8);
  }

  // ---------------------------------------------------------------- lists of pieces

  /** The piece `p` stands at `i`. */
  predicate PieceStands(fmt: string, i: nat, p: Piece, m: Marks) {
    && i < |fmt|
    && if p.Plain? then fmt[i] == p.c else fmt[i] == '%' && ConversionStands(fmt, i + 1, p, m) && i <= m.spec
  }

  function NextOf(i: nat, p: Piece, m: Marks): nat { if p.Plain? then i + 1 else m.spec + 1 }

  /** The pieces stand one after the other from `i` to the end of the format. */
  predicate PiecesStand(fmt: string, i: nat, ps: seq<Piece>, ms: seq<Marks>)
    requires |ms| == |ps|
    decreases |ps|
  {
    if ps == [] then i == |fmt|
    else PieceStands(fmt, i, ps[0], ms[0]) && PiecesStand(fmt, NextOf(i, ps[0], ms[0]), ps[1..], ms[1..])
  }

  predicate AllWritable(ps: seq<Piece>) {
    ps != [] ==> Writable(ps[0]) && AllWritable(ps[1..])
  }

  lemma PieceParses(fmt: string, i: nat, p: Piece, m: Marks, rest: seq<Piece>)
    requires Writable(p) && PieceStands(fmt, i, p, m) && NextOf(i, p, m) <= |fmt|
    requires Parse(fmt, NextOf(i, p, m)) == Ok(rest)
    ensures Parse(fmt, i) == Ok([p] + rest)
  {
    if p.Conversion? {
      ConversionReads(fmt, i + 1, p, m);
    }
  }

  lemma {:induction false} PiecesParse(fmt: string, i: nat, ps: seq<Piece>, ms: seq<Marks>)
    requires |ms| == |ps| && AllWritable(ps) && i <= |fmt| && PiecesStand(fmt, i, ps, ms)
    ensures Parse(fmt, i) == Ok(ps)
    decreases |ps|
  {
    if ps == [] {
      assert i == |fmt|;
    } else {
      var p, m, rest := ps[0], ms[0], ps[1..];
      var next := NextOf(i, p, m);
      PiecesEnd(fmt, next, rest, ms[1..]);
      PiecesParse(fmt, next, rest, ms[1..]);
      PieceParses(fmt, i, p, m, rest);
      assert ps == [p] + rest;
    }
  }

  lemma WrittenStands(fmt: string, i: nat, p: Piece) returns (m: Marks)
    requires Stands(fmt, i, Written(p))
    ensures PieceStands(fmt, i, p, m) && NextOf(i, p, m) == i + |Written(p)|
  {
    if p.Conversion? {
      m := MarksOf(i, p);
      PercentWritten(fmt, i, p);
      FlagsWritten(fmt, i, p, m);
      WidthWritten(fmt, i, p);
      PrecisionWritten(fmt, i, p);
      SpecWritten(fmt, i, p);
    } else {
      m := Marks(0, 0, 0, 0, 0, 0);
      StandsFirst(fmt, i, [p.c]);
    }
  }

  lemma FirstStands(fmt: string, i: nat, ps: seq<Piece>, first: string, rest: string)
    requires ps != [] && Stands(fmt, i, WrittenAll(ps)) && first == Written(ps[0]) && rest == WrittenAll(ps[1..])
    ensures Stands(fmt, i, first) && Stands(fmt, i + |first|, rest) && |WrittenAll(ps)| == |first| + |rest|
  {
    StandsParts(fmt, i, first, rest);
  }

  lemma {:induction false} TextStands(fmt: string, i: nat, ps: seq<Piece>) returns (ms: seq<Marks>)
    requires Stands(fmt, i, WrittenAll(ps)) && i + |WrittenAll(ps)| == |fmt|
    ensures |ms| == |ps| && PiecesStand(fmt, i, ps, ms)
    decreases |ps|
  {
    if ps == [] {
      ms := [];
    } else {
      FirstStands(fmt, i, ps, Written(ps[0]), WrittenAll(ps[1..]));
      var m := WrittenStands(fmt, i, ps[0]);
      var rest := TextStands(fmt, NextOf(i, ps[0], m), ps[1..]);
      ms := [m] + rest;
      assert ms[1..] == rest;
    }
  }

  lemma PiecesEnd(fmt: string, i: nat, ps: seq<Piece>, ms: seq<Marks>)
    requires |ms| == |ps| && PiecesStand(fmt, i, ps, ms)
    ensures i <= |fmt|
  {
  }

  /** Parsing inverts writing. */
  lemma ParseInvertsWriting(ps: seq<Piece>)
    requires AllWritable(ps)
    ensures Parse(WrittenAll(ps), 0) == Ok(ps)
  {
    var ms := TextStands(WrittenAll(ps), 0, ps);
    PiecesParse(WrittenAll(ps), 0, ps, ms);
  }
}
