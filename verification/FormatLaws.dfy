/** What format strings mean. A format is a list of pieces: plain text, percent signs and fields,
    each field with its flags, width, length and conversion. FormatMeaning says what the text of
    any such list prints; the laws after it say what each conversion prints, by reading it back;
    KernelFormats spells out the directives that the kernel uses. */
module FormatLaws {
  import opened CString
  import opened Format
  import opened Printf
  import opened Values
  import Bits

  // ----- the grammar

  /** %[#][0][width][l...]conversion */
  datatype Spec = Spec(alternate: bool, zero: bool, width: int, longs: nat, conv: char)

  datatype Piece = Plain(text: string) | Percent | Field(spec: Spec)

  predicate ValidPiece(p: Piece) {
    match p
    case Plain(t) => '%' !in t
    case Percent => true
    case Field(d) => IsConversion(d.conv) && -0x8000_0000 < d.width < 0x8000_0000
  }

  ghost predicate ValidPieces(ps: seq<Piece>) {
    forall i :: 0 <= i < |ps| ==> ValidPiece(ps[i])
  }

  function WidthText(w: int): string {
    if w == 0 then "" else IntText(w, 10)
  }

  function FlagText(d: Spec): string {
    (if d.alternate then "#" else "") + (if d.zero then "0" else "")
  }

  function PieceText(p: Piece): string {
    match p
    case Plain(t) => t
    case Percent => "%%"
    case Field(d) => "%" + (FlagText(d) + (WidthText(d.width) + (Repeat('l', d.longs) + [d.conv])))
  }

  function TextOf(ps: seq<Piece>): string {
    if ps == [] then "" else PieceText(ps[0]) + TextOf(ps[1..])
  }

  // ----- the meaning

  /** What a field prints for the next argument. */
  function Printed(d: Spec, args: seq<Arg>): Option<string> {
    Convert(d.conv, Props(if d.zero then '0' else ' ', d.width, d.alternate), d.longs, args)
  }

  /** The pieces in order, each field with its own argument. */
  function Output(ps: seq<Piece>, args: seq<Arg>): Option<string> {
    if ps == [] then Some("")
    else
      match ps[0]
      case Plain(t) => Append(t, Output(ps[1..], args))
      case Percent => Append("%", Output(ps[1..], args))
      case Field(d) =>
        if args == [] || Printed(d, args).None? then None
        else Append(Printed(d, args).value, Output(ps[1..], args[1..]))
  }

  // ----- single steps

  /** Behind the first part of what is left of the format stands the second. */
  lemma Behind(fmt: string, i: nat, a: string, b: string)
    requires i <= |fmt| && fmt[i..] == a + b
    ensures i + |a| <= |fmt| && fmt[i + |a|..] == b
    ensures a != "" ==> i < |fmt| && fmt[i] == a[0]
  {
    assert fmt[i + |a|..] == fmt[i..][|a|..];
    if a != "" { assert fmt[i] == fmt[i..][0]; }
  }

  lemma {:induction false} PlainSteps(fmt: string, i: nat, t: string, rest: string, args: seq<Arg>)
    requires i <= |fmt| && fmt[i..] == t + rest && '%' !in t
    ensures i + |t| <= |fmt| && Render(fmt, i, args) == Append(t, Render(fmt, i + |t|, args))
    decreases |t|
  {
    Behind(fmt, i, t, rest);
    if t == "" {
      NothingAppended(Render(fmt, i, args));
    } else {
      assert fmt[i] == t[0] && t[0] in t;
      assert fmt[i + 1..] == fmt[i..][1..] == t[1..] + rest;
      PlainSteps(fmt, i + 1, t[1..], rest, args);
      assert t == [t[0]] + t[1..];
      AppendTwice([t[0]], t[1..], Render(fmt, i + |t|, args));
    }
  }

  lemma NothingAppended(r: Option<string>)
    ensures Append("", r) == r
  {
    if r.Some? { assert "" + r.value == r.value; }
  }

  lemma AppendTwice(a: string, b: string, r: Option<string>)
    ensures Append(a, Append(b, r)) == Append(a + b, r)
  {
    if r.Some? { Assoc(a, b, r.value); }
  }

  lemma PercentStep(fmt: string, i: nat, rest: string, args: seq<Arg>)
    requires i <= |fmt| && fmt[i..] == "%%" + rest
    ensures i + 2 <= |fmt| && Render(fmt, i, args) == Append("%", Render(fmt, i + 2, args))
  {
    Behind(fmt, i, "%%", rest);
    assert fmt[i + 1] == fmt[i..][1] == '%';
  }

  /** A positive number does not begin with a zero. */
  lemma {:induction false} NoLeadingZero(n: nat, base: nat)
    requires 2 <= base <= 16 && n > 0
    ensures Digits(n, base)[0] != '0'
    decreases n
  {
    if n >= base {
      var q, d := DigitsStep(n, base);
      assert q > 0;
      NoLeadingZero(q, base);
    }
  }

  predicate EndsField(c: char) { c in "lcduxps" }

  /** A width is read as itself, and stepped over. */
  lemma WidthMeans(w: int, tail: string)
    requires -0x8000_0000 < w < 0x8000_0000 && tail != "" && EndsField(tail[0])
    ensures var f := WidthText(w) + tail;
            Magnitude(f) < LONG_LIMIT && FieldWidth(f) == w && FieldLength(f) == |WidthText(w)|
  {
    var f := WidthText(w) + tail;
    IntInRange(w);
    if w == 0 {
      assert f == tail;
    } else {
      WidthMeasured(w, tail);
      hide IntText, Magnitude, Number, AsSigned, FieldLength, SkipBlanks;
      IntTextReads(w, tail);
    }
  }

  lemma WidthMeasured(w: int, tail: string)
    requires w != 0 && tail != "" && EndsField(tail[0])
    ensures FieldLength(IntText(w, 10) + tail) == |IntText(w, 10)|
  {
    var d, f := Digits(Abs(w), 10), IntText(w, 10) + tail;
    DecimalDigits(Abs(w));
    hide Digits, DigitRun;
    assert f == if w < 0 then ['-'] + (d + tail) else d + tail;
    assert f[0] == if w < 0 then '-' else d[0];
    if w < 0 { assert f[1..] == d + tail; }
    DigitsRun(d, tail);
  }

  lemma HashStep(fmt: string, i: nat, p: Props, args: seq<Arg>)
    requires i < |fmt| && fmt[i] == '#'
    ensures Directive(fmt, i, p, 0, args) == Directive(fmt, i + 1, p.(alternate := true), 0, args)
  {}

  lemma ZeroStep(fmt: string, i: nat, p: Props, w: int, tail: string, args: seq<Arg>)
    requires i <= |fmt| && fmt[i..] == "0" + (WidthText(w) + tail)
    requires -0x8000_0000 < w < 0x8000_0000 && tail != "" && EndsField(tail[0])
    ensures i + 1 + |WidthText(w)| <= |fmt|
    ensures Directive(fmt, i, p, 0, args)
         == Directive(fmt, i + 1 + |WidthText(w)|, p.(pad := '0', npad := w), 0, args)
  {
    hide WidthText, Directive, Magnitude, FieldWidth, FieldLength, EndsField;
    Behind(fmt, i, "0", WidthText(w) + tail);
    Behind(fmt, i + 1, WidthText(w), tail);
    WidthMeans(w, tail);
    ReadsZero(fmt, i, p, args);
  }

  lemma ReadsZero(fmt: string, i: nat, p: Props, args: seq<Arg>)
    requires i < |fmt| && fmt[i] == '0' && Magnitude(fmt[i + 1..]) < LONG_LIMIT
    ensures Directive(fmt, i, p, 0, args)
         == Directive(fmt, i + 1 + FieldLength(fmt[i + 1..]), p.(pad := '0', npad := FieldWidth(fmt[i + 1..])), 0, args)
  {
    hide Magnitude, FieldWidth, FieldLength, Convert, Render;
  }

  lemma ReadsWidth(fmt: string, i: nat, p: Props, args: seq<Arg>)
    requires i < |fmt| && (fmt[i] == '-' || (IsDigit(fmt[i]) && fmt[i] != '0')) && Magnitude(fmt[i..]) < LONG_LIMIT
    ensures Directive(fmt, i, p, 0, args)
         == Directive(fmt, i + FieldLength(fmt[i..]), p.(npad := FieldWidth(fmt[i..])), 0, args)
  {
    hide Magnitude, FieldWidth, FieldLength, Convert, Render;
  }

  lemma WidthStep(fmt: string, i: nat, p: Props, w: int, tail: string, args: seq<Arg>)
    requires i <= |fmt| && fmt[i..] == WidthText(w) + tail && w != 0
    requires -0x8000_0000 < w < 0x8000_0000 && tail != "" && EndsField(tail[0])
    ensures i + |WidthText(w)| <= |fmt|
    ensures Directive(fmt, i, p, 0, args) == Directive(fmt, i + |WidthText(w)|, p.(npad := w), 0, args)
  {
    hide WidthText, Directive, Magnitude, FieldWidth, FieldLength, EndsField;
    Behind(fmt, i, WidthText(w), tail);
    WidthMeans(w, tail);
    WidthBegins(w);
    ReadsWidth(fmt, i, p, args);
  }

  lemma WidthBegins(w: int)
    requires w != 0
    ensures WidthText(w) != "" && (WidthText(w)[0] == '-' || (IsDigit(WidthText(w)[0]) && WidthText(w)[0] != '0'))
  {
    NoLeadingZero(Abs(w), 10);
    DecimalDigits(Abs(w));
    hide Digits;
  }

  lemma {:induction false} LongSteps(fmt: string, i: nat, p: Props, nlong: nat, k: nat, tail: string, args: seq<Arg>)
    requires i <= |fmt| && fmt[i..] == Repeat('l', k) + tail
    ensures i + k <= |fmt| && Directive(fmt, i, p, nlong, args) == Directive(fmt, i + k, p, nlong + k, args)
    decreases k
  {
    if k > 0 {
      Behind(fmt, i, Repeat('l', k), tail);
      assert fmt[i + 1..] == fmt[i..][1..] == Repeat('l', k - 1) + tail;
      LongSteps(fmt, i + 1, p, nlong + 1, k - 1, tail, args);
    }
  }

  lemma ConvertStep(fmt: string, i: nat, p: Props, nlong: nat, args: seq<Arg>)
    requires i < |fmt| && IsConversion(fmt[i])
    ensures Directive(fmt, i, p, nlong, args)
         == if args == [] || Convert(fmt[i], p, nlong, args).None? then None
            else Append(Convert(fmt[i], p, nlong, args).value, Render(fmt, i + 1, args[1..]))
  {
    assert args == [] ==> Convert(fmt[i], p, nlong, args).None?;
    ConversionsOnly(fmt[i]);
    hide Convert, Render, IsConversion, Magnitude, FieldWidth, FieldLength;
  }

  lemma ConversionsOnly(c: char)
    requires IsConversion(c)
    ensures c != '#' && !IsDigit(c) && c != '-' && c != 'l' && c != 't' && c != 'z' && EndsField(c)
  {}

  // ----- a field

  /** The zero flag and the width of a field. */
  lemma ZeroAndWidth(fmt: string, i: nat, p: Props, zero: bool, w: int, tail: string, args: seq<Arg>)
    requires i <= |fmt| && fmt[i..] == (if zero then "0" else "") + (WidthText(w) + tail) && p.pad == ' ' && p.npad == 0
    requires -0x8000_0000 < w < 0x8000_0000 && tail != "" && EndsField(tail[0])
    ensures var j := i + (if zero then 1 else 0) + |WidthText(w)|;
            j <= |fmt| && fmt[j..] == tail
            && Directive(fmt, i, p, 0, args)
               == Directive(fmt, j, p.(pad := if zero then '0' else ' ', npad := w), 0, args)
  {
    NoWidth();
    hide WidthText, Directive, EndsField;
    if zero {
      Behind(fmt, i, "0", WidthText(w) + tail);
      Behind(fmt, i + 1, WidthText(w), tail);
      ZeroStep(fmt, i, p, w, tail, args);
    } else {
      assert "" + (WidthText(w) + tail) == WidthText(w) + tail;
      Behind(fmt, i, WidthText(w), tail);
      if w != 0 { WidthStep(fmt, i, p, w, tail, args); }
    }
  }

  /** The flags and the width of a field, whatever follows. */
  lemma FlagSteps(fmt: string, i: nat, d: Spec, tail: string, args: seq<Arg>)
    requires i <= |fmt| && fmt[i..] == FlagText(d) + (WidthText(d.width) + tail)
    requires -0x8000_0000 < d.width < 0x8000_0000 && tail != "" && EndsField(tail[0])
    ensures var j := i + |FlagText(d)| + |WidthText(d.width)|;
            j <= |fmt| && fmt[j..] == tail
            && Directive(fmt, i, Props(' ', 0, false), 0, args)
               == Directive(fmt, j, Props(if d.zero then '0' else ' ', d.width, d.alternate), 0, args)
  {
    hide WidthText, Directive, EndsField;
    var z, w := if d.zero then "0" else "", WidthText(d.width) + tail;
    if d.alternate {
      assert fmt[i..] == "#" + (z + w);
      Behind(fmt, i, "#", z + w);
      HashStep(fmt, i, Props(' ', 0, false), args);
      ZeroAndWidth(fmt, i + 1, Props(' ', 0, true), d.zero, d.width, tail, args);
    } else {
      assert "" + z == z;
      ZeroAndWidth(fmt, i, Props(' ', 0, false), d.zero, d.width, tail, args);
    }
  }

  lemma NoWidth()
    ensures WidthText(0) == ""
  {}

  lemma FieldStep(fmt: string, i: nat, d: Spec, rest: string, args: seq<Arg>)
    requires ValidPiece(Field(d)) && i <= |fmt| && fmt[i..] == PieceText(Field(d)) + rest
    ensures i + |PieceText(Field(d))| <= |fmt|
    ensures Render(fmt, i, args)
         == if args == [] || Printed(d, args).None? then None
            else Append(Printed(d, args).value, Render(fmt, i + |PieceText(Field(d))|, args[1..]))
  {
    var f, w, l := FlagText(d), WidthText(d.width), Repeat('l', d.longs);
    var tail := l + ([d.conv] + rest);
    hide FlagText, WidthText, Convert, Directive, Render, IsConversion;
    Behind(fmt, i, PieceText(Field(d)), rest);
    FieldParts("%", f, w, l, [d.conv], rest);
    Behind(fmt, i, "%", f + (w + tail));
    RenderPercent(fmt, i, args);
    assert tail[0] == if d.longs > 0 then 'l' else d.conv;
    ConversionsOnly(d.conv);
    FlagSteps(fmt, i + 1, d, tail, args);
    var j := i + 1 + |f| + |w|;
    var p := Props(if d.zero then '0' else ' ', d.width, d.alternate);
    LongSteps(fmt, j, p, 0, d.longs, [d.conv] + rest, args);
    Behind(fmt, j, l, [d.conv] + rest);
    Behind(fmt, j + d.longs, [d.conv], rest);
    ConvertStep(fmt, j + d.longs, p, d.longs, args);
  }

  lemma FieldParts(a: string, f: string, w: string, l: string, c: string, rest: string)
    ensures a + (f + (w + (l + c))) + rest == a + (f + (w + (l + (c + rest))))
  {}

  // ----- the theorem

  /** One piece, whatever follows. */
  lemma PieceStep(fmt: string, i: nat, p: Piece, rest: string, args: seq<Arg>)
    requires ValidPiece(p) && i <= |fmt| && fmt[i..] == PieceText(p) + rest
    ensures i + |PieceText(p)| <= |fmt| && fmt[i + |PieceText(p)|..] == rest
    ensures var j := i + |PieceText(p)|;
            Render(fmt, i, args) ==
              match p
              case Plain(t) => Append(t, Render(fmt, j, args))
              case Percent => Append("%", Render(fmt, j, args))
              case Field(d) =>
                if args == [] || Printed(d, args).None? then None
                else Append(Printed(d, args).value, Render(fmt, j, args[1..]))
  {
    hide Render, Printed, Append, PieceText, ValidPiece;
    Behind(fmt, i, PieceText(p), rest);
    match p
    case Plain(t) => PlainPiece(fmt, i, t, rest, args);
    case Percent => PercentPiece(fmt, i, rest, args);
    case Field(d) => FieldStep(fmt, i, d, rest, args);
  }

  lemma PlainPiece(fmt: string, i: nat, t: string, rest: string, args: seq<Arg>)
    requires ValidPiece(Plain(t)) && i <= |fmt| && fmt[i..] == PieceText(Plain(t)) + rest
    ensures i + |PieceText(Plain(t))| <= |fmt|
    ensures Render(fmt, i, args) == Append(t, Render(fmt, i + |PieceText(Plain(t))|, args))
  {
    hide Render, Append;
    PlainSteps(fmt, i, t, rest, args);
  }

  lemma PercentPiece(fmt: string, i: nat, rest: string, args: seq<Arg>)
    requires i <= |fmt| && fmt[i..] == PieceText(Percent) + rest
    ensures i + |PieceText(Percent)| <= |fmt|
    ensures Render(fmt, i, args) == Append("%", Render(fmt, i + |PieceText(Percent)|, args))
  {
    hide Render, Append;
    PercentStep(fmt, i, rest, args);
  }

  lemma {:induction false} PiecesRender(fmt: string, i: nat, ps: seq<Piece>, args: seq<Arg>)
    requires ValidPieces(ps) && i <= |fmt| && fmt[i..] == TextOf(ps)
    ensures Render(fmt, i, args) == Output(ps, args)
    decreases |ps|
  {
    hide Render, Printed, PieceText, ValidPiece, Append;
    if ps == [] {
      RenderEnd(fmt, i, args);
    } else {
      assert ValidPiece(ps[0]);
      PieceStep(fmt, i, ps[0], TextOf(ps[1..]), args);
      var j := i + |PieceText(ps[0])|;
      PiecesRender(fmt, j, ps[1..], args);
      if args != [] { PiecesRender(fmt, j, ps[1..], args[1..]); }
    }
  }

  /** The text of any list of pieces prints the pieces, or is undefined exactly when a field has no
      fitting argument. */
  lemma FormatMeaning(ps: seq<Piece>, args: seq<Arg>)
    requires ValidPieces(ps)
    ensures Render(TextOf(ps), 0, args) == Output(ps, args)
  {
    assert TextOf(ps)[0..] == TextOf(ps);
    PiecesRender(TextOf(ps), 0, ps, args);
  }

  // ----- the odd directives

  /** z and t stand for one l, as sizes and differences are longs. */
  lemma SizeIsLong(c: char, args: seq<Arg>)
    requires IsConversion(c)
    ensures Render("%z" + [c], 0, args) == Render("%t" + [c], 0, args) == Render("%l" + [c], 0, args)
  {
    ConversionsOnly(c);
    var z, t, l := "%z" + [c], "%t" + [c], "%l" + [c];
    var p := Props(' ', 0, false);
    hide IsConversion, Convert;
    assert Directive(z, 1, p, 0, args) == Directive(z, 2, p, 1, args);
    assert Directive(t, 1, p, 0, args) == Directive(t, 2, p, 1, args);
    assert Directive(l, 1, p, 0, args) == Directive(l, 2, p, 1, args);
    ConvertStep(z, 2, p, 1, args);
    ConvertStep(t, 2, p, 1, args);
    ConvertStep(l, 2, p, 1, args);
    if args != [] {
      RenderEnd(z, 3, args[1..]);
      RenderEnd(t, 3, args[1..]);
      RenderEnd(l, 3, args[1..]);
    }
  }

  /** A percent sign at the end prints nothing, and one before any other character prints that. */
  lemma OddDirectives(c: char, args: seq<Arg>)
    requires !IsConversion(c) && !IsDigit(c) && c != '-' && c != '#' && c != 'l' && c != 't' && c != 'z'
    ensures Render("%", 0, args) == Some("") && Render("%" + [c], 0, args) == Some([c])
  {
    hide IsConversion;
    var f := "%" + [c];
    assert Render(f, 2, args) == Some("") && [c] + "" == [c];
    assert Directive(f, 1, Props(' ', 0, false), 0, args) == Append([c], Render(f, 2, args));
  }

  // ----- what the conversions print

  /** The values of an unsigned, or of an unsigned long. */
  function Modulus(longs: nat): int {
    if longs == 0 then 0x1_0000_0000 else 0x1_0000_0000_0000_0000
  }

  /** An argument as the signed number its low 32 or 64 bits stand for. */
  lemma SignedMeans(n: int, longs: nat)
    ensures var v, m := AsSigned(n, longs > 0), Modulus(longs); v % m == n % m && -m <= 2 * v < m
  {
    var m := Modulus(longs);
    var u := n % m;
    assert AsUnsigned(n, longs > 0) == u;
    if 2 * u >= m { Bits.DivModUnique(u - m, m, -1, u); }
  }

  /** A padded number reads back, whichever way it is padded. */
  lemma PaddedReads(n: nat, base: nat, npad: int, pad: char)
    requires 2 <= base <= 16 && (pad == ' ' || pad == '0')
    ensures ReadFrom(SkipBlanks(Padded(Digits(n, base), npad, pad)), base, 0) == n
  {
    var d := Digits(n, base);
    DigitsAreDigits(n, base);
    hide Digits, ReadFrom;
    assert d[0] != ' ' && d[0] != '\t' && d + "" == d;
    DigitsRoundTrip(n, base, "");
    if npad > |d| && pad == ' ' {
      BlanksSkipped(npad - |d|, d);
    } else if npad > |d| {
      LeadingZeros(npad - |d|, base, d);
      assert SkipBlanks(Repeat('0', npad - |d|) + d) == Repeat('0', npad - |d|) + d;
    } else if -npad > |d| {
      var r := Repeat(' ', -npad - |d|);
      DigitsRoundTrip(n, base, r);
      assert SkipBlanks(d + r) == d + r;
    } else {
      assert SkipBlanks(d) == d;
    }
  }

  /** %x and %u print the argument's low 32 or 64 bits in base 16 and 10. */
  lemma UnsignedLaw(d: Spec, n: int, rest: seq<Arg>)
    requires (d.conv == 'x' && !d.alternate) || d.conv == 'u'
    ensures Printed(d, [Num(n)] + rest).Some?
    ensures var t := Printed(d, [Num(n)] + rest).value;
            var base := if d.conv == 'x' then 16 else 10;
            && ReadFrom(SkipBlanks(t), base, 0) == n % Modulus(d.longs)
            && |t| == Max(Abs(d.width), |Digits(n % Modulus(d.longs), base)|)
  {
    var base, pad := if d.conv == 'x' then 16 else 10, if d.zero then '0' else ' ';
    var u := n % Modulus(d.longs);
    assert ([Num(n)] + rest)[0] == Num(n) && AsUnsigned(n, d.longs > 0) == u;
    hide Digits, Padded;
    PaddedReads(u, base, d.width, pad);
    PaddedWidth(Digits(u, base), d.width, pad);
  }

  /** With the alternate flag, and always for a pointer, a number other than 0 prints as 0x and its
      hex digits; a pointer has 64 bits whatever its length says. */
  lemma AlternateLaw(d: Spec, n: int, rest: seq<Arg>)
    requires (d.conv == 'x' && d.alternate) || d.conv == 'p'
    ensures Printed(d, [Num(n)] + rest).Some?
    ensures var t := Printed(d, [Num(n)] + rest).value;
            var u := n % (if d.conv == 'p' then 0x1_0000_0000_0000_0000 else Modulus(d.longs));
            if u != 0 then HexNumber(t) == u else t == Padded("0", d.width, if d.zero then '0' else ' ')
  {
    var p := Props(if d.zero then '0' else ' ', d.width, true);
    var u := n % (if d.conv == 'p' then 0x1_0000_0000_0000_0000 else Modulus(d.longs));
    assert ([Num(n)] + rest)[0] == Num(n);
    if u != 0 {
      hide UnsignedText, HexNumber;
      AlternateHexReads(u, p);
    } else {
      assert Digits(0, 16) == "0";
    }
  }

  /** %d prints the signed number, which `atol` reads back unless zeros hide its minus sign; the
      least 64-bit number is the one it cannot print. */
  lemma SignedLaw(d: Spec, n: int, rest: seq<Arg>)
    requires d.conv == 'd'
    ensures Printed(d, [Num(n)] + rest).Some?
       <==> !(d.longs > 0 && n % 0x1_0000_0000_0000_0000 == 0x8000_0000_0000_0000)
    ensures var v := AsSigned(n, d.longs > 0);
            Printed(d, [Num(n)] + rest).Some? ==>
              (Number(Printed(d, [Num(n)] + rest).value) == v <==> !(d.zero && v < 0 && d.width > |IntText(v, 10)|))
  {
    var v := AsSigned(n, d.longs > 0);
    assert ([Num(n)] + rest)[0] == Num(n);
    SignedMeans(n, d.longs);
    hide Padded, Number, IntText;
    AtolUndoesPrintInt(v, d.width, if d.zero then '0' else ' ');
  }

  /** %c prints the low byte, whatever the width, and %s the text in its field. */
  lemma CharAndTextLaw(d: Spec, n: int, s: string, rest: seq<Arg>)
    ensures d.conv == 'c' ==> Printed(d, [Num(n)] + rest) == Some([(n % 256) as char])
    ensures d.conv == 's' && IsCString(s) && |s| < 0x8000_0000 ==>
              && Printed(d, [Text(s)] + rest).Some?
              && var t := Printed(d, [Text(s)] + rest).value;
                 |t| == Max(|s|, Abs(d.width)) && (if d.width > 0 then t[|t| - |s|..] == s else t[..|s|] == s)
  {
    assert ([Num(n)] + rest)[0] == Num(n) && ([Text(s)] + rest)[0] == Text(s);
    PaddedWidth(s, d.width, if d.zero then '0' else ' ');
    hide Padded;
  }

  // ----- the kernel's directives

  lemma OneField(d: Spec, n: int)
    requires ValidPiece(Field(d))
    ensures Render(PieceText(Field(d)), 0, [Num(n)]) == Printed(d, [Num(n)])
  {
    var ps, args := [Field(d)], [Num(n)];
    hide Render, Printed, PieceText;
    assert ps[1..] == [] && args[1..] == [] && PieceText(Field(d)) + "" == PieceText(Field(d));
    FormatMeaning(ps, args);
    assert Output(ps[1..], args[1..]) == Some("");
    if Printed(d, args).Some? { assert Printed(d, args).value + "" == Printed(d, args).value; }
  }

  lemma ShortNumbers()
    ensures IntText(4, 10) == "4" && IntText(5, 10) == "5" && IntText(8, 10) == "8"
    ensures IntText(16, 10) == "16" && IntText(-15, 10) == "-15" && IntText(-10, 10) == "-10"
  {
    assert Digits(1, 10) == "1";
    assert Digits(16, 10) == "16" && Digits(15, 10) == "15" && Digits(10, 10) == "10";
  }

  /** The number fields without width. */
  lemma PlainFields()
    ensures PieceText(Field(Spec(false, false, 0, 0, 'x'))) == "%x"
    ensures PieceText(Field(Spec(false, false, 0, 1, 'x'))) == "%lx"
    ensures PieceText(Field(Spec(true, false, 0, 1, 'x'))) == "%#lx"
    ensures PieceText(Field(Spec(false, false, 0, 0, 'u'))) == "%u"
    ensures PieceText(Field(Spec(false, false, 0, 1, 'u'))) == "%lu"
    ensures PieceText(Field(Spec(false, false, 0, 0, 'd'))) == "%d"
    ensures PieceText(Field(Spec(false, false, 0, 1, 'd'))) == "%ld"
    ensures PieceText(Field(Spec(false, false, 0, 0, 'c'))) == "%c"
    ensures PieceText(Field(Spec(false, false, 0, 0, 'p'))) == "%p"
  {
    assert Repeat('l', 0) == "" && Repeat('l', 1) == "l";
  }

  lemma WideFields()
    ensures PieceText(Field(Spec(false, true, 16, 1, 'x'))) == "%016lx"
    ensures PieceText(Field(Spec(false, true, 8, 1, 'x'))) == "%08lx"
    ensures PieceText(Field(Spec(false, true, 4, 1, 'x'))) == "%04lx"
    ensures PieceText(Field(Spec(false, false, 5, 0, 'd'))) == "%5d"
    ensures PieceText(Field(Spec(false, false, -15, 1, 'u'))) == "%-15lu"
    ensures PieceText(Field(Spec(false, false, -10, 1, 'd'))) == "%-10ld"
    ensures PieceText(Field(Spec(false, false, -15, 0, 's'))) == "%-15s"
    ensures PieceText(Field(Spec(false, false, -10, 0, 's'))) == "%-10s"
  {
    ShortNumbers();
    hide IntText;
    assert Repeat('l', 0) == "" && Repeat('l', 1) == "l";
  }

  /** What the hex directives of the kernel print. */
  lemma HexDirectives(n: int)
    ensures Render("%x", 0, [Num(n)]) == Some(Digits(n % 0x1_0000_0000, 16))
    ensures Render("%lx", 0, [Num(n)]) == Some(Digits(n % 0x1_0000_0000_0000_0000, 16))
    ensures Render("%016lx", 0, [Num(n)]) == Some(Padded(Digits(n % 0x1_0000_0000_0000_0000, 16), 16, '0'))
    ensures Render("%08lx", 0, [Num(n)]) == Some(Padded(Digits(n % 0x1_0000_0000_0000_0000, 16), 8, '0'))
    ensures Render("%04lx", 0, [Num(n)]) == Some(Padded(Digits(n % 0x1_0000_0000_0000_0000, 16), 4, '0'))
    ensures var u := n % 0x1_0000_0000_0000_0000;
            Render("%#lx", 0, [Num(n)]) == Render("%p", 0, [Num(n)])
            == Some(if u == 0 then "0" else "0x" + Digits(u, 16))
  {
    PlainFields();
    WideFields();
    hide Render, PieceText;
    OneField(Spec(false, false, 0, 0, 'x'), n);
    OneField(Spec(false, false, 0, 1, 'x'), n);
    OneField(Spec(false, true, 16, 1, 'x'), n);
    OneField(Spec(false, true, 8, 1, 'x'), n);
    OneField(Spec(false, true, 4, 1, 'x'), n);
    OneField(Spec(true, false, 0, 1, 'x'), n);
    OneField(Spec(false, false, 0, 0, 'p'), n);
    assert Digits(0, 16) == "0";
    hide Digits;
  }

  /** What its decimal directives and %c print. */
  lemma DecimalDirectives(n: int)
    ensures Render("%u", 0, [Num(n)]) == Some(Digits(n % 0x1_0000_0000, 10))
    ensures Render("%lu", 0, [Num(n)]) == Some(Digits(n % 0x1_0000_0000_0000_0000, 10))
    ensures Render("%-15lu", 0, [Num(n)]) == Some(Padded(Digits(n % 0x1_0000_0000_0000_0000, 10), -15, ' '))
    ensures Render("%c", 0, [Num(n)]) == Some([(n % 256) as char])
    ensures -0x8000_0000 <= n < 0x8000_0000 ==> Render("%d", 0, [Num(n)]) == Some(IntText(n, 10))
    ensures -0x8000_0000 <= n < 0x8000_0000 ==> Render("%5d", 0, [Num(n)]) == Some(Padded(IntText(n, 10), 5, ' '))
    ensures -LONG_LIMIT < n < LONG_LIMIT ==> Render("%ld", 0, [Num(n)]) == Some(IntText(n, 10))
    ensures -LONG_LIMIT < n < LONG_LIMIT ==> Render("%-10ld", 0, [Num(n)]) == Some(Padded(IntText(n, 10), -10, ' '))
  {
    PlainFields();
    WideFields();
    hide Render, PieceText;
    OneField(Spec(false, false, 0, 0, 'u'), n);
    OneField(Spec(false, false, 0, 1, 'u'), n);
    OneField(Spec(false, false, -15, 1, 'u'), n);
    OneField(Spec(false, false, 0, 0, 'c'), n);
    OneField(Spec(false, false, 0, 0, 'd'), n);
    OneField(Spec(false, false, 5, 0, 'd'), n);
    OneField(Spec(false, false, 0, 1, 'd'), n);
    OneField(Spec(false, false, -10, 1, 'd'), n);
    hide Digits;
    if -LONG_LIMIT < n < LONG_LIMIT { LongInRange(n); }
    if -0x8000_0000 <= n < 0x8000_0000 { IntInRange(n); }
  }

  lemma LongInRange(n: int)
    requires -LONG_LIMIT <= n < LONG_LIMIT
    ensures AsSigned(n, true) == n
  {
    if n < 0 { Bits.DivModUnique(n, 0x1_0000_0000_0000_0000, -1, 0x1_0000_0000_0000_0000 + n); }
  }

  lemma IntInRange(n: int)
    requires -0x8000_0000 <= n < 0x8000_0000
    ensures AsSigned(n, false) == n
  {
    if n < 0 { Bits.DivModUnique(n, 0x1_0000_0000, -1, 0x1_0000_0000 + n); }
  }
}
