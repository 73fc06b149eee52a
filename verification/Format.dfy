/** What the formatter of lib/printf.c is to print, without a buffer: padding, numbers in a
    base, and the whole of a format string. */
module Format {
  import opened CString
  import opened Values

  const DIGITS: string := "0123456789abcdef"

  // ----- numbers as text

  function DigitChar(d: nat): char
    requires d < 16
  {
    DIGITS[d]
  }

  /** Positional notation, most significant digit first. */
  function Digits(n: nat, base: nat): (s: string)
    requires 2 <= base <= 16
    ensures |s| > 0
    decreases n
  {
    if n < base then [DigitChar(n)] else Digits(n / base, base) + [DigitChar(n % base)]
  }

  function IntText(n: int, base: nat): string
    requires 2 <= base <= 16
  {
    if n < 0 then ['-'] + Digits(-n, base) else Digits(n, base)
  }

  // ----- padding

  function Repeat(c: char, k: nat): (s: string)
    ensures |s| == k && forall i :: 0 <= i < k ==> s[i] == c
  {
    seq(k, _ => c)
  }

  /** Right-aligned with `pad` to width npad, or left-aligned with blanks to width -npad. */
  function Padded(s: string, npad: int, pad: char): string {
    if npad > |s| then Repeat(pad, npad - |s|) + s
    else if -npad > |s| then s + Repeat(' ', -npad - |s|)
    else s
  }

  function Abs(x: int): nat { if x < 0 then -x else x }
  function Max(x: int, y: int): int { if x > y then x else y }

  /** The text stands whole on its side, the field is as wide as the wider of the two, and the rest
      is padding: the given character in front, blanks behind. */
  lemma PaddedWidth(s: string, npad: int, pad: char)
    ensures |Padded(s, npad, pad)| == Max(|s|, Abs(npad))
    ensures npad >= 0 ==> Padded(s, npad, pad)[|Padded(s, npad, pad)| - |s|..] == s
    ensures npad <= 0 ==> Padded(s, npad, pad)[..|s|] == s
    ensures npad >= 0 ==> forall i :: 0 <= i < npad - |s| ==> Padded(s, npad, pad)[i] == pad
    ensures npad <= 0 ==> forall i :: |s| <= i < -npad ==> Padded(s, npad, pad)[i] == ' '
  {}

  // ----- unsigned numbers, with the 0x of the alternate form

  datatype Props = Props(pad: char, npad: int, alternate: bool)

  function UnsignedText(n: nat, base: nat, p: Props): string
    requires 2 <= base <= 16
  {
    if n != 0 && p.alternate && base == 16 then
      if p.pad == '0' then "0x" + Padded(Digits(n, base), if p.npad > 0 then Max(p.npad - 2, 0) else p.npad, p.pad)
      else Padded("0x" + Digits(n, base), p.npad, p.pad)
    else Padded(Digits(n, base), p.npad, p.pad)
  }

  /** Alternate hex fills its field exactly unless it is zero padded and left aligned in a field
      wider than its digits; then the 0x comes on top of the width. */
  lemma AlternateHexWidth(n: nat, p: Props)
    requires n != 0 && p.alternate
    ensures |UnsignedText(n, 16, p)| == Max(Abs(p.npad), |Digits(n, 16)| + 2)
            <==> !(p.pad == '0' && -p.npad > |Digits(n, 16)|)
  {
    hide Digits, Padded;
    PaddedWidth(Digits(n, 16), if p.npad > 0 then Max(p.npad - 2, 0) else p.npad, p.pad);
    PaddedWidth("0x" + Digits(n, 16), p.npad, p.pad);
  }

  // ----- reading the numbers back

  function HexDigit(c: char): Option<nat> {
    if '0' <= c <= '9' then Some(c as int - '0' as int)
    else if 'a' <= c <= 'f' then Some(c as int - 'a' as int + 10)
    else None
  }

  /** The value of acc followed by the leading digits of s in a base. */
  function ReadFrom(s: string, base: nat, acc: nat): nat
    requires 2 <= base <= 16
  {
    if s == "" then acc
    else
      var d := HexDigit(s[0]);
      if d.None? || d.value >= base then acc else ReadFrom(s[1..], base, acc * base + d.value)
  }

  /** s begins with no digit of the base. */
  predicate NoDigit(s: string, base: nat) {
    s == "" || HexDigit(s[0]).None? || HexDigit(s[0]).value >= base
  }

  lemma DigitCharReads(d: nat)
    requires d < 16
    ensures HexDigit(DigitChar(d)) == Some(d)
    ensures d < 10 ==> IsDigit(DigitChar(d)) && DigitValue(DigitChar(d)) == d
  {}

  lemma ReadDigit(d: nat, base: nat, acc: nat, rest: string)
    requires 2 <= base <= 16 && d < base
    ensures ReadFrom([DigitChar(d)] + rest, base, acc) == ReadFrom(rest, base, acc * base + d)
  {
    DigitCharReads(d);
    assert ([DigitChar(d)] + rest)[1..] == rest;
  }

  lemma DigitsStep(n: nat, base: nat) returns (q: nat, d: nat)
    requires 2 <= base <= 16 && n >= base
    ensures q == n / base < n && d == n % base < base && q * base + d == n
    ensures Digits(n, base) == Digits(q, base) + [DigitChar(d)]
  {
    q, d := n / base, n % base;
  }

  /** Reading the digits of n yields n, and reading goes on with what follows. */
  lemma {:induction false} ReadDigitsBack(n: nat, base: nat, rest: string)
    requires 2 <= base <= 16
    ensures ReadFrom(Digits(n, base) + rest, base, 0) == ReadFrom(rest, base, n)
    decreases n
  {
    if n < base {
      ReadDigit(n, base, 0, rest);
    } else {
      hide ReadFrom, Digits;
      var q, d := DigitsStep(n, base);
      assert Digits(n, base) + rest == Digits(q, base) + ([DigitChar(d)] + rest);
      ReadDigitsBack(q, base, [DigitChar(d)] + rest);
      ReadDigit(d, base, q, rest);
    }
  }

  /** The digits of n read as n, whatever follows that is no digit. */
  lemma DigitsRoundTrip(n: nat, base: nat, rest: string)
    requires 2 <= base <= 16 && NoDigit(rest, base)
    ensures ReadFrom(Digits(n, base) + rest, base, 0) == n
  {
    ReadDigitsBack(n, base, rest);
  }

  lemma {:induction false} LeadingZeros(k: nat, base: nat, rest: string)
    requires 2 <= base <= 16
    ensures ReadFrom(Repeat('0', k) + rest, base, 0) == ReadFrom(rest, base, 0)
  {
    if k == 0 {
      assert Repeat('0', 0) + rest == rest;
    } else {
      assert (Repeat('0', k) + rest)[1..] == Repeat('0', k - 1) + rest;
      LeadingZeros(k - 1, base, rest);
    }
  }

  /** `atol`'s digit loop reads base 10. */
  lemma {:induction false} AccumulateIsBaseTen(s: string, acc: nat)
    ensures Accumulate(s, acc) == ReadFrom(s, 10, acc)
  {
    if s != "" && IsDigit(s[0]) { AccumulateIsBaseTen(s[1..], acc * 10 + DigitValue(s[0])); }
  }

  lemma {:induction false} BlanksSkipped(k: nat, rest: string)
    requires rest == "" || (rest[0] != ' ' && rest[0] != '\t')
    ensures SkipBlanks(Repeat(' ', k) + rest) == rest
  {
    if k == 0 {
      assert Repeat(' ', 0) + rest == rest;
    } else {
      assert (Repeat(' ', k) + rest)[1..] == Repeat(' ', k - 1) + rest;
      BlanksSkipped(k - 1, rest);
    }
  }

  lemma {:induction false} DigitsAreDigits(n: nat, base: nat)
    requires 2 <= base <= 16
    ensures forall i :: 0 <= i < |Digits(n, base)| ==>
              HexDigit(Digits(n, base)[i]).Some? && HexDigit(Digits(n, base)[i]).value < base
    decreases n
  {
    if n < base {
      DigitCharReads(n);
    } else {
      hide Digits;
      var q, d := DigitsStep(n, base);
      DigitsAreDigits(q, base);
      DigitCharReads(d);
    }
  }

  lemma DecimalDigits(n: nat)
    ensures forall i :: 0 <= i < |Digits(n, 10)| ==> IsDigit(Digits(n, 10)[i])
  {
    DigitsAreDigits(n, 10);
    hide Digits;
  }

  /** A decimal number is read back through anything that is no digit. */
  lemma IntTextReads(n: int, rest: string)
    requires NoDigit(rest, 10)
    ensures var s := IntText(n, 10) + rest;
            SkipBlanks(s) == s && Magnitude(s) == Abs(n) && Number(s) == n
  {
    var s := IntText(n, 10) + rest;
    var t := Digits(Abs(n), 10) + rest;
    DigitsAreDigits(Abs(n), 10);
    hide Digits, Accumulate, ReadFrom;
    assert t[0] == Digits(Abs(n), 10)[0];
    if n < 0 {
      assert s == ['-'] + t && s[1..] == t;
    } else {
      assert s == t;
    }
    assert SkipBlanks(s) == s;
    assert SkipSign(s) == t;
    AccumulateIsBaseTen(t, 0);
    DigitsRoundTrip(Abs(n), 10, rest);
  }

  lemma {:induction false} AllBlanksSkipped(b: string, rest: string)
    requires forall i :: 0 <= i < |b| ==> b[i] == ' ' || b[i] == '\t'
    requires rest == "" || (rest[0] != ' ' && rest[0] != '\t')
    ensures SkipBlanks(b + rest) == rest
    decreases |b|
  {
    if b == "" {
      assert b + rest == rest;
    } else {
      assert (b + rest)[1..] == b[1..] + rest;
      AllBlanksSkipped(b[1..], rest);
    }
  }

  /** `atol` reads a decimal number behind any blanks and tabs and one sign, up to the first
      character that is no digit. */
  lemma AtolReads(b: string, sign: string, n: nat, rest: string)
    requires forall i :: 0 <= i < |b| ==> b[i] == ' ' || b[i] == '\t'
    requires sign == "" || sign == "-" || sign == "+"
    requires NoDigit(rest, 10)
    ensures Number(b + (sign + (Digits(n, 10) + rest))) == if sign == "-" then -(n as int) else n
  {
    var d := Digits(n, 10) + rest;
    var s := sign + d;
    DecimalDigits(n);
    hide Digits, Accumulate, ReadFrom;
    assert d[0] == Digits(n, 10)[0] && s[0] == if sign == "" then d[0] else sign[0];
    AllBlanksSkipped(b, s);
    assert SkipSign(s) == d;
    AccumulateIsBaseTen(d, 0);
    DigitsRoundTrip(n, 10, rest);
  }

  /** A minus sign behind zeros is not read. */
  lemma ZerosHideMinus(k: nat, rest: string)
    requires k > 0
    ensures Number(Repeat('0', k) + (['-'] + rest)) == 0 && Magnitude(Repeat('0', k) + (['-'] + rest)) == 0
  {
    var r := ['-'] + rest;
    var s := Repeat('0', k) + r;
    assert s[0] == '0';
    AccumulateIsBaseTen(s, 0);
    LeadingZeros(k, 10, r);
  }

  lemma ZerosRead(k: nat, n: nat)
    ensures Number(Repeat('0', k) + IntText(n, 10)) == n && Magnitude(Repeat('0', k) + IntText(n, 10)) == n
  {
    var d := Digits(n, 10);
    var s := Repeat('0', k) + d;
    DigitsAreDigits(n, 10);
    hide Digits, Accumulate, ReadFrom;
    assert s[0] == if k > 0 then '0' else d[0];
    assert SkipBlanks(s) == s && SkipSign(s) == s;
    AccumulateIsBaseTen(s, 0);
    LeadingZeros(k, 10, d);
    assert d + "" == d;
    DigitsRoundTrip(n, 10, "");
  }

  /** `atol` undoes what `print_int` prints in base 10, for every width and padding, exactly
      unless zeros were put in front of a minus sign; then it reads 0. */
  lemma AtolUndoesPrintInt(n: int, npad: int, pad: char)
    requires pad == ' ' || pad == '0'
    ensures var s := Padded(IntText(n, 10), npad, pad);
            && (Number(s) == n <==> !(pad == '0' && n < 0 && npad > |IntText(n, 10)|))
            && Magnitude(s) <= Abs(n)
  {
    var t := IntText(n, 10);
    if npad > |t| && pad == ' ' {
      BlanksInFront(npad - |t|, n);
    } else if npad > |t| && n < 0 {
      ZerosHideMinus(npad - |t|, Digits(-n, 10));
    } else if npad > |t| {
      ZerosRead(npad - |t|, n);
    } else if -npad > |t| {
      IntTextReads(n, Repeat(' ', -npad - |t|));
    } else {
      assert t + "" == t;
      IntTextReads(n, "");
    }
  }

  lemma BlanksInFront(k: nat, n: int)
    ensures Number(Repeat(' ', k) + IntText(n, 10)) == n && Magnitude(Repeat(' ', k) + IntText(n, 10)) == Abs(n)
  {
    var t := IntText(n, 10);
    assert t + "" == t;
    IntTextReads(n, "");
    DigitsAreDigits(Abs(n), 10);
    hide Digits, Accumulate;
    assert t[0] == if n < 0 then '-' else Digits(n, 10)[0];
    BlanksSkipped(k, t);
    assert SkipBlanks(t) == t;
  }

  /** The value of a hex number after blanks and 0x. */
  function HexNumber(s: string): nat {
    var t := SkipBlanks(s);
    if |t| >= 2 && t[..2] == "0x" then ReadFrom(t[2..], 16, 0) else 0
  }

  lemma HexReads(k: nat, n: nat, rest: string)
    requires NoDigit(rest, 16)
    ensures HexNumber(Repeat(' ', k) + ("0x" + Digits(n, 16) + rest)) == n
  {
    var d := Digits(n, 16) + rest;
    var t := "0x" + Digits(n, 16) + rest;
    assert t == "0x" + d && t[..2] == "0x" && t[2..] == d;
    hide Digits, ReadFrom;
    BlanksSkipped(k, t);
    DigitsRoundTrip(n, 16, rest);
  }

  lemma ZeroPaddedHexReads(k: nat, n: nat, rest: string)
    requires NoDigit(rest, 16)
    ensures HexNumber("0x" + (Repeat('0', k) + Digits(n, 16) + rest)) == n
  {
    var d := Digits(n, 16) + rest;
    var z := Repeat('0', k) + Digits(n, 16) + rest;
    var t := "0x" + z;
    hide Digits, ReadFrom;
    assert z == Repeat('0', k) + d;
    assert SkipBlanks(t) == t && t[..2] == "0x" && t[2..] == z;
    LeadingZeros(k, 16, d);
    DigitsRoundTrip(n, 16, rest);
  }

  /** Alternate hex is read back as n under either padding and every width. */
  lemma AlternateHexReads(n: nat, p: Props)
    requires n != 0 && p.alternate && (p.pad == ' ' || p.pad == '0')
    ensures HexNumber(UnsignedText(n, 16, p)) == n
  {
    var d := Digits(n, 16);
    hide Digits, HexNumber;
    if p.pad == '0' {
      var w := if p.npad > 0 then Max(p.npad - 2, 0) else p.npad;
      if w > |d| {
        assert Padded(d, w, '0') == Repeat('0', w - |d|) + d + "";
        ZeroPaddedHexReads(w - |d|, n, "");
      } else if -w > |d| {
        assert Padded(d, w, '0') == Repeat('0', 0) + d + Repeat(' ', -w - |d|);
        ZeroPaddedHexReads(0, n, Repeat(' ', -w - |d|));
      } else {
        assert Padded(d, w, '0') == Repeat('0', 0) + d + "";
        ZeroPaddedHexReads(0, n, "");
      }
    } else {
      var t := "0x" + d;
      if p.npad > |t| {
        assert Padded(t, p.npad, ' ') == Repeat(' ', p.npad - |t|) + ("0x" + d + "");
        HexReads(p.npad - |t|, n, "");
      } else if -p.npad > |t| {
        assert Padded(t, p.npad, ' ') == Repeat(' ', 0) + ("0x" + d + Repeat(' ', -p.npad - |t|));
        HexReads(0, n, Repeat(' ', -p.npad - |t|));
      } else {
        assert Padded(t, p.npad, ' ') == Repeat(' ', 0) + ("0x" + d + "");
        HexReads(0, n, "");
      }
    }
  }

  // ----- format strings

  /** A variadic argument: the 64 bits passed for a number, or a string. */
  datatype Arg = Num(n: int) | Text(s: string)

  function AsUnsigned(n: int, long: bool): nat {
    if long then n % 0x1_0000_0000_0000_0000 else n % 0x1_0000_0000
  }

  function AsSigned(n: int, long: bool): int {
    var u := AsUnsigned(n, long);
    if long then (if u < 0x8000_0000_0000_0000 then u else u - 0x1_0000_0000_0000_0000)
    else (if u < 0x8000_0000 then u else u - 0x1_0000_0000)
  }

  /** What a conversion letter prints for the next argument; none where the call is undefined:
      no argument of the kind left, or the least 64-bit number, which has no negative. */
  function Convert(f: char, p: Props, nlong: nat, args: seq<Arg>): Option<string> {
    if args == [] then None
    else
      match args[0]
      case Text(s) =>
        if f == 's' && IsCString(s) && |s| < 0x8000_0000 then Some(Padded(s, p.npad, p.pad)) else None
      case Num(n) =>
        if f == 'c' then Some([(n % 256) as char])
        else if f == 'd' then
          var v := AsSigned(n, nlong > 0);
          if v == -LONG_LIMIT then None else Some(Padded(IntText(v, 10), p.npad, p.pad))
        else if f == 'u' then Some(UnsignedText(AsUnsigned(n, nlong > 0), 10, p))
        else if f == 'x' then Some(UnsignedText(AsUnsigned(n, nlong > 0), 16, p))
        else if f == 'p' then Some(UnsignedText(AsUnsigned(n, true), 16, p.(alternate := true)))
        else None
  }

  predicate IsConversion(f: char) {
    f in "cduxps"
  }

  /** How much of s `fmtnum` steps over. */
  function FieldLength(s: string): (k: nat)
    ensures k <= |s|
    ensures s != "" && (s[0] == '-' || IsDigit(s[0])) ==> k > 0
  {
    if s != "" && s[0] == '-' then 1 + DigitRun(s[1..]) else DigitRun(s)
  }

  /** The field width `fmtnum` returns: `atol` of what follows, as an `int`. */
  function FieldWidth(s: string): int {
    AsSigned(Number(s), false)
  }

  function Append(s: string, rest: Option<string>): Option<string> {
    if rest.None? then None else Some(s + rest.value)
  }

  /** Everything the format from i on prints, if the call is defined. */
  function Render(fmt: string, i: nat, args: seq<Arg>): Option<string>
    requires i <= |fmt|
    decreases |fmt| - i
  {
    if i == |fmt| then Some("")
    else if fmt[i] != '%' then Append([fmt[i]], Render(fmt, i + 1, args))
    else Directive(fmt, i + 1, Props(' ', 0, false), 0, args)
  }

  /** The same from inside a directive, after the flags read so far. */
  function Directive(fmt: string, i: nat, p: Props, nlong: nat, args: seq<Arg>): Option<string>
    requires i <= |fmt|
    decreases |fmt| - i
  {
    if i == |fmt| then Some("")
    else
      var f := fmt[i];
      if f == '#' then Directive(fmt, i + 1, p.(alternate := true), nlong, args)
      else if f == '0' then
        var rest := fmt[i + 1..];
        if Magnitude(rest) >= LONG_LIMIT then None
        else Directive(fmt, i + 1 + FieldLength(rest), p.(pad := '0', npad := FieldWidth(rest)), nlong, args)
      else if IsDigit(f) || f == '-' then
        var rest := fmt[i..];
        if Magnitude(rest) >= LONG_LIMIT then None
        else Directive(fmt, i + FieldLength(rest), p.(npad := FieldWidth(rest)), nlong, args)
      else if f == 'l' then Directive(fmt, i + 1, p, nlong + 1, args)
      else if f == 't' || f == 'z' then Directive(fmt, i + 1, p, 1, args)
      else if IsConversion(f) then
        var text := Convert(f, p, nlong, args);
        if text.None? then None else Append(text.value, Render(fmt, i + 1, args[1..]))
      else Append([f], Render(fmt, i + 1, args))    // also for '%'
  }
}
