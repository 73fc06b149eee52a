/** The formatter of lib/printf.c, writing into a bounded buffer. Each method is proved to
    emit what module Format says, and the buffer to hold the part that fits. */
module Printf {
  import opened CString
  import opened Format
  import opened Values

  function Min(x: int, y: int): int { if x < y then x else y }

  lemma Assoc(a: string, b: string, c: string)
    ensures a + b + c == a + (b + c)
  {}

  // ----- digits from the least significant end

  function RevDigits(n: nat, base: nat): string
    requires base == 10 || base == 16
    decreases n
  {
    if n == 0 then "" else [DigitChar(n % base)] + RevDigits(n / base, base)
  }

  function Reverse(s: string): (r: string)
    ensures |r| == |s| && forall i :: 0 <= i < |s| ==> r[i] == s[|s| - 1 - i]
  {
    seq(|s|, i requires 0 <= i < |s| => s[|s| - 1 - i])
  }

  lemma ReverseCons(c: char, s: string)
    ensures Reverse([c] + s) == Reverse(s) + [c]
  {}

  lemma {:induction false} RevDigitsAreDigits(n: nat, base: nat)
    requires (base == 10 || base == 16) && n > 0
    ensures Reverse(RevDigits(n, base)) == Digits(n, base)
    decreases n
  {
    ReverseCons(DigitChar(n % base), RevDigits(n / base, base));
    if n < base {
      assert RevDigits(n / base, base) == "";
    } else {
      RevDigitsAreDigits(n / base, base);
    }
  }

  /** A number below base^k has at most k digits. */
  lemma {:induction false} RevDigitsFit(n: nat, base: nat, k: nat, limit: nat)
    requires (base == 10 || base == 16) && n < limit && limit == Power(base, k)
    ensures |RevDigits(n, base)| <= k
    decreases k
  {
    if n > 0 {
      assert k > 0;
      QuotientBelow(n, base, Power(base, k - 1));
      hide Power;
      RevDigitsFit(n / base, base, k - 1, Power(base, k - 1));
    }
  }

  lemma QuotientBelow(n: nat, base: nat, limit: nat)
    requires (base == 10 || base == 16) && n < base * limit
    ensures n / base < limit
  {
    if base == 10 {
      assert n < 10 * limit;
    } else {
      assert n < 16 * limit;
    }
  }

  function Power(b: nat, k: nat): nat {
    if k == 0 then 1 else b * Power(b, k - 1)
  }

  /** The digits of any 64-bit number fit the local buffers with sign or prefix and terminator. */
  lemma WordDigitsFit(n: nat, base: nat)
    requires (base == 10 || base == 16) && n < 0x1_0000_0000_0000_0000
    ensures |RevDigits(n, base)| <= 20
  {
    if base == 10 {
      assert Power(10, 5) == 100_000;
      assert Power(10, 10) == 10_000_000_000;
      assert Power(10, 15) == 1_000_000_000_000_000;
      assert Power(10, 20) == 100_000_000_000_000_000_000;
      RevDigitsFit(n, 10, 20, Power(10, 20));
    } else {
      assert Power(16, 8) == 0x1_0000_0000;
      assert Power(16, 16) == 0x1_0000_0000_0000_0000;
      RevDigitsFit(n, 16, 16, Power(16, 16));
    }
  }

  /** Swaps the first `len` characters end for end. */
  method ReverseInPlace(buf: array<char>, len: nat)
    requires len <= buf.Length
    modifies buf
    ensures buf[..len] == Reverse(old(buf[..len]))
  {
    ghost var was := buf[..len];
    var i := 0;
    while i < len / 2
      invariant 0 <= i <= len / 2
      invariant forall j :: i <= j < len - i ==> buf[j] == was[j]
      invariant forall j :: 0 <= j < i ==> buf[j] == was[len - 1 - j]
      invariant forall j :: len - i <= j < len ==> buf[j] == was[len - 1 - j]
    {
      var tmp := buf[i];
      buf[i] := buf[len - 1 - i];
      buf[len - 1 - i] := tmp;
      i := i + 1;
    }
  }

  /** One division of the digit loop. */
  method NextDigit(n: nat, base: nat) returns (q: nat, d: nat)
    requires (base == 10 || base == 16) && n > 0
    ensures q < n && d < base && RevDigits(n, base) == [DigitChar(d)] + RevDigits(q, base)
  {
    q, d := n / base, n % base;
  }

  /** The digit loop shared by `print_int` and `print_unsigned`. */
  method PutDigits(buf: array<char>, n0: nat, base: nat) returns (p: nat)
    requires (base == 10 || base == 16) && buf.Length >= |RevDigits(n0, base)|
    modifies buf
    ensures p == |RevDigits(n0, base)| && buf[..p] == RevDigits(n0, base)
  {
    var n := n0;
    p := 0;
    assert RevDigits(0, base) == "";
    hide RevDigits, DigitChar;
    while n != 0
      invariant p <= buf.Length && n >= 0
      invariant buf[..p] + RevDigits(n, base) == RevDigits(n0, base)
      decreases n
    {
      var q, d := NextDigit(n, base);
      ghost var done := buf[..p];
      buf[p] := DigitChar(d);
      p := p + 1;
      assert buf[..p] == done + [DigitChar(d)];
      Assoc(done, [DigitChar(d)], RevDigits(q, base));
      n := q;
    }
  }

  // ----- the stream

  /** What the buffer `was` becomes when `out` is printed into its first `size` characters. */
  function Truncated(out: string, size: nat, was: seq<char>): (b: seq<char>)
    requires 1 <= size <= |was|
    ensures |b| == |was| && b[size..] == was[size..]
    ensures |out| < size ==> b[..|out|] == out && b[|out|] == NUL && b[|out| + 1..] == was[|out| + 1..]
    ensures |out| >= size ==> b[..size - 1] == out[..size - 1] && b[size - 1] == NUL
  {
    var k := Min(|out|, size - 1);
    out[..k] + [NUL] + was[k + 1..]
  }

  class PStream {
    const buffer: array<char>
    const size: nat
    var pos: nat        // where the next character goes
    var remain: int
    var added: int
    ghost var out: string        // everything added so far
    ghost const start: seq<char> // the buffer as it was

    /** The buffer holds the first size - 1 characters of `out` and is otherwise untouched. */
    ghost predicate Valid()
      reads this, buffer
    {
      && 1 <= size <= buffer.Length && |start| == buffer.Length
      && pos == Min(|out|, size - 1) && remain == size - 1 - pos && added == |out|
      && buffer[..] == out[..pos] + start[pos..]
    }

    constructor (buf: array<char>, n: nat)
      requires 1 <= n <= buf.Length
      ensures Valid() && buffer == buf && size == n && out == "" && start == old(buf[..])
      ensures buf[..] == old(buf[..])
    {
      buffer, size := buf, n;
      pos, remain, added := 0, n - 1, 0;
      out, start := "", buf[..];
    }

    method AddChar(c: char)
      requires Valid()
      modifies this`pos, this`remain, this`added, this`out, buffer
      ensures Valid() && out == old(out) + [c]
    {
      ghost var b, o := buffer[..], out;
      if remain != 0 {
        buffer[pos] := c;
        pos := pos + 1;
        remain := remain - 1;
        assert buffer[..] == b[pos - 1 := c];
        assert (o + [c])[..pos] == o + [c];
      } else {
        assert (o + [c])[..pos] == o[..pos];
      }
      added := added + 1;
      out := out + [c];
    }

    method Terminate()
      requires Valid()
      modifies buffer
      ensures buffer[..] == Truncated(out, size, start)
    {
      ghost var b := buffer[..];
      buffer[pos] := NUL;
      assert buffer[..] == b[pos := NUL];
    }

    /** Adds c `k` times. */
    method AddPadding(c: char, k: nat)
      requires Valid()
      modifies this`pos, this`remain, this`added, this`out, buffer
      ensures Valid() && out == old(out) + Repeat(c, k)
    {
      ghost var o := out;
      assert o + Repeat(c, 0) == o;
      var i := 0;
      while i < k
        invariant 0 <= i <= k && Valid() && out == o + Repeat(c, i)
      {
        AddChar(c);
        assert Repeat(c, i) + [c] == Repeat(c, i + 1);
        i := i + 1;
      }
    }

    method AddText(s: string)
      requires Valid()
      modifies this`pos, this`remain, this`added, this`out, buffer
      ensures Valid() && out == old(out) + s
    {
      ghost var o := out;
      assert o + s[..0] == o;
      var i := 0;
      while i < |s|
        invariant 0 <= i <= |s| && Valid() && out == o + s[..i]
      {
        AddChar(s[i]);
        assert s[..i] + [s[i]] == s[..i + 1];
        i := i + 1;
      }
      assert s[..|s|] == s;
    }

    method PrintStr(s: string, p: Props)
      requires Valid()
      modifies this`pos, this`remain, this`added, this`out, buffer
      ensures Valid() && out == old(out) + Padded(s, p.npad, p.pad)
    {
      var npad := p.npad;
      if npad > 0 {
        npad := npad - |s|;
        if npad > 0 {
          AddPadding(p.pad, npad);
          npad := 0;
        }
      }
      AddText(s);
      if npad < 0 {
        npad := npad + |s|;
        if npad < 0 {
          AddPadding(' ', -npad);
        }
      }
    }

    method PrintInt(n0: int, base: nat, p: Props)
      requires Valid() && base == 10 && -LONG_LIMIT < n0 < LONG_LIMIT
      modifies this`pos, this`remain, this`added, this`out, buffer
      ensures Valid() && out == old(out) + Padded(IntText(n0, base), p.npad, p.pad)
    {
      hide RevDigits, IntText, Padded;
      var buf := new char[26];
      var n, s := n0, false;
      if n < 0 {
        n := -n;
        s := true;
      }
      WordDigitsFit(n, base);
      NoDigits(n, base);
      var q := PutDigits(buf, n, base);
      ghost var digits := RevDigits(n, base);
      if s {
        buf[q] := '-';
        q := q + 1;
      }
      if q == 0 {
        buf[q] := '0';
        q := q + 1;
      }
      assert buf[..q] == digits + (if s then "-" else if n == 0 then "0" else "");
      ReverseInPlace(buf, q);
      buf[q] := NUL;
      SignedText(n0, base);
      PrintStr(buf[..q], p);
    }

    /** The first half of `print_unsigned`: the local buffer, still reversed, and the prefix that
        zero padding puts out at once. */
    method UnsignedBuffer(buf: array<char>, n: nat, base: nat, props: Props)
      returns (q: nat, p: Props, ghost prefix: string)
      requires Valid() && (base == 10 || base == 16) && n < 0x1_0000_0000_0000_0000
      requires buf != buffer && buf.Length == 27
      modifies this`pos, this`remain, this`added, this`out, buffer, buf
      ensures Valid() && q < 27 && out == old(out) + prefix
      ensures UnsignedText(n, base, props) == prefix + Padded(Reverse(buf[..q]), p.npad, p.pad)
    {
      p := props;
      prefix := "";
      WordDigitsFit(n, base);
      q := PutDigits(buf, n, base);
      ghost var digits, tail := RevDigits(n, base), "";
      hide RevDigits, UnsignedText, Padded;
      assert q == 0 <==> n == 0 by { NoDigits(n, base); }
      if q == 0 {
        buf[q] := '0';
        q := q + 1;
        tail := "0";
      } else if p.alternate && base == 16 {
        if p.pad == '0' {
          AddChar('0');
          AddChar('x');
          prefix := "0x";
          if p.npad > 0 {
            p := p.(npad := Max(p.npad - 2, 0));
          }
        } else {
          buf[q] := 'x';
          buf[q + 1] := '0';
          q := q + 2;
          tail := "x0";
        }
      }
      assert buf[..q] == digits + tail;
      UnsignedResult(n, base, props, tail, prefix, p);
    }

    method PrintUnsigned(n: nat, base: nat, props: Props)
      requires Valid() && (base == 10 || base == 16) && n < 0x1_0000_0000_0000_0000
      modifies this`pos, this`remain, this`added, this`out, buffer
      ensures Valid() && out == old(out) + UnsignedText(n, base, props)
    {
      hide UnsignedText, Padded;
      ghost var o := out;
      var buf := new char[27];
      ghost var prefix;
      var q, p;
      q, p, prefix := UnsignedBuffer(buf, n, base, props);
      ReverseInPlace(buf, q);
      ghost var text := buf[..q];
      buf[q] := NUL;
      assert buf[..q] == text;
      PrintStr(buf[..q], p);
      Assoc(o, prefix, Padded(text, p.npad, p.pad));
    }
  }

  /** The local buffer of `print_int`, reversed, is the number's text. */
  lemma SignedText(n: int, base: nat)
    requires base == 10
    ensures Reverse(RevDigits(Abs(n), base) + (if n < 0 then "-" else if n == 0 then "0" else "")) == IntText(n, base)
  {
    var d := RevDigits(Abs(n), base);
    if n == 0 {
      assert d + "0" == "0";
    } else {
      RevDigitsAreDigits(Abs(n), base);
      if n < 0 {
        assert Reverse(d + "-") == ['-'] + Reverse(d);
      } else {
        assert d + "" == d;
      }
    }
  }

  lemma NoDigits(n: nat, base: nat)
    requires base == 10 || base == 16
    ensures |RevDigits(n, base)| == 0 <==> n == 0
  {}

  /** What `print_unsigned` prints before and through `print_str`. */
  lemma UnsignedParts(n: nat, base: nat, p: Props)
    requires base == 10 || base == 16
    ensures UnsignedText(n, base, p) ==
              if n != 0 && p.alternate && base == 16 && p.pad == '0'
              then "0x" + Padded(Digits(n, base), if p.npad > 0 then Max(p.npad - 2, 0) else p.npad, p.pad)
              else "" + Padded((if n != 0 && p.alternate && base == 16 then "0x" else "") + Digits(n, base),
                               p.npad, p.pad)
  {
    assert "" + Digits(n, base) == Digits(n, base);
    assert "" + Padded(Digits(n, base), p.npad, p.pad) == Padded(Digits(n, base), p.npad, p.pad);
    assert "" + Padded("0x" + Digits(n, base), p.npad, p.pad) == Padded("0x" + Digits(n, base), p.npad, p.pad);
  }

  lemma ReverseAppend(s: string, c: char)
    ensures Reverse(s + [c]) == [c] + Reverse(s)
  {}

  /** The local buffer of `print_unsigned`, reversed. */
  lemma UnsignedDigits(n: nat, base: nat, tail: string)
    requires base == 10 || base == 16
    requires if n == 0 then tail == "0" else tail == "" || tail == "x0"
    ensures Reverse(RevDigits(n, base) + tail) == (if tail == "x0" then "0x" else "") + Digits(n, base)
  {
    var d := RevDigits(n, base);
    if n == 0 {
      assert d + "0" == "0";
      assert Reverse("0") == "" + Digits(0, base);
    } else {
      RevDigitsAreDigits(n, base);
      hide RevDigits, Digits;
      if tail == "x0" {
        assert d + "x0" == (d + ['x']) + ['0'];
        ReverseAppend(d + ['x'], '0');
        ReverseAppend(d, 'x');
        assert ['0'] + (['x'] + Reverse(d)) == "0x" + Reverse(d);
      } else {
        assert d + "" == d && "" + Reverse(d) == Reverse(d);
      }
    }
  }

  /** Prefix, buffer and remaining width make up the number's text. */
  lemma UnsignedResult(n: nat, base: nat, props: Props, tail: string, prefix: string, p: Props)
    requires base == 10 || base == 16
    requires var alt := n != 0 && props.alternate && base == 16;
             && tail == (if n == 0 then "0" else if alt && props.pad != '0' then "x0" else "")
             && prefix == (if alt && props.pad == '0' then "0x" else "")
             && p == (if alt && props.pad == '0' && props.npad > 0 then props.(npad := Max(props.npad - 2, 0))
                      else props)
    ensures UnsignedText(n, base, props) == prefix + Padded(Reverse(RevDigits(n, base) + tail), p.npad, p.pad)
  {
    UnsignedDigits(n, base, tail);
    UnsignedParts(n, base, props);
    hide RevDigits, Digits, Padded, UnsignedText;
    assert "" + Digits(n, base) == Digits(n, base);
  }

  // ----- vsnprintf

  method FmtNum(fmt: string, i: nat) returns (num: int, len: nat)
    requires IsCString(fmt) && i <= |fmt| && Magnitude(fmt[i..]) < LONG_LIMIT
    ensures len == FieldLength(fmt[i..]) && num == FieldWidth(fmt[i..])
  {
    var f := i;
    len := 0;
    if CharAt(fmt, f) == '-' {
      f, len := f + 1, len + 1;
    }
    ghost var sign := len;
    assert fmt[i..][sign..] == fmt[f..];
    while '0' <= CharAt(fmt, f) <= '9'
      invariant f <= |fmt| && f == i + len
      invariant len + DigitRun(fmt[f..]) == FieldLength(fmt[i..])
      decreases |fmt| - f
    {
      assert fmt[f..][1..] == fmt[f + 1..];
      f, len := f + 1, len + 1;
    }
    var n := Atol(fmt[i..]);
    num := AsSigned(n, false);    // long to int
  }

  /** One conversion with its argument. */
  method PrintArg(s: PStream, f: char, p: Props, nlong: nat, args: seq<Arg>)
    requires s.Valid() && Convert(f, p, nlong, args).Some?
    modifies s`pos, s`remain, s`added, s`out, s.buffer
    ensures args != [] && s.Valid() && s.out == old(s.out) + Convert(f, p, nlong, args).value
  {
    hide Padded, IntText, UnsignedText;
    match f
    case 'c' => s.AddChar((args[0].n % 256) as char);
    case 'd' => s.PrintInt(AsSigned(args[0].n, nlong > 0), 10, p);
    case 'u' => s.PrintUnsigned(AsUnsigned(args[0].n, nlong > 0), 10, p);
    case 'x' => s.PrintUnsigned(AsUnsigned(args[0].n, nlong > 0), 16, p);
    case 'p' => s.PrintUnsigned(AsUnsigned(args[0].n, true), 16, p.(alternate := true));
    case _ => s.PrintStr(args[0].s, p);
  }

  /** From behind a percent sign to behind its directive: the `morefmt` loop. */
  method PrintDirective(s: PStream, fmt: string, start: nat, args: seq<Arg>) returns (i: nat, args': seq<Arg>)
    requires s.Valid() && IsCString(fmt) && start <= |fmt|
    requires Directive(fmt, start, Props(' ', 0, false), 0, args).Some?
    modifies s`pos, s`remain, s`added, s`out, s.buffer
    ensures s.Valid() && start <= i <= |fmt| && Render(fmt, i, args').Some?
    ensures s.out + Render(fmt, i, args').value
         == old(s.out) + Directive(fmt, start, Props(' ', 0, false), 0, args).value
  {
    hide Render, Convert, Magnitude, FieldLength, FieldWidth;
    ghost var total := Directive(fmt, start, Props(' ', 0, false), 0, args);
    var p, nlong := Props(' ', 0, false), 0;
    i, args' := start, args;
    while true
      invariant start <= i <= |fmt| && s.Valid() && s.out == old(s.out)
      invariant Directive(fmt, i, p, nlong, args) == total
      decreases |fmt| - i
    {
      var f := CharAt(fmt, i);
      i := i + 1;
      if f == NUL {
        i := i - 1;
        RenderEnd(fmt, i, args);
        return;
      } else if f == '#' {
        p := p.(alternate := true);
      } else if f == '0' {
        p := p.(pad := '0');
        var num, len := FmtNum(fmt, i);
        p, i := p.(npad := num), i + len;
      } else if IsDigit(f) || f == '-' {
        i := i - 1;
        var num, len := FmtNum(fmt, i);
        p, i := p.(npad := num), i + len;
      } else if f == 'l' {
        nlong := nlong + 1;
      } else if f == 't' || f == 'z' {
        nlong := 1;
      } else if IsConversion(f) {
        PrintArg(s, f, p, nlong, args);
        args' := args[1..];
        Assoc(old(s.out), Convert(f, p, nlong, args).value, Render(fmt, i, args').value);
        return;
      } else {
        s.AddChar(f);
        Assoc(old(s.out), [f], Render(fmt, i, args).value);
        return;
      }
    }
  }

  lemma RenderEnd(fmt: string, i: nat, args: seq<Arg>)
    requires i == |fmt|
    ensures Render(fmt, i, args) == Some("")
  {}

  lemma RenderChar(fmt: string, i: nat, args: seq<Arg>)
    requires i < |fmt| && fmt[i] != '%' && Render(fmt, i, args).Some?
    ensures Render(fmt, i + 1, args).Some? && Render(fmt, i, args).value == [fmt[i]] + Render(fmt, i + 1, args).value
  {}

  lemma RenderPercent(fmt: string, i: nat, args: seq<Arg>)
    requires i < |fmt| && fmt[i] == '%'
    ensures Render(fmt, i, args) == Directive(fmt, i + 1, Props(' ', 0, false), 0, args)
  {}

  /** Prints as much of the rendered format as fits and a terminator, touches nothing behind it,
      and returns the full length whatever the size. */
  method VsnPrintf(buf: array<char>, size: nat, fmt: string, va: seq<Arg>) returns (r: int)
    requires 1 <= size <= buf.Length && IsCString(fmt)
    requires Render(fmt, 0, va).Some? && |Render(fmt, 0, va).value| < 0x8000_0000
    modifies buf
    ensures r == |Render(fmt, 0, va).value|
    ensures buf[..] == Truncated(Render(fmt, 0, va).value, size, old(buf[..]))
  {
    hide Render, Directive, Truncated;
    ghost var all := Render(fmt, 0, va).value;
    var s := new PStream(buf, size);
    var i, args := 0, va;
    assert "" + all == all;
    while CharAt(fmt, i) != NUL
      invariant i <= |fmt| && s.Valid() && s.buffer == buf && s.size == size && s.start == old(buf[..])
      invariant Render(fmt, i, args).Some? && s.out + Render(fmt, i, args).value == all
      decreases |fmt| - i
    {
      var f := CharAt(fmt, i);
      i := i + 1;
      if f != '%' {
        ghost var o := s.out;
        RenderChar(fmt, i - 1, args);
        s.AddChar(f);
        Assoc(o, [f], Render(fmt, i, args).value);
      } else {
        RenderPercent(fmt, i - 1, args);
        i, args := PrintDirective(s, fmt, i, args);
      }
    }
    RenderEnd(fmt, i, args);
    assert s.out + "" == s.out;
    s.Terminate();
    r := s.added;
  }
}
